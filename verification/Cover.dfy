/** The printable cover of handshake datagrams. The two lengths it uses come from one hash byte each; SHA-256 of the
    protocol fingerprint is foreign code, so the byte is a parameter. */
module Cover {
  import opened Bytes
  import opened Genome
  import opened AeadModel
  import opened FrameFormat
  import opened Framing

  const COVER_LEN_MIN: nat := 24
  const COVER_LEN_MAX: nat := 32
  const HANDSHAKE_MIN_WIRE: nat := 701
  const HANDSHAKE_MAX_WIRE: nat := 1200

  function CoverLen(hash: byte): nat {
    COVER_LEN_MIN + hash % (COVER_LEN_MAX - COVER_LEN_MIN + 1)
  }

  function HandshakePadTarget(hash: byte): nat {
    HANDSHAKE_MIN_WIRE + hash % (HANDSHAKE_MAX_WIRE - HANDSHAKE_MIN_WIRE + 1)
  }

  predicate Printable(b: Bytes) {
    forall i :: 0 <= i < |b| ==> 0x20 <= b[i] <= 0x7E
  }

  /** The printable form of random bytes. */
  function Printed(raw: Bytes): (b: Bytes)
    ensures |b| == |raw| && Printable(b)
  {
    seq(|raw|, i requires 0 <= i < |raw| => 0x20 + raw[i] % 95)
  }

  /** What `tries` draws of n bytes from a source make: the first that does not look like a known protocol. */
  function Text(source: Bytes, n: nat, looksKnown: Bytes -> bool, tries: nat): (b: Bytes)
    ensures |b| == n && Printable(b)
    decreases tries
  {
    if tries == 0 then seq(n, i requires 0 <= i => 0x61 + i % 26)
    else if n > |source| then seq(n, i requires 0 <= i => 0x41 + i % 26)
    else if !looksKnown(Printed(source[..n])) then Printed(source[..n])
    else Text(source[n..], n, looksKnown, tries - 1)
  }

  /** randomPrintable: n printable bytes, redrawn while they look like a known protocol; constant text when the
      random source runs dry or 32 draws were refused. */
  method RandomPrintable(n: nat, rnd: Reader, looksKnown: Bytes -> bool) returns (buf: Bytes)
    modifies rnd
    ensures |buf| == n && Printable(buf) && buf == Text(old(rnd.data), n, looksKnown, 32)
  {
    for tries := 0 to 32
      invariant Text(old(rnd.data), n, looksKnown, 32) == Text(rnd.data, n, looksKnown, 32 - tries)
    {
      var scratch := rnd.ReadFull(n);
      if scratch.Err? {
        return seq(n, i => 0x41 + i % 26);
      }
      buf := seq(n, i requires 0 <= i < n => 0x20 + scratch.value[i] % 95);
      assert buf == Printed(scratch.value);
      if !looksKnown(buf) {
        return;
      }
    }
    return seq(n, i => 0x61 + i % 26);
  }

  /** With n bytes to draw that do not look like a known protocol, the text is those bytes, each brought into the
      printable range. */
  lemma TextIsDrawn(source: Bytes, n: nat, looksKnown: Bytes -> bool, i: nat)
    requires i < n <= |source| && !looksKnown(Printed(source[..n]))
    ensures Text(source, n, looksKnown, 32)[i] == 0x20 + source[i] % 95
  {
  }

  /** padHandshakeWire: a datagram of 160 to 700 bytes grows a printable tail that takes it out of that band. */
  method PadHandshakeWire(hash: byte, wire: Bytes, rnd: Reader, looksKnown: Bytes -> bool) returns (r: Bytes)
    modifies rnd
    ensures wire <= r && Printable(r[|wire|..]) && !(160 <= |r| <= 700)
    ensures |r| == if 160 <= |wire| <= 700 then 701 + hash % 500 else |wire|
  {
    if |wire| < 160 || |wire| > 700 {
      return wire;
    }
    var target := HandshakePadTarget(hash);
    if target < HANDSHAKE_MIN_WIRE {
      target := HANDSHAKE_MIN_WIRE;
    }
    if target > HANDSHAKE_MAX_WIRE {
      target := HANDSHAKE_MAX_WIRE;
    }
    if target <= |wire| {
      target := HANDSHAKE_MIN_WIRE;
    }
    if target <= |wire| {
      return wire;
    }
    var tail := RandomPrintable(target - |wire|, rnd, looksKnown);
    r := wire + tail;
    assert r[|wire|..] == tail;
  }

  /** UnwrapHandshakeDatagram */
  function Unwrap(coverHash: byte, wire: Bytes): Option<Bytes> {
    if |wire| < CoverLen(coverHash) then None else Some(wire[CoverLen(coverHash)..])
  }

  /** WrapHandshakeDatagram, with an optional probe mark written over the head of the cover. Unwrapping gives back
      the frame and perhaps a tail; the wire length is never in the band from 160 to 700. */
  method Wrap(coverHash: byte, padHash: byte, frame: Bytes, mark: Bytes, rnd: Reader, looksKnown: Bytes -> bool)
    returns (wire: Bytes, ghost tail: Bytes)
    modifies rnd
    ensures Unwrap(coverHash, wire) == Some(frame + tail)
    ensures !(160 <= |wire| <= 700) && Printable(tail)
    ensures var n := |wire| - |frame| - |tail|;
      && 24 <= n == 24 + coverHash % 9 <= 32 && Printable(wire[if |mark| <= n then |mark| else 0..n])
      && (0 < |mark| <= n ==> mark <= wire)
      && |tail| == if 160 <= n + |frame| <= 700 then 701 + padHash % 500 - (n + |frame|) else 0
  {
    var n := CoverLen(coverHash);
    var cover := RandomPrintable(n, rnd, looksKnown);
    if |mark| > 0 && n >= |mark| {
      cover := mark + cover[|mark|..];
    }
    ghost var from := if |mark| <= n then |mark| else 0;
    assert Printable(cover[from..]);
    wire := PadHandshakeWire(padHash, cover + frame, rnd, looksKnown);
    hide Text;
    tail := wire[n + |frame|..];
    Covered(cover, frame, tail, wire, from);
    assert 0 < |mark| <= n ==> wire[..|mark|] == cover[..|mark|] == mark;
  }

  lemma Covered(cover: Bytes, frame: Bytes, tail: Bytes, wire: Bytes, from: nat)
    requires cover + frame <= wire && tail == wire[|cover| + |frame|..] && from <= |cover|
    ensures wire[|cover|..] == frame + tail && wire[from..|cover|] == cover[from..] && cover <= wire
  {
    assert wire[..|cover| + |frame|] == cover + frame;
  }

  /** Wrapping is transparent: whatever cover and tail a datagram gets, unwrapping it and keeping the declared
      prefix returns exactly the frame that was sealed. */
  lemma WrapTransparent(spec: MessageSpec, aead: Aead, nonce: Bytes, m: Message, pad: Bytes, frame: Bytes,
                        coverHash: byte, wire: Bytes, tail: Bytes)
    requires Correct(aead) && FrameOf(spec, aead, nonce, m, pad, frame) && 0 <= spec.lengthIndex < |spec.plain|
    requires Unwrap(coverHash, wire) == Some(frame + tail)
    ensures DeclaredPrefix(spec, Unwrap(coverHash, wire).value) == Some(frame)
  {
    DeclaredPrefixOfFrame(spec, aead, nonce, m, pad, frame, tail);
  }
}
