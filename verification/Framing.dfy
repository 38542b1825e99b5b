/** Finding frame boundaries: transport segments, stream framing, and the declared prefix of a datagram. */
module Framing {
  import opened Bytes
  import opened Genome
  import opened AeadModel
  import opened FrameFormat

  /** splitSegments: when the length field travels alone, the bytes before it, the field, and the rest. */
  method SplitSegments(spec: MessageSpec, frame: Bytes) returns (segs: seq<Bytes>)
    requires PlainSize(spec.plain) <= |frame|
    ensures Flatten(segs) == frame
    ensures !(spec.lengthAlone && 0 <= spec.lengthIndex < |spec.plain|) ==> segs == [frame]
    ensures spec.lengthAlone && 0 <= spec.lengthIndex < |spec.plain| ==>
      var before, n := PlainSize(spec.plain[..spec.lengthIndex]), SizeOf(spec.plain[spec.lengthIndex]);
      && before + n <= |frame|
      && segs == (if before > 0 then [frame[..before]] else []) + [frame[before..before + n], frame[before + n..]]
  {
    assert Flatten([frame]) == frame + Flatten([]) == frame;
    if !spec.lengthAlone || spec.lengthIndex < 0 {
      return [frame];
    }
    var before := 0;
    for i := 0 to |spec.plain|
      invariant before == PlainSize(spec.plain[..i]) && i <= spec.lengthIndex
    {
      var f := spec.plain[i];
      var n := SizeOf(f);
      assert spec.plain[..i + 1] == spec.plain[..i] + [f];
      PlainSizeAppend(spec.plain[..i], f);
      PlainSizeConcat(spec.plain[..i + 1], spec.plain[i + 1..]);
      assert spec.plain == spec.plain[..i + 1] + spec.plain[i + 1..];
      if i == spec.lengthIndex {
        var segs0: seq<Bytes> := if before > 0 then [frame[..before]] else [];
        segs := segs0 + [frame[before..before + n], frame[before + n..]];
        SegmentsFlatten(frame, before, n);
        return;
      }
      before := before + n;
    }
    return [frame];
  }

  lemma SegmentsFlatten(frame: Bytes, before: nat, n: nat)
    requires before + n <= |frame|
    ensures var a, b, c := frame[..before], frame[before..before + n], frame[before + n..];
      Flatten((if before > 0 then [a] else []) + [b, c]) == frame
  {
    var a, b, c := frame[..before], frame[before..before + n], frame[before + n..];
    assert frame == a + (b + c);
    assert Flatten([c]) == c + Flatten([]) && [b, c][1..] == [c];
    assert Flatten([b, c]) == b + c;
    assert ([a] + [b, c])[1..] == [b, c] && [] + [b, c] == [b, c];
  }

  /** The loop decodeAt and DeclaredFrame share: the plain fields, and the declared length if any. */
  method SplitHeader(spec: MessageSpec, frame: Bytes) returns (r: Result<seq<Bytes>>, declared: Option<nat>)
    ensures r.Ok? ==> TakePlain(spec.plain, frame) == Some(r.value) && |r.value| == |spec.plain|
    ensures r.Ok? ==> declared == DeclaredLength(spec, r.value)
    ensures r.Ok? ==> (declared.None? <==> !(0 <= spec.lengthIndex < |spec.plain|))
    ensures r.Err? ==> match TakePlain(spec.plain, frame)
      case None => true
      case Some(plain) => 0 <= spec.lengthIndex < |spec.plain| == |plain| && DeclaredLength(spec, plain).None?
  {
    var plain: seq<Bytes> := [];
    var off: nat := 0;
    declared := None;
    assert spec.plain[0..] == spec.plain && frame[0..] == frame;
    Prepends(spec.plain, frame);
    for i := 0 to |spec.plain|
      invariant |plain| == i && off <= |frame|
      invariant TakePlain(spec.plain, frame) == Prepend(plain, TakePlain(spec.plain[i..], frame[off..]))
      invariant 0 <= spec.lengthIndex < i ==>
        var f := spec.plain[spec.lengthIndex];
        declared.Some? && declared == IntValue(plain[spec.lengthIndex], f.encoding, f.endian)
      invariant !(0 <= spec.lengthIndex < i) ==> declared.None?
    {
      var f := spec.plain[i];
      assert spec.plain[i..][0] == f && spec.plain[i..][1..] == spec.plain[i + 1..];
      var size := FixedSize(f);
      if size.Err? {
        return Err(Unsupported), None;
      }
      var n := size.value;
      if off + n > |frame| {
        return Err(Malformed), None;
      }
      var v := frame[off..off + n];
      assert frame[off..][..n] == v && frame[off..][n..] == frame[off + n..];
      PrependStep(plain, v, TakePlain(spec.plain[i + 1..], frame[off + n..]));
      plain := plain + [v];
      off := off + n;
      if i == spec.lengthIndex {
        declared := IntValue(v, f.encoding, f.endian);
        if declared.None? {
          HeaderFits(spec.plain, frame);
          return Err(Unsupported), None;
        }
      }
    }
    assert spec.plain[|spec.plain|..] == [];
    assert plain + [] == plain;
    return Ok(plain), declared;
  }

  const MAX_REMAINDER: nat := 0x400_0000

  /** The prefix of some bytes that their header declares to be the frame; all of them when there is no length field. */
  function DeclaredPrefix(spec: MessageSpec, bytes: Bytes): Option<Bytes> {
    match TakePlain(spec.plain, bytes)
    case None => None
    case Some(plain) =>
      if |plain| != |spec.plain| then None else
        match DeclaredTotal(spec, plain, |bytes|)
        case None => None
        case Some(n) => if n < PlainSize(spec.plain) || n > |bytes| then None else Some(bytes[..n])
  }

  /** DeclaredFrame: drop the tail a sender appended behind the real record. */
  method DeclaredFrame(spec: MessageSpec, frame: Bytes) returns (r: Result<Bytes>)
    ensures match DeclaredPrefix(spec, frame) case Some(p) => r == Ok(p) case None => r.Err?
  {
    HeaderFits(spec.plain, frame);
    var plain, declared :- SplitHeader(spec, frame);
    var off := PlainSize(spec.plain);
    if declared.None? {
      assert frame[..|frame|] == frame;
      return Ok(frame);
    }
    var n: int;
    match spec.plain[spec.lengthIndex].subject {
      case Ciphertext => n := off + declared.value;
      case Record => n := declared.value;
      case NoSubject => return Err(Unsupported);
    }
    if n < off || n > |frame| {
      return Err(Malformed);
    }
    return Ok(frame[..n]);
  }

  /** The declared prefix of a frame with anything behind it is the frame. */
  lemma DeclaredPrefixOfFrame(spec: MessageSpec, aead: Aead, nonce: Bytes, m: Message, pad: Bytes, frame: Bytes,
                              tail: Bytes)
    requires Correct(aead) && FrameOf(spec, aead, nonce, m, pad, frame) && 0 <= spec.lengthIndex < |spec.plain|
    ensures DeclaredPrefix(spec, frame + tail) == Some(frame)
  {
    TakePlainExact(spec.plain, frame + tail, m.plain);
    TakePlainExact(spec.plain, frame, m.plain);
    assert (frame + tail)[..|frame|] == frame;
  }

  /** The first loop of ReadFrame: the plain fields off the stream. */
  method ReadHeader(r: Reader, spec: MessageSpec)
    returns (header: Result<Bytes>, declared: Option<nat>, ghost plain: seq<Bytes>)
    modifies r
    ensures header.Ok? ==>
      && TakePlain(spec.plain, old(r.data)) == Some(plain) && |plain| == |spec.plain|
      && old(r.data) == header.value + r.data && |header.value| == PlainSize(spec.plain)
      && declared == DeclaredLength(spec, plain)
    ensures header.Ok? ==> (declared.None? <==> !(0 <= spec.lengthIndex < |spec.plain|))
    ensures header.Err? ==> DeclaredPrefix(spec, old(r.data)).None?
  {
    ghost var stream := r.data;
    HeaderFits(spec.plain, stream);
    var bytes: Bytes := [];
    plain, declared := [], None;
    assert spec.plain[0..] == spec.plain;
    Prepends(spec.plain, stream);
    for i := 0 to |spec.plain|
      invariant |plain| == i && stream == bytes + r.data && |bytes| == PlainSize(spec.plain[..i])
      invariant TakePlain(spec.plain, stream) == Prepend(plain, TakePlain(spec.plain[i..], r.data))
      invariant 0 <= spec.lengthIndex < i ==>
        var f := spec.plain[spec.lengthIndex];
        declared.Some? && declared == IntValue(plain[spec.lengthIndex], f.encoding, f.endian)
      invariant !(0 <= spec.lengthIndex < i) ==> declared.None?
    {
      var f := spec.plain[i];
      assert spec.plain[i..][0] == f && spec.plain[i..][1..] == spec.plain[i + 1..];
      assert spec.plain[..i + 1] == spec.plain[..i] + [f];
      PlainSizeAppend(spec.plain[..i], f);
      var size := FixedSize(f);
      if size.Err? {
        return Err(Unsupported), None, plain;
      }
      ghost var before := r.data;
      var b := r.ReadFull(size.value);
      if b.Err? {
        return b, None, plain;
      }
      PrependStep(plain, b.value, TakePlain(spec.plain[i + 1..], r.data));
      Regroup(bytes, b.value, before, r.data);
      bytes, plain := bytes + b.value, plain + [b.value];
      if i == spec.lengthIndex {
        declared := IntValue(b.value, f.encoding, f.endian);
        if declared.None? {
          return Err(Unsupported), None, plain;
        }
      }
    }
    assert spec.plain[|spec.plain|..] == [] && spec.plain[..|spec.plain|] == spec.plain;
    assert plain + [] == plain;
    return Ok(bytes), declared, plain;
  }

  lemma Regroup(a: Bytes, b: Bytes, before: Bytes, rest: Bytes)
    requires |b| <= |before| && b == before[..|b|] && rest == before[|b|..]
    ensures a + before == (a + b) + rest
  {
  }

  /** ReadFrame: one frame from the front of a byte stream, and not one byte more. */
  method ReadFrame(r: Reader, spec: MessageSpec) returns (frame: Result<Bytes>)
    modifies r
    ensures var p := DeclaredPrefix(spec, old(r.data));
      && (frame.Ok? <==>
          0 <= spec.lengthIndex < |spec.plain| && p.Some? && |p.value| - PlainSize(spec.plain) <= MAX_REMAINDER)
      && (frame.Ok? ==> frame.value == p.value && old(r.data) == frame.value + r.data)
  {
    var header, declared, plain := ReadHeader(r, spec);
    if header.Err? {
      return header;
    }
    if declared.None? {
      return Err(Unsupported);
    }
    var bytes := header.value;
    var rest: int;
    match spec.plain[spec.lengthIndex].subject {
      case Ciphertext => rest := declared.value;
      case Record => rest := declared.value - |bytes|;
      case NoSubject => return Err(Unsupported);
    }
    if rest < 0 || rest > MAX_REMAINDER {
      return Err(TooLarge);
    }
    ghost var before := r.data;
    var b :- r.ReadFull(rest);
    Regroup(bytes, b, before, r.data);
    assert old(r.data)[..|bytes + b|] == bytes + b;
    return Ok(bytes + b);
  }
}
