/** One endpoint of the generated handshake: what it seals, and what it does with any bytes it receives. */
module HandshakeModel {
  import opened Bytes
  import opened Genome
  import opened AeadModel
  import opened FrameFormat
  import opened ReplayWindow
  import opened Sequence
  import opened EncodingRules
  import opened Framing

  /** X25519 and the session key derivation, as functions. */
  datatype Suite = Suite(pub: Bytes -> Bytes, dh: (Bytes, Bytes) -> Bytes,
                         kdf: (Bytes, Bytes, bool, Bytes, nat) -> Bytes)

  /** Both ends of a Diffie-Hellman exchange compute the same secret, and public keys are 32 bytes. */
  ghost predicate Agrees(suite: Suite) {
    && (forall a: Bytes, b: Bytes {:trigger suite.dh(a, suite.pub(b))} ::
          suite.dh(a, suite.pub(b)) == suite.dh(b, suite.pub(a)))
    && (forall a: Bytes :: |suite.pub(a)| == 32)
  }

  /** A compiled protocol: the handshake layouts and the two bootstrap keys. */
  datatype Protocol = Protocol(specs: seq<MessageSpec>, c2s: Aead, s2c: Aead)

  function AeadOf(p: Protocol, i: nat): Aead
    requires i < |p.specs|
  {
    if p.specs[i].direction == Server then p.s2c else p.c2s
  }

  ghost predicate Good(p: Protocol) {
    && Correct(p.c2s) && Correct(p.s2c) && |p.specs| < 0x1_0000_0000
    && forall i :: 0 <= i < |p.specs| ==>
         WellFormed(p.specs[i]) && p.specs[i].index == i && p.specs[i].direction in {Client, Server}
  }

  predicate HasKey(spec: MessageSpec) {
    FirstOfKind(spec.encrypted, Key) < |spec.encrypted|
  }

  /** One endpoint: its role and ephemeral key, the step it is at, the frames hashed into its transcript, the peer key
      it has captured, and the receive window of the codec of the current step. */
  datatype Peer = Peer(role: Direction, priv: Bytes, idx: nat, frames: seq<Bytes>, remote: Option<Bytes>,
                       window: Window)

  function NewPeer(role: Direction, priv: Bytes): Peer {
    Peer(role, priv, 0, [], None, Window(0, {}))
  }

  // ---- the steps of one endpoint ----

  /** frame is what step i encodes for the holder of priv. */
  ghost predicate SealedStep(p: Protocol, suite: Suite, i: nat, priv: Bytes, frame: Bytes)
    requires i < |p.specs|
  {
    exists m: Message, pad: Bytes :: SealedMessage(p, suite, i, priv, m, pad, frame)
  }

  /** ... and the frame carries this payload. */
  ghost predicate SealedWith(p: Protocol, suite: Suite, i: nat, priv: Bytes, payload: Bytes, frame: Bytes)
    requires i < |p.specs|
  {
    exists m: Message, pad: Bytes :: SealedMessage(p, suite, i, priv, m, pad, frame) && m.payload == payload
  }

  /** frame is sealed with this payload under `aead`, at sequence number 0. */
  ghost predicate SealedUnder(spec: MessageSpec, aead: Aead, payload: Bytes, frame: Bytes) {
    exists m: Message, pad: Bytes :: FrameOf(spec, aead, NonceAt(spec.index, 0), m, pad, frame) && m.payload == payload
  }

  /** Clients seal under the client-to-server key, servers under the other. */
  lemma UnderOwnKey(p: Protocol, suite: Suite, i: nat, priv: Bytes, payload: Bytes, frame: Bytes)
    requires Good(p) && i < |p.specs| && SealedWith(p, suite, i, priv, payload, frame)
    ensures SealedUnder(p.specs[i], if p.specs[i].direction == Client then p.c2s else p.s2c, payload, frame)
  {
    hide FrameOf, NonceAt, WellFormed;
    var m, pad :| SealedMessage(p, suite, i, priv, m, pad, frame) && m.payload == payload;
    assert FrameOf(p.specs[i], AeadOf(p, i), NonceAt(p.specs[i].index, 0), m, pad, frame);
  }

  ghost predicate SealedMessage(p: Protocol, suite: Suite, i: nat, priv: Bytes, m: Message, pad: Bytes, frame: Bytes)
    requires i < |p.specs|
  {
    var spec := p.specs[i];
    && FrameOf(spec, AeadOf(p, i), NonceAt(spec.index, 0), m, pad, frame)
    && CarriesConstants(spec, m.plain)
    && Carries(spec, m.encrypted, |pad|, if HasKey(spec) then Some(suite.pub(priv)) else None)
  }

  /** EncodeStep */
  function Encoded(x: Peer, frame: Bytes): Peer {
    x.(idx := x.idx + 1, frames := x.frames + [frame], window := Window(0, {}))
  }

  /** capturePeerKey: the key a message carries, if any; an error when it is not a key. */
  function CaptureKey(spec: MessageSpec, m: Message): Result<Option<Bytes>>
    requires |m.plain| == |spec.plain| && |m.encrypted| == |spec.encrypted|
  {
    var i, j := FirstOfKind(spec.plain, Key), FirstOfKind(spec.encrypted, Key);
    if i < |spec.plain| then RawKey(spec.plain[i], m.plain[i])
    else if j < |spec.encrypted| then RawKey(spec.encrypted[j], m.encrypted[j])
    else Ok(None)
  }

  /** A field carries a key of 32 bytes as it is, or behind the byte 4 in the X9.63 form. */
  lemma RawKeyExact(f: FieldSpec, v: Bytes, key: Bytes)
    ensures RawKey(f, v) == Ok(Some(key)) <==> |key| == 32 && (v == key || (f.encoding == X963 && v == [4] + key))
    ensures RawKey(f, v).Err? || RawKey(f, v).value.Some?
  {
    assert |v| == 33 ==> v == [v[0]] + v[1..];
  }

  function RawKey(f: FieldSpec, v: Bytes): Result<Option<Bytes>> {
    var raw := if f.encoding == X963 && |v| == 33 && v[0] == 4 then v[1..] else v;
    if |raw| == 32 then Ok(Some(raw)) else Err(Malformed)
  }

  /** The first of k nonces from `from` on under which frame decodes. */
  function FirstProbe(spec: MessageSpec, aead: Aead, frame: Bytes, from: nat, k: nat): Option<nat>
    decreases k
  {
    if k == 0 then None
    else if Decoded(spec, aead, NonceAt(spec.index, from), frame).Some? then Some(from)
    else FirstProbe(spec, aead, frame, from + 1, k - 1)
  }

  lemma {:induction false} FirstProbeExact(spec: MessageSpec, aead: Aead, frame: Bytes, from: nat, k: nat)
    ensures match FirstProbe(spec, aead, frame, from, k)
      case None => forall t :: from <= t < from + k ==> Decoded(spec, aead, NonceAt(spec.index, t), frame).None?
      case Some(s) =>
        && from <= s < from + k && Decoded(spec, aead, NonceAt(spec.index, s), frame).Some?
        && forall t :: from <= t < s ==> Decoded(spec, aead, NonceAt(spec.index, t), frame).None?
    decreases k
  {
    hide Decoded, NonceAt;
    if k > 0 && Decoded(spec, aead, NonceAt(spec.index, from), frame).None? {
      FirstProbeExact(spec, aead, frame, from + 1, k - 1);
    }
  }

  /** The codec's part of RecvStep: the declared frame, the number it opens under, and its message. */
  function Opened(spec: MessageSpec, aead: Aead, w: Window, inner: Bytes): Option<(Bytes, nat, Message)> {
    match DeclaredPrefix(spec, inner)
    case None => None
    case Some(frame) =>
      match FirstProbe(spec, aead, frame, w.base, STREAM_WINDOW)
      case None => None
      case Some(at) =>
        if at in w.seen then None else
          match Decoded(spec, aead, NonceAt(spec.index, at), frame)
          case None => None
          case Some(m) => Some((frame, at, m))
  }

  /** RecvStep on an unwrapped datagram. A refused datagram leaves the endpoint alone, except that one which decodes
      but carries a malformed key has spent its sequence number. */
  function Recv(p: Protocol, x: Peer, inner: Bytes): (Peer, bool) {
    if x.idx >= |p.specs| || p.specs[x.idx].direction == x.role then (x, false) else
      var spec := p.specs[x.idx];
      match Opened(spec, AeadOf(p, x.idx), x.window, inner)
      case None => (x, false)
      case Some((frame, at, m)) =>
        if |m.plain| != |spec.plain| || |m.encrypted| != |spec.encrypted| then (x, false) else
          match CaptureKey(spec, m)
          case Err(_) => (x.(window := Accept(x.window, at)), false)
          case Ok(key) => (Encoded(x, frame).(remote := if key.Some? then key else x.remote), true)
  }

  /** sessionKeys: (c2s, s2c), or an error before the end or without a peer key. */
  function SessionKeys(p: Protocol, suite: Suite, x: Peer, psk: Bytes, keyLen: nat): Result<(Bytes, Bytes)> {
    if x.idx < |p.specs| || x.remote.None? then Err(Rejected) else
      var shared := suite.dh(x.priv, x.remote.value);
      Ok((suite.kdf(shared, psk, true, Flatten(x.frames), keyLen),
          suite.kdf(shared, psk, false, Flatten(x.frames), keyLen)))
  }

  /** NewSession: which of the two keys a role sends with, and which it receives with. */
  function SendKey(role: Direction, keys: (Bytes, Bytes)): Bytes {
    if role == Server then keys.1 else keys.0
  }

  function RecvKey(role: Direction, keys: (Bytes, Bytes)): Bytes {
    if role == Server then keys.0 else keys.1
  }

  /** A key derivation no two inputs of which collide: secret, salt, label and transcript can be told from the key. */
  ghost predicate Separates(suite: Suite) {
    forall a: Bytes, b: Bytes, p: Bytes, q: Bytes, c: bool, d: bool, f: Bytes, g: Bytes, n: nat ::
      suite.kdf(a, p, c, f, n) == suite.kdf(b, q, d, g, n) ==> a == b && p == q && c == d && f == g
  }

  /** What the session keys are bound to: the two directions have different keys, and two endpoints with one client-to-
      server key, or one server-to-client key, have the same secret, the same pre-shared key and the same bytes of
      transcript; a client-to-server key never is another session's server-to-client key. */
  lemma SessionKeysBind(p: Protocol, q: Protocol, suite: Suite, x: Peer, y: Peer, psk: Bytes, other: Bytes, keyLen: nat)
    requires Separates(suite)
    requires SessionKeys(p, suite, x, psk, keyLen).Ok? && SessionKeys(q, suite, y, other, keyLen).Ok?
    ensures var k, l := SessionKeys(p, suite, x, psk, keyLen).value, SessionKeys(q, suite, y, other, keyLen).value;
      && k.0 != k.1 && k.0 != l.1 && k.1 != l.0
      && (k.0 == l.0 || k.1 == l.1 ==>
            && suite.dh(x.priv, x.remote.value) == suite.dh(y.priv, y.remote.value)
            && psk == other && Flatten(x.frames) == Flatten(y.frames))
    ensures var k, shared := SessionKeys(p, suite, x, psk, keyLen).value, suite.dh(x.priv, x.remote.value);
      && SendKey(Client, k) == RecvKey(Server, k) == suite.kdf(shared, psk, true, Flatten(x.frames), keyLen)
      && SendKey(Server, k) == RecvKey(Client, k) == suite.kdf(shared, psk, false, Flatten(x.frames), keyLen)
  {
  }

  /** Bytes that declare a frame declare the same frame with a tail. */
  lemma TailDeclaresSame(p: Protocol, i: nat, inner: Bytes, tail: Bytes)
    requires Good(p) && i < |p.specs| && DeclaredPrefix(p.specs[i], inner).Some?
    ensures DeclaredPrefix(p.specs[i], inner + tail) == DeclaredPrefix(p.specs[i], inner)
  {
    hide DeclaredPrefix;
    var spec := p.specs[i];
    var frame := DeclaredPrefix(spec, inner).value;
    assert WellFormed(spec);
    DeclaredIsPrefix(spec, inner);
    PrefixOfPrefix(spec, inner);
    PrefixWithTail(spec, frame, inner[|frame|..] + tail);
    assert frame + (inner[|frame|..] + tail) == inner + tail;
  }

  lemma DeclaredIsPrefix(spec: MessageSpec, inner: Bytes)
    ensures DeclaredPrefix(spec, inner).Some? ==> DeclaredPrefix(spec, inner).value <= inner
  {
  }

  lemma PrefixWithTail(spec: MessageSpec, frame: Bytes, tail: Bytes)
    requires DeclaredPrefix(spec, frame) == Some(frame) && 0 <= spec.lengthIndex < |spec.plain|
    ensures DeclaredPrefix(spec, frame + tail) == Some(frame)
  {
    var plain := TakePlain(spec.plain, frame).value;
    TakePlainExact(spec.plain, frame, plain);
    TakePlainExact(spec.plain, frame + tail, plain);
    assert (frame + tail)[..|frame|] == frame;
  }

  /** Frames that each declare their own length: two transcripts of the same layouts with the same bytes are the same
      frames. */
  lemma {:induction false} TranscriptIsFrames(specs: seq<MessageSpec>, a: seq<Bytes>, b: seq<Bytes>)
    requires |a| == |b| <= |specs| && Flatten(a) == Flatten(b)
    requires forall i :: 0 <= i < |specs| ==> 0 <= specs[i].lengthIndex < |specs[i].plain|
    requires forall i :: 0 <= i < |a| ==> DeclaredPrefix(specs[i], a[i]) == Some(a[i])
    requires forall i :: 0 <= i < |b| ==> DeclaredPrefix(specs[i], b[i]) == Some(b[i])
    ensures a == b
    decreases |a|
  {
    hide DeclaredPrefix;
    if a != [] {
      var t, u := Flatten(a[1..]), Flatten(b[1..]);
      PrefixWithTail(specs[0], a[0], t);
      PrefixWithTail(specs[0], b[0], u);
      assert a[0] + t == b[0] + u && (a[0] + t)[|a[0]|..] == t && (b[0] + u)[|b[0]|..] == u;
      TranscriptIsFrames(specs[1..], a[1..], b[1..]);
      assert a == [a[0]] + a[1..] && b == [b[0]] + b[1..];
    }
  }

  // ---- what the steps achieve ----

  /** Each side sends its ephemeral key in some message. */
  ghost predicate KeysExchanged(p: Protocol) {
    && (exists i :: 0 <= i < |p.specs| && p.specs[i].direction == Client && HasKey(p.specs[i]))
    && (exists i :: 0 <= i < |p.specs| && p.specs[i].direction == Server && HasKey(p.specs[i]))
  }

  lemma NoPlainKey(spec: MessageSpec, plain: seq<Bytes>)
    requires Validated(spec) && |plain| == |spec.plain| && CarriesConstants(spec, plain)
    ensures FirstOfKind(spec.plain, Key) == |spec.plain|
  {
    assert forall i :: 0 <= i < |plain| && i != spec.lengthIndex ==> CarriesConstant(spec.plain[i], plain[i]);
  }

  /** An endpoint captures exactly the key the peer sealed into the message. */
  lemma KeyCaptured(p: Protocol, suite: Suite, i: nat, priv: Bytes, m: Message, pad: Bytes, frame: Bytes)
    requires Good(p) && Agrees(suite) && i < |p.specs| && SealedMessage(p, suite, i, priv, m, pad, frame)
    ensures CaptureKey(p.specs[i], m) == Ok(if HasKey(p.specs[i]) then Some(suite.pub(priv)) else None)
  {
    var spec := p.specs[i];
    var k, j := FirstOfKind(spec.plain, Key), FirstOfKind(spec.encrypted, Key);
    assert k == |spec.plain| by {
      NoPlainKey(spec, m.plain);
    }
    if HasKey(spec) {
      var f := spec.encrypted[j];
      assert FieldWellFormed(f) && CarriesField(f, m.encrypted[j], |pad|, Some(suite.pub(priv)));
      assert m.encrypted[j] == KeyForm(f, suite.pub(priv));
      if f.encoding == X963 {
        assert m.encrypted[j][1..] == suite.pub(priv);
      }
    }
  }

  /** The codec round trip, for a handshake frame. */
  lemma SealedStepDecodes(p: Protocol, suite: Suite, i: nat, priv: Bytes, frame: Bytes)
    requires Good(p) && Agrees(suite) && i < |p.specs| && SealedStep(p, suite, i, priv, frame)
    ensures match Decoded(p.specs[i], AeadOf(p, i), NonceAt(p.specs[i].index, 0), frame)
      case None => false
      case Some(m) =>
        && |m.plain| == |p.specs[i].plain| && |m.encrypted| == |p.specs[i].encrypted|
        && CaptureKey(p.specs[i], m) == Ok(if HasKey(p.specs[i]) then Some(suite.pub(priv)) else None)
  {
    var m, pad :| SealedMessage(p, suite, i, priv, m, pad, frame);
    DecodeFrame(p.specs[i], AeadOf(p, i), NonceAt(p.specs[i].index, 0), m, pad, frame);
    KeyCaptured(p, suite, i, priv, m, pad, frame);
  }

  /** A receiver that has got step i for the first time decodes this payload from the frame. */
  ghost predicate DecodesTo(p: Protocol, i: nat, frame: Bytes, payload: Bytes)
    requires i < |p.specs|
  {
    match Decoded(p.specs[i], AeadOf(p, i), NonceAt(p.specs[i].index, 0), frame)
    case None => false
    case Some(m) => m.payload == payload
  }

  lemma PayloadDecodes(p: Protocol, suite: Suite, i: nat, priv: Bytes, payload: Bytes, frame: Bytes)
    requires Good(p) && i < |p.specs| && SealedWith(p, suite, i, priv, payload, frame)
    ensures SealedStep(p, suite, i, priv, frame) && DecodesTo(p, i, frame, payload)
  {
    var m, pad :| SealedMessage(p, suite, i, priv, m, pad, frame) && m.payload == payload;
    DecodeFrame(p.specs[i], AeadOf(p, i), NonceAt(p.specs[i].index, 0), m, pad, frame);
  }

  lemma PrefixHoldsHeader(spec: MessageSpec, inner: Bytes)
    ensures match DeclaredPrefix(spec, inner) case None => true case Some(frame) => PlainSize(spec.plain) <= |frame|
  {
  }

  lemma DeliverEffectRole(p: Protocol, x: Peer, inner: Bytes)
    ensures Recv(p, x, inner).0.role == x.role && Recv(p, x, inner).0.priv == x.priv
  {
    hide Decoded, DeclaredPrefix, CaptureKey, FirstProbe;
  }

  /** A first try of a datagram the way the multiplexer selects a protocol: cut to its declared frame, then received. */
  function Tried(p: Protocol, x: Peer, inner: Bytes): (Peer, bool) {
    if x.idx >= |p.specs| then (x, false) else
      match DeclaredPrefix(p.specs[x.idx], inner)
      case None => (x, false)
      case Some(frame) => Recv(p, x, frame)
  }

  /** A datagram that an endpoint has tried and refused at its first step is refused again, even when it decoded but
      carried a malformed key and has spent its sequence number. */
  lemma RefusedAgain(p: Protocol, x: Peer, inner: Bytes)
    requires Good(p) && NonceBound(p.c2s) && NonceBound(p.s2c) && x.window == Window(0, {})
    ensures !Tried(p, x, inner).1 ==> !Recv(p, Tried(p, x, inner).0, inner).1
  {
    hide Decoded, FrameOf, CaptureKey, NonceAt, WellFormed, DeclaredPrefix, FirstProbe, Accept;
    if x.idx < |p.specs| && p.specs[x.idx].direction != x.role && DeclaredPrefix(p.specs[x.idx], inner).Some? {
      var spec, aead := p.specs[x.idx], AeadOf(p, x.idx);
      var frame := DeclaredPrefix(spec, inner).value;
      PrefixOfPrefix(spec, inner);
      match Opened(spec, aead, x.window, frame)
      case None =>
      case Some((_, at, m)) =>
        FirstProbeExact(spec, aead, frame, 0, STREAM_WINDOW);
        SpentStaysShut(spec, aead, inner, frame, at);
    }
  }

  lemma PrefixOfPrefix(spec: MessageSpec, bytes: Bytes)
    ensures match DeclaredPrefix(spec, bytes)
      case None => true
      case Some(frame) => DeclaredPrefix(spec, frame) == Some(frame)
  {
    match DeclaredPrefix(spec, bytes)
    case None =>
    case Some(frame) =>
      var plain := TakePlain(spec.plain, bytes).value;
      TakePlainExact(spec.plain, bytes, plain);
      TakePlainExact(spec.plain, frame, plain);
      assert frame[..|frame|] == frame;
  }

  /** After a frame has opened and spent its number, no number of the new window opens it. */
  lemma SpentStaysShut(spec: MessageSpec, aead: Aead, inner: Bytes, frame: Bytes, at: nat)
    requires Correct(aead) && NonceBound(aead) && spec.index < 0x1_0000_0000 && at < STREAM_WINDOW
    requires DeclaredPrefix(spec, inner) == Some(frame) && Decoded(spec, aead, NonceAt(spec.index, at), frame).Some?
    ensures Opened(spec, aead, Accept(Window(0, {}), at), inner).None?
  {
    hide Decoded, NonceAt, DeclaredPrefix;
    var w := Accept(Window(0, {}), at);
    AcceptExact(Window(0, {}), at, STREAM_WINDOW);
    assert at == 0 || w.base == 0;
    hide Accept;
    FirstProbeExact(spec, aead, frame, w.base, STREAM_WINDOW);
    match FirstProbe(spec, aead, frame, w.base, STREAM_WINDOW)
    case None =>
    case Some(t) => OpensOnce(spec, aead, frame, at, t);
  }

  /** A frame opens under one sequence number only. */
  lemma OpensOnce(spec: MessageSpec, aead: Aead, frame: Bytes, s: nat, t: nat)
    requires NonceBound(aead) && spec.index < 0x1_0000_0000
    requires s < 0x1_0000_0000_0000_0000 && t < 0x1_0000_0000_0000_0000
    requires Decoded(spec, aead, NonceAt(spec.index, s), frame).Some?
    requires Decoded(spec, aead, NonceAt(spec.index, t), frame).Some?
    ensures s == t
  {
    NonceInjective(spec.index, s, spec.index, t);
    hide NonceAt;
    var off := PlainSize(spec.plain);
    assert aead.open(NonceAt(spec.index, s), frame[..off], frame[off..]).Some?;
    assert aead.open(NonceAt(spec.index, t), frame[..off], frame[off..]).Some?;
  }

  lemma GenuineFrameOpens(p: Protocol, suite: Suite, i: nat, priv: Bytes, frame: Bytes, tail: Bytes)
    requires Good(p) && Agrees(suite) && i < |p.specs| && SealedStep(p, suite, i, priv, frame)
    requires NonceBound(AeadOf(p, i))
    ensures DeclaredPrefix(p.specs[i], frame + tail) == Some(frame)
    ensures forall t: nat :: Decoded(p.specs[i], AeadOf(p, i), NonceAt(p.specs[i].index, t), frame).Some? ==>
      NonceAt(p.specs[i].index, t) == NonceAt(p.specs[i].index, 0)
  {
    hide Decoded, FrameOf, DeclaredPrefix;
    var spec, aead := p.specs[i], AeadOf(p, i);
    var m, pad :| SealedMessage(p, suite, i, priv, m, pad, frame);
    DeclaredPrefixOfFrame(spec, aead, NonceAt(spec.index, 0), m, pad, frame, tail);
    forall t: nat | Decoded(spec, aead, NonceAt(spec.index, t), frame).Some?
      ensures NonceAt(spec.index, t) == NonceAt(spec.index, 0)
    {
      OneNonce(spec, aead, NonceAt(spec.index, 0), NonceAt(spec.index, t), m, pad, frame);
    }
  }

  /** Bytes that declare a frame which some holder of the bootstrap keys has sealed for the awaited step are taken,
      whoever sealed it and in whichever handshake: it enters the transcript, and its key becomes the peer key. */
  lemma SealedFrameTaken(p: Protocol, suite: Suite, x: Peer, priv: Bytes, frame: Bytes, inner: Bytes)
    requires Good(p) && Agrees(suite) && x.window == Window(0, {})
    requires x.idx < |p.specs| && p.specs[x.idx].direction != x.role && SealedStep(p, suite, x.idx, priv, frame)
    requires DeclaredPrefix(p.specs[x.idx], inner) == Some(frame)
    ensures Recv(p, x, inner) ==
      (Encoded(x, frame).(remote := if HasKey(p.specs[x.idx]) then Some(suite.pub(priv)) else x.remote), true)
  {
    hide WellFormed, FrameOf, Decoded, DeclaredPrefix, CaptureKey, SealedStep, HasKey;
    FirstProbeExact(p.specs[x.idx], AeadOf(p, x.idx), frame, 0, STREAM_WINDOW);
    SealedStepDecodes(p, suite, x.idx, priv, frame);
  }

  /** The declared prefix of a sealed frame with any tail is the frame. */
  lemma SealedPrefix(p: Protocol, suite: Suite, i: nat, priv: Bytes, frame: Bytes, tail: Bytes)
    requires Good(p) && i < |p.specs| && SealedStep(p, suite, i, priv, frame)
    ensures DeclaredPrefix(p.specs[i], frame + tail) == Some(frame)
  {
    hide FrameOf, DeclaredPrefix;
    var m, pad :| SealedMessage(p, suite, i, priv, m, pad, frame);
    DeclaredPrefixOfFrame(p.specs[i], AeadOf(p, i), NonceAt(p.specs[i].index, 0), m, pad, frame, tail);
  }

  lemma OneNonce(spec: MessageSpec, aead: Aead, n: Bytes, o: Bytes, m: Message, pad: Bytes, frame: Bytes)
    requires Correct(aead) && NonceBound(aead) && FrameOf(spec, aead, n, m, pad, frame)
    requires |n| == |o| == 12 && Decoded(spec, aead, o, frame).Some?
    ensures n == o
  {
    DecodeFrame(spec, aead, n, m, pad, frame);
    var off := PlainSize(spec.plain);
    assert aead.open(n, frame[..off], frame[off..]).Some? && aead.open(o, frame[..off], frame[off..]).Some?;
  }
}
