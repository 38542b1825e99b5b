/** The handshake object of one endpoint: its codec table, transcript and captured key, advanced one frame at a time. */
module Handshakes {
  import opened Bytes
  import opened Genome
  import opened AeadModel
  import opened FrameFormat
  import opened ReplayWindow
  import opened Words
  import opened Sequence
  import opened EncodingRules
  import opened EncodingDraws
  import opened Framing
  import opened MessageCodecs
  import opened HandshakeModel

  /** One unused codec for every handshake layout. */
  ghost predicate FreshCodecs(p: Protocol, codecs: seq<MessageCodec>)
    reads codecs, set c | c in codecs :: c.seen, set c | c in codecs :: c.packetSeen
  {
    && |codecs| == |p.specs|
    && (forall i :: 0 <= i < |codecs| ==>
          && codecs[i].Valid() && codecs[i].spec == p.specs[i] && codecs[i].aead == AeadOf(p, i)
          && codecs[i].seqNo == 0 && codecs[i].seen.Abstract() == Window(0, {}) && !codecs[i].packetMode)
    && (forall i, j :: 0 <= i < j < |codecs| ==> codecs[i] != codecs[j] && codecs[i].seen != codecs[j].seen)
  }

  /** NewHandshakeCodecs */
  method NewHandshakeCodecs(p: Protocol) returns (codecs: seq<MessageCodec>)
    requires forall i :: 0 <= i < |p.specs| ==> Validated(p.specs[i])
    ensures FreshCodecs(p, codecs)
    ensures forall c :: c in codecs ==> fresh(c) && fresh(c.seen) && fresh(c.packetSeen)
  {
    hide Validated, Marked;
    codecs := [];
    for i := 0 to |p.specs|
      invariant |codecs| == i
      invariant forall k :: 0 <= k < i ==>
        && codecs[k].Valid() && codecs[k].spec == p.specs[k] && codecs[k].aead == AeadOf(p, k)
        && codecs[k].seqNo == 0 && codecs[k].seen.Abstract() == Window(0, {}) && !codecs[k].packetMode
        && fresh(codecs[k]) && fresh(codecs[k].seen) && fresh(codecs[k].packetSeen)
      invariant forall j, k :: 0 <= j < k < i ==> codecs[j] != codecs[k] && codecs[j].seen != codecs[k].seen
    {
      var c := new MessageCodec(p.specs[i], AeadOf(p, i), false);
      codecs := codecs + [c];
    }
  }

  /** Trim a datagram to its declared frame and decode it. */
  method OpenFrame(codec: MessageCodec, inner: Bytes) returns (r: Option<(Bytes, Message)>, ghost at: nat)
    requires codec.Valid() && codec.seen.base == codec.seqNo
    modifies codec`seqNo, codec.seen
    ensures codec.Valid() && codec.seen.base == codec.seqNo
    ensures match Opened(codec.spec, codec.aead, old(codec.seen.Abstract()), inner)
      case None => r.None? && codec.seen.Abstract() == old(codec.seen.Abstract())
      case Some((frame, n, m)) =>
        && at == n && r == Some((frame, m)) && codec.seen.Abstract() == Accept(old(codec.seen.Abstract()), n)
        && |m.plain| == |codec.spec.plain| && |m.encrypted| == |codec.spec.encrypted|
  {
    hide Decoded, FrameOf, Validated, NonceAt, DeclaredPrefix, Accept, WellFormed, Marked;
    at := 0;
    var trimmed := DeclaredFrame(codec.spec, inner);
    if trimmed.Err? {
      return None, at;
    }
    FirstProbeExact(codec.spec, codec.aead, trimmed.value, codec.seqNo, STREAM_WINDOW);
    var msg;
    msg, at := codec.Decode(trimmed.value);
    if msg.Err? {
      return None, at;
    }
    DecodedShape(codec.spec, codec.aead, NonceAt(codec.spec.index, at), trimmed.value);
    return Some((trimmed.value, msg.value)), at;
  }

  /** How much of some early data a step carries: all of it where the layout has a payload. */
  function CarriedData(spec: MessageSpec, earlyData: nat): nat {
    if spec.hasPayload then earlyData else 0
  }

  class Handshake {
    const role: Direction
    const protocol: Protocol
    const suite: Suite
    const priv: Bytes
    const codecs: seq<MessageCodec>
    var earlyData: Bytes
    var remote: Option<Bytes>
    var transcript: seq<Bytes>  // the frames hashed so far
    var idx: nat

    /** Codec i has not been used. */
    ghost predicate Unused(i: nat)
      requires i < |codecs|
      reads codecs[i], codecs[i].seen
    {
      codecs[i].seqNo == 0 && codecs[i].seen.Abstract() == Window(0, {})
    }

    /** The codec table is in order and nothing past the current step has been used. */
    ghost predicate Table()
      reads this, codecs, set c | c in codecs :: c.seen, set c | c in codecs :: c.packetSeen
    {
      && |codecs| == |protocol.specs| && idx == |transcript| <= |codecs|
      && (forall i :: 0 <= i < |codecs| ==>
            && codecs[i].Valid() && codecs[i].spec == protocol.specs[i] && codecs[i].aead == AeadOf(protocol, i))
      && (forall i, j :: 0 <= i < j < |codecs| ==> codecs[i] != codecs[j] && codecs[i].seen != codecs[j].seen)
      && (forall i :: idx < i < |codecs| ==> Unused(i))
    }

    ghost predicate Valid()
      reads this, codecs, set c | c in codecs :: c.seen, set c | c in codecs :: c.packetSeen
    {
      && Table()
      && (idx < |codecs| ==>
            if protocol.specs[idx].direction == role then Unused(idx)
            else codecs[idx].seen.base == codecs[idx].seqNo)
    }

    ghost function State(): Peer
      reads this, codecs, set c | c in codecs :: c.seen
    {
      Peer(role, priv, idx, transcript, remote, if idx < |codecs| then codecs[idx].seen.Abstract() else Window(0, {}))
    }

    /** NewHandshake: an endpoint with its own fresh codec table. */
    constructor (role: Direction, protocol: Protocol, suite: Suite, priv: Bytes, codecs: seq<MessageCodec>)
      requires FreshCodecs(protocol, codecs)
      ensures Valid() && State() == NewPeer(role, priv)
      ensures this.role == role && this.protocol == protocol && this.suite == suite && this.codecs == codecs
    {
      hide Validated, Marked, AeadOf;
      this.role, this.protocol, this.suite, this.priv, this.codecs := role, protocol, suite, priv, codecs;
      earlyData, remote, transcript, idx := [], None, [], 0;
    }

    /** SetEarlyData: bytes to be carried by the frames of this endpoint that have room for a payload. */
    method SetEarlyData(b: Bytes)
      requires Valid()
      modifies this`earlyData
      ensures Valid() && earlyData == b && State() == old(State())
    {
      earlyData := b;
    }

    method SealCurrent(codec: MessageCodec, rnd: Reader) returns (r: Result<Bytes>, segments: seq<Bytes>)
      requires Valid() && idx < |codecs| && codec == codecs[idx]
      modifies codec`seqNo, rnd
      ensures Table() && (r.Err? ==> Valid() && State() == old(State()))
      ensures r.Ok? && Good(protocol) && old(codec.seqNo) == 0 ==>
        && SealedWith(protocol, suite, idx, priv, if protocol.specs[idx].hasPayload then earlyData else [], r.value)
        && SealedStep(protocol, suite, idx, priv, r.value) && Flatten(segments) == r.value
      ensures r.Err? && r.error != ShortRead && Good(protocol) && Agrees(suite) ==>
        !AlwaysEncodes(protocol.specs[idx], CarriedData(protocol.specs[idx], |earlyData|))
    {
      hide FrameOf, WellFormed, Validated, Carries, CarriesConstants, PaddingDraw, HasKey, NonceAt, FrameFrom;
      hide AllWritten, DeclaredTotal, PlainFits, Blocked, AlwaysEncodes;
      var spec := protocol.specs[idx];
      var key: Option<Bytes> := if HasKey(spec) then Some(suite.pub(priv)) else None;
      var payload: Bytes := if spec.hasPayload then earlyData else [];
      ghost var m, pad, parts, drawn;
      r, segments, m, pad, parts, drawn := codec.Encode(payload, key, rnd);
      if r.Ok? && Good(protocol) && old(codec.seqNo) == 0 {
        assert SealedMessage(protocol, suite, idx, priv, m, pad, r.value) && m.payload == payload;
      }
    }

    /** EncodeStep: seal the next outgoing frame, with the ephemeral key where the layout has a place for it and early
        data where it allows a payload. */
    method EncodeStep(rnd: Reader) returns (r: Result<Bytes>, segments: seq<Bytes>)
      requires Valid()
      modifies this`idx, this`transcript, this`remote, codecs, rnd
      ensures Valid()
      ensures r.Ok? ==>
        && old(idx) < |protocol.specs| && protocol.specs[old(idx)].direction == role
        && State() == Encoded(old(State()), r.value)
        && (Good(protocol) ==> SealedStep(protocol, suite, old(idx), priv, r.value) && Flatten(segments) == r.value)
      ensures r.Ok? && Good(protocol) ==>
        var spec := protocol.specs[old(idx)];
        var payload := if spec.hasPayload then earlyData else [];
        && SealedWith(protocol, suite, old(idx), priv, payload, r.value)
        && SealedUnder(spec, if role == Client then protocol.c2s else protocol.s2c, payload, r.value)
      ensures r.Err? ==> State() == old(State())
      ensures r.Err? && r.error != ShortRead && Good(protocol) && Agrees(suite) ==>
        || old(idx) >= |protocol.specs| || protocol.specs[old(idx)].direction != role
        || !AlwaysEncodes(protocol.specs[old(idx)], CarriedData(protocol.specs[old(idx)], |earlyData|))
    {
      hide SealedStep, SealedWith, SealedUnder, AlwaysEncodes, Good, Agrees, Validated, AeadOf, WellFormed, Marked;
      segments := [];
      if idx >= |codecs| {
        return Err(Rejected), segments;
      }
      if protocol.specs[idx].direction != role {
        return Err(Rejected), segments;
      }
      r, segments := SealCurrent(codecs[idx], rnd);
      if r.Err? {
        return;
      }
      if Good(protocol) {
        SealedUnderRole(r.value, idx);
      }
      Advance(r.value, remote);
    }

    lemma SealedUnderRole(frame: Bytes, i: nat)
      requires Good(protocol) && i < |protocol.specs| && protocol.specs[i].direction == role
      requires SealedWith(protocol, suite, i, priv, if protocol.specs[i].hasPayload then earlyData else [], frame)
      ensures SealedUnder(protocol.specs[i], if role == Client then protocol.c2s else protocol.s2c,
                          if protocol.specs[i].hasPayload then earlyData else [], frame)
    {
      UnderOwnKey(protocol, suite, i, priv, if protocol.specs[i].hasPayload then earlyData else [], frame);
    }

    /** h.transcript.Write(frame); h.idx++ */
    method Advance(frame: Bytes, key: Option<Bytes>)
      requires Table() && idx < |codecs|
      modifies this`idx, this`transcript, this`remote
      ensures Valid()
      ensures State() == Encoded(old(State()), frame).(remote := key)
    {
      hide Validated, Marked, AeadOf;
      remote := key;
      transcript := transcript + [frame];
      idx := idx + 1;
      assert idx < |codecs| ==> Unused(idx) && codecs[idx].seen.Abstract().base == codecs[idx].seen.base;
    }

    /** RecvStep: exactly the receive step of the model, on the real codec. */
    method RecvStep(inner: Bytes) returns (ok: bool)
      requires Valid()
      modifies this`idx, this`transcript, this`remote, codecs, set c | c in codecs :: c.seen
      ensures Valid()
      ensures (State(), ok) == Recv(protocol, old(State()), inner)
    {
      hide Validated, WellFormed, Marked, CaptureKey, Accept, Opened, AeadOf;
      if idx >= |codecs| {
        return false;
      }
      var spec := protocol.specs[idx];
      if spec.direction == role {
        return false;
      }
      var msg;
      ghost var at;
      msg, at := OpenFrame(codecs[idx], inner);
      assert Table();
      if msg.None? {
        return false;
      }
      var key := CaptureKey(spec, msg.value.1);
      if key.Err? {
        return false;
      }
      Advance(msg.value.0, if key.value.Some? then key.value else remote);
      ok := true;
    }
  }
}
