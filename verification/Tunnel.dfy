/** An established tunnel: two packet codecs and the loss-recovery state, over real frames. PacketTunnel and
    ServerTunnel share these methods line for line; `isClient` marks the two places where they differ. */
module Tunnel {
  import opened Bytes
  import opened Genome
  import opened AeadModel
  import opened FrameFormat
  import opened ReplayWindow
  import opened Sequence
  import opened EncodingRules
  import opened MessageCodecs
  import LossRecovery

  const CONTROL_ASSIGN_IP: byte := 1
  const CONTROL_ACK: byte := 2
  const CONTROL_SKIP: byte := 3
  const CONTROL_KEEPALIVE: byte := 4
  const CONTROL_GENERATION: byte := 5

  // ---- the ACK/SKIP payload codec ----

  function EncodeAckPayload(base: nat): Bytes {
    [CONTROL_ACK] + BigEndian(base, 8)
  }

  function EncodeSkipPayload(target: nat): Bytes {
    [CONTROL_SKIP] + BigEndian(target, 8)
  }

  /** decodeAckPayload */
  function DecodeAckPayload(p: Bytes): Result<(byte, nat)> {
    if |p| != 9 || (p[0] != CONTROL_ACK && p[0] != CONTROL_SKIP) then Err(Malformed)
    else Ok((p[0], BigValue(p[1..])))
  }

  /** What a payload means to loss recovery. An address assignment is routed away before it is counted, and only
      clients know the generation push; servers count both as data. */
  function BodyOf(p: Bytes, isClient: bool): LossRecovery.Body {
    if p == [] then LossRecovery.Data
    else if p[0] == CONTROL_ACK || p[0] == CONTROL_SKIP then
      match DecodeAckPayload(p)
      case Err(_) => LossRecovery.Quiet
      case Ok((kind, v)) => if kind == CONTROL_ACK then LossRecovery.Ack(v) else LossRecovery.Skip(v)
    else if p[0] == CONTROL_KEEPALIVE || (isClient && p[0] in {CONTROL_GENERATION, CONTROL_ASSIGN_IP})
    then LossRecovery.Quiet
    else LossRecovery.Data
  }

  /** The payload codec is a bijection between 64-bit positions and nine-byte control payloads of each kind. */
  lemma AckPayloadExact(p: Bytes, v: nat, isClient: bool)
    requires v < 0x1_0000_0000_0000_0000
    ensures BodyOf(p, isClient) == LossRecovery.Ack(v) <==> p == EncodeAckPayload(v)
    ensures BodyOf(p, isClient) == LossRecovery.Skip(v) <==> p == EncodeSkipPayload(v)
  {
    hide BigEndian, BigValue, Pow256;
    Pow256Values();
    IntegerRoundTrip(v, 8);
    assert EncodeAckPayload(v)[1..] == EncodeSkipPayload(v)[1..] == BigEndian(v, 8);
    if |p| == 9 {
      BigUnique(p[1..]);
      assert p == [p[0]] + p[1..];
    }
  }

  lemma AssignmentIsQuiet(p: Bytes)
    requires p != [] && p[0] == CONTROL_ASSIGN_IP
    ensures BodyOf(p, true) == LossRecovery.Quiet
  {
  }

  /** Receiving payload p under number at took one side from e to e': exactly Received, with the ACK it makes due
      sealed, or not counted as sent when it could not be encoded. */
  ghost predicate Handled(e: LossRecovery.Endpoint, e': LossRecovery.Endpoint, at: nat, p: Bytes, isClient: bool,
                          limited: bool, ack: Result<Bytes>) {
    var (d, due) := LossRecovery.Received(e, LossRecovery.Frame(at, BodyOf(p, isClient)), limited);
    && e' == (if due.Some? && ack.Err? then d.(sent := e.sent) else d)
    && (ack.Ok? ==> due == Some(LossRecovery.Ack(e'.window.base)))
  }

  /** Whether receiving payload p makes an ACK due. */
  predicate AckDue(e: LossRecovery.Endpoint, at: nat, p: Bytes, isClient: bool, limited: bool) {
    LossRecovery.Received(e, LossRecovery.Frame(at, BodyOf(p, isClient)), limited).1.Some?
  }

  class PacketTunnel {
    const isClient: bool
    const send: MessageCodec
    const recv: MessageCodec
    var peerBase: nat
    var ackDue: nat

    ghost predicate Valid()
      reads this, send, send.seen, send.packetSeen, recv, recv.seen, recv.packetSeen
    {
      && send != recv && send.packetSeen != recv.packetSeen && send.seen != recv.seen
      && send.Valid() && recv.Valid() && send.packetMode && recv.packetMode
    }

    ghost function State(): LossRecovery.Endpoint
      reads this, send, recv, recv.packetSeen
    {
      LossRecovery.Endpoint(send.packetSend, peerBase, ackDue, recv.PacketState())
    }

    /** NewPacketSession: the two directions of one layout, keyed by role. */
    constructor (spec: MessageSpec, isClient: bool, c2s: Aead, s2c: Aead)
      requires Validated(spec)
      ensures Valid() && State() == LossRecovery.FRESH && this.isClient == isClient
      ensures fresh(send) && fresh(recv) && fresh(send.seen) && fresh(recv.seen)
      ensures fresh(send.packetSeen) && fresh(recv.packetSeen)
      ensures send.spec == recv.spec == spec
      ensures send.aead == (if isClient then c2s else s2c) && recv.aead == (if isClient then s2c else c2s)
    {
      this.isClient := isClient;
      send := new MessageCodec(spec, if isClient then c2s else s2c, true);
      recv := new MessageCodec(spec, if isClient then s2c else c2s, true);
      peerBase, ackDue := 0, 0;
    }

    /** frame carries payload in this side's direction under number s. */
    ghost predicate Carried(s: nat, payload: Bytes, frame: Bytes)
      reads this, send
    {
      Correct(send.aead) && WellFormed(send.spec) ==>
        exists m: Message, pad: Bytes :: m.payload == payload
          && FrameOf(send.spec, send.aead, NonceAt(send.spec.index, s), m, pad, frame)
    }

    /** A layout that always encodes a payload of n bytes fails only for want of random bytes. */
    ghost predicate FailsOnlyDry(n: nat, error: Error)
      reads this, send
    {
      error == ShortRead
      || !(Correct(send.aead) && AlwaysEncodes(send.spec, n) && LadderFits(send.spec, send.shapeBuckets))
    }

    /** Encode one payload, the first half of sendPayload and all of sendControlRaw. */
    method Seal(payload: Bytes, rnd: Reader) returns (r: Result<Bytes>)
      requires Valid()
      modifies send`packetSend, rnd
      ensures Valid()
      ensures State() == if r.Ok? then LossRecovery.Sealed(old(State())) else old(State())
      ensures r.Ok? ==> Carried(old(State()).sent, payload, r.value)
      ensures r.Err? ==> FailsOnlyDry(|payload|, r.error)
    {
      ghost var m, pad, natural, drawn;
      r, m, pad, natural, drawn := send.EncodePacket(payload, None, rnd);
    }

    method ObserveAck(base: nat)
      modifies this`peerBase
      ensures State() == LossRecovery.ObserveAck(old(State()), base)
    {
      if base > peerBase {
        peerBase := base;
      }
    }

    /** maybeSendLossControl. `written` says whether the datagram could be written. */
    method MaybeSendLossControl(rnd: Reader, written: bool) returns (frame: Option<Bytes>, ghost failure: Option<Error>)
      requires Valid()
      modifies this`peerBase, send`packetSend, rnd
      ensures Valid()
      ensures LossRecovery.UnackedSpan(old(State())) < LossRecovery.SKIP_SPAN ==> frame.None?
      ensures frame.None? && LossRecovery.UnackedSpan(old(State())) >= LossRecovery.SKIP_SPAN ==>
        failure.Some? && FailsOnlyDry(9, failure.value)
      ensures frame.None? ==> State() == old(State())
      ensures frame.Some? ==>
        && Carried(old(State()).sent, EncodeSkipPayload(old(State()).sent), frame.value)
        && State() == var e := LossRecovery.Sealed(old(State()));
             if written then LossRecovery.ObserveAck(e, old(State()).sent) else e
    {
      var sent := send.packetSend;
      var span := if sent < peerBase then 0 else sent - peerBase;
      failure := None;
      if span < LossRecovery.SKIP_SPAN {
        return None, failure;
      }
      var r := Seal(EncodeSkipPayload(sent), rnd);
      if r.Err? {
        return None, Some(r.error);
      }
      if written {
        ObserveAck(sent);
      }
      return Some(r.value), failure;
    }

    /** noteDecoded */
    method NoteDecoded() returns (due: bool)
      modifies this`ackDue
      ensures due <==> old(ackDue) + 1 >= LossRecovery.ACK_EVERY
      ensures ackDue == if due then 0 else old(ackDue) + 1
    {
      ackDue := ackDue + 1;
      if ackDue < LossRecovery.ACK_EVERY {
        return false;
      }
      ackDue := 0;
      return true;
    }

    /** handleLossControl: apply a control payload; false when the payload is data. */
    method HandleLossControl(p: Bytes) returns (control: bool)
      requires Valid()
      modifies this`peerBase, recv`packetBase, recv.packetSeen
      ensures Valid()
      ensures var e := old(State());
        State() == match BodyOf(p, isClient)
          case Ack(b) => LossRecovery.ObserveAck(e, b)
          case Skip(t) => e.(window := Advance(e.window, t, PACKET_WINDOW))
          case _ => e
      ensures control <==>
        BodyOf(p, isClient) != LossRecovery.Data && !(isClient && |p| > 0 && p[0] == CONTROL_ASSIGN_IP)
    {
      if |p| == 0 {
        return false;
      }
      if p[0] == CONTROL_ACK || p[0] == CONTROL_SKIP {
        if |p| != 9 {
          return true;
        }
        var d := DecodeAckPayload(p);
        if d.Err? {
          return true;
        }
        if d.value.0 == CONTROL_ACK {
          ObserveAck(d.value.1);
        } else {
          var _ := recv.AdvanceBaseTo(d.value.1);
        }
        return true;
      }
      return p[0] == CONTROL_KEEPALIVE || (isClient && p[0] == CONTROL_GENERATION);
    }

    /** What happens to a decoded payload: loss control, an address assignment, or data that may make an ACK due. */
    method Handle(p: Bytes, rnd: Reader) returns (ack: Result<Bytes>)
      requires Valid()
      modifies this`peerBase, this`ackDue, send`packetSend, recv`packetBase, recv.packetSeen, rnd
      ensures Valid()
      ensures var (d, due) := LossRecovery.Effect(old(State()), BodyOf(p, isClient));
        && State() == (if due.Some? && ack.Err? then d.(sent := old(State()).sent) else d)
        && (ack.Ok? ==> due == Some(LossRecovery.Ack(State().window.base)))
        && (due.Some? && ack.Err? ==> FailsOnlyDry(9, ack.error))
      ensures ack.Ok? ==> Carried(old(send.packetSend), EncodeAckPayload(recv.packetBase), ack.value)
    {
      hide Accept, Advance, BodyOf, Validated, Carried, FailsOnlyDry;
      ack := Err(Rejected);
      var control := HandleLossControl(p);
      if control {
        return;
      }
      if isClient && |p| > 0 && p[0] == CONTROL_ASSIGN_IP {
        AssignmentIsQuiet(p);
        return;
      }
      var due := NoteDecoded();
      if due {
        ack := Seal(EncodeAckPayload(recv.packetBase), rnd);
      }
    }

    /** One datagram: decode it, apply it, and seal the ACK it may make due. A frame that does not decode changes
        nothing; one that does has exactly the effect of Received at the number it was accepted under; and a frame
        the peer sealed under an open number is accepted under that very number with its own payload. */
    method Receive(frame: Bytes, limited: bool, rnd: Reader)
      returns (r: Result<Bytes>, ack: Result<Bytes>, ghost at: nat)
      requires Valid()
      modifies this`peerBase, this`ackDue, send`packetSend, recv`packetBase, recv.packetSeen, rnd
      ensures Valid()
      ensures r.Err? ==> State() == old(State())
      ensures r.Ok? ==> recv.Opens(old(recv.PacketState()), frame, at)
      ensures r.Ok? ==> Handled(old(State()), State(), at, r.value, isClient, limited, ack)
      ensures ack.Ok? ==> Carried(old(send.packetSend), EncodeAckPayload(recv.packetBase), ack.value)
      ensures r.Ok? && AckDue(old(State()), at, r.value, isClient, limited) && ack.Err? ==> FailsOnlyDry(9, ack.error)
      ensures forall s: nat, m: Message, pad: Bytes ::
        LossRecovery.Open(old(recv.PacketState()), s) && recv.Authentic(s, m, pad, frame) ==>
          r == Ok(m.payload) && at == s
    {
      hide Decoded, FrameOf, NonceAt, Accept, Advance, BodyOf, Validated, Carried, FailsOnlyDry;
      ack := Err(Rejected);
      ghost var w := recv.PacketState();
      var msg;
      msg, at := recv.DecodePacket(frame);
      forall s: nat, m: Message, pad: Bytes | LossRecovery.Open(w, s) && recv.Authentic(s, m, pad, frame)
        ensures msg == Ok(m) && at == s
      {
        recv.AuthenticOpens(w, s, m, pad, frame, s);
        recv.AuthenticOpens(w, s, m, pad, frame, at);
      }
      if msg.Err? {
        return Err(msg.error), ack, at;
      }
      r := Ok(msg.value.payload);
      if !limited {
        hide LossRecovery.Effect;
        ack := Handle(r.value, rnd);
      }
    }
  }
}
