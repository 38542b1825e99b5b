/** Two real tunnels and the datagrams between them: whatever they do is a run of the two-party protocol. */
module TunnelPairs {
  import opened Bytes
  import opened Genome
  import opened AeadModel
  import opened FrameFormat
  import opened ReplayWindow
  import opened Words
  import opened Sequence
  import opened MessageCodecs
  import opened LossRecovery
  import opened Tunnel

  /** A datagram on the wire: who sealed it, its bytes, its sequence number and its payload. */
  datatype Datagram = Datagram(byClient: bool, bytes: Bytes, seqNo: nat, payload: Bytes)

  /** The protocol frame a datagram is. */
  function Meaning(d: Datagram): Frame {
    Frame(d.seqNo, BodyOf(d.payload, !d.byClient))
  }

  /** bytes is what a codec seals for payload under number s. */
  ghost predicate Genuine(spec: MessageSpec, aead: Aead, bytes: Bytes, s: nat, payload: Bytes) {
    exists m: Message, pad: Bytes :: m.payload == payload && FrameOf(spec, aead, NonceAt(spec.index, s), m, pad, bytes)
  }

  function HalfOf(s: System, client: bool): Half {
    if client then s.client else s.server
  }

  class TunnelPair {
    const client: PacketTunnel
    const server: PacketTunnel
    ghost var moves: seq<Move>
    ghost var wire: set<Datagram>   // everything ever sealed, with the frame it is

    function Side(isClient: bool): PacketTunnel {
      if isClient then client else server
    }

    /** The two tunnels share no state, and each receives what the other sends. */
    ghost predicate Wired() {
      && client.isClient && !server.isClient && client != server
      && client.send != server.send && client.send != server.recv && client.recv != server.send
      && client.recv != server.recv
      && client.recv.packetSeen != server.recv.packetSeen && client.recv.packetSeen != server.send.packetSeen
      && client.send.packetSeen != server.recv.packetSeen && client.send.packetSeen != server.send.packetSeen
      && Matched(client.send, server.recv) && Matched(server.send, client.recv)
    }

    ghost predicate Matched(send: MessageCodec, recv: MessageCodec) {
      && send.spec == recv.spec && send.aead == recv.aead && WellFormed(send.spec) && send.spec.index < 0x1_0000_0000
      && Correct(send.aead) && NonceBound(send.aead)
    }

    ghost function Objects(): set<object> {
      {client, client.send, client.recv, client.send.packetSeen, client.recv.packetSeen,
       client.send.seen, client.recv.seen,
       server, server.send, server.recv, server.send.packetSeen, server.recv.packetSeen,
       server.send.seen, server.recv.seen}
    }

    /** The wire holds frames of the run only, each in its own bytes. */
    ghost predicate OnWire(s: System, wire: set<Datagram>) {
      forall d :: d in wire ==> Meaning(d) in HalfOf(s, d.byClient).log && Sealed(d)
    }

    /** Either side has sealed one datagram under each number at most. */
    ghost predicate OneEach(wire: set<Datagram>) {
      forall d, e :: d in wire && e in wire && d.byClient == e.byClient && d.seqNo == e.seqNo ==> d == e
    }

    ghost predicate Sealed(d: Datagram) {
      var send := Side(d.byClient).send;
      Genuine(send.spec, send.aead, d.bytes, d.seqNo, d.payload)
    }

    ghost predicate AreAt(s: System)
      reads client, client.send, client.recv, client.recv.packetSeen, server, server.send, server.recv,
        server.recv.packetSeen
    {
      client.State() == s.client.e && server.State() == s.server.e
    }

    /** The objects are in the states that the run so far leads to. */
    ghost predicate Valid()
      reads this, Objects()
    {
      && Wired() && client.Valid() && server.Valid()
      && Run(START, moves) && AreAt(After(START, moves)) && OnWire(After(START, moves), wire) && OneEach(wire)
    }

    constructor (spec: MessageSpec, c2s: Aead, s2c: Aead)
      requires WellFormed(spec) && spec.index < 0x1_0000_0000
      requires Correct(c2s) && NonceBound(c2s) && Correct(s2c) && NonceBound(s2c)
      ensures Valid() && moves == [] && wire == {}
    {
      hide Correct, NonceBound, Marked, MessageCodec.Valid;
      client := new PacketTunnel(spec, true, c2s, s2c);
      server := new PacketTunnel(spec, false, c2s, s2c);
      moves, wire := [], {};
    }

    /** Datagrams with numbers at or past the frames sent differ from all on the wire. */
    lemma NewNumbers(s: System, wire: set<Datagram>, sealed: set<Datagram>)
      requires Inv(s) && OnWire(s, wire) && OneEach(wire) && OneEach(sealed)
      requires forall d :: d in sealed ==> HalfOf(s, d.byClient).e.sent <= d.seqNo
      ensures OneEach(wire + sealed)
    {
      hide Sealed;
      assert forall d :: d in wire ==> d.seqNo < HalfOf(s, d.byClient).e.sent by {
        forall d | d in wire ensures d.seqNo < HalfOf(s, d.byClient).e.sent {
          assert Meaning(d) in HalfOf(s, d.byClient).log;
        }
      }
    }

    /** A few more moves of the run, which the objects have made already, and what these have put on the wire. */
    ghost method Record(more: seq<Move>, sealed: set<Datagram>)
      requires Wired() && client.Valid() && server.Valid() && Run(START, moves) && OnWire(After(START, moves), wire)
      requires OneEach(wire) && OneEach(sealed)
      requires forall d :: d in sealed ==> HalfOf(After(START, moves), d.byClient).e.sent <= d.seqNo
      requires Run(After(START, moves), more) && AreAt(After(After(START, moves), more))
      requires OnWire(After(After(START, moves), more), sealed)
      modifies this`moves, this`wire
      ensures Valid() && moves == old(moves) + more && wire == old(wire) + sealed
    {
      hide Wired, PacketTunnel.Valid, PacketTunnel.State, Run, After, Sealed;
      RunKeeps(moves);
      NewNumbers(After(START, moves), wire, sealed);
      ExtendAll(moves, more);
      LogsGrow(After(START, moves), more);
      moves, wire := moves + more, wire + sealed;
    }

    /** Send one application payload, or a control payload that is neither ACK nor SKIP. */
    method Send(byClient: bool, payload: Bytes, rnd: Reader, ghost arrives: bool) returns (r: Result<Bytes>)
      requires Valid() && (BodyOf(payload, !byClient).Data? || BodyOf(payload, !byClient).Quiet?)
      modifies this`moves, this`wire, client.send, server.send, rnd
      ensures Valid()
      ensures r.Err? ==> moves == old(moves) && wire == old(wire)
      ensures r.Ok? ==>
        var body := BodyOf(payload, !byClient);
        && moves == old(moves) + [Move(byClient, LossRecovery.Send(body, arrives))]
        && wire == old(wire) + {Datagram(byClient, r.value, old(Side(byClient).send.packetSend), payload)}
    {
      hide WellFormed, Correct, NonceBound, FrameOf, BodyOf, NonceAt, Marked, MessageCodec.Valid, Run;
      var me := Side(byClient);
      ghost var before := me.send.packetSend;
      r := me.Seal(payload, rnd);
      if r.Ok? {
        ghost var body := BodyOf(payload, !byClient);
        OneMove(After(START, moves), Move(byClient, LossRecovery.Send(body, arrives)));
        Record([Move(byClient, LossRecovery.Send(body, arrives))], {Datagram(byClient, r.value, before, payload)});
      }
    }

    /** The 64-bit counters have room for another window. */
    ghost predicate InRange()
      reads client.send, server.send
    {
      && client.send.packetSend + PACKET_WINDOW < 0x1_0000_0000_0000_0000
      && server.send.packetSend + PACKET_WINDOW < 0x1_0000_0000_0000_0000
    }

    /** maybeSendLossControl on one side: a check, and after a successful write the belief that the SKIP arrived.
        Nothing happens when the SKIP cannot be encoded. */
    method Check(byClient: bool, written: bool, rnd: Reader, ghost arrives: bool) returns (frame: Option<Bytes>)
      requires Valid() && InRange()
      modifies this`moves, this`wire, client`peerBase, client.send, server`peerBase, server.send, rnd
      ensures Valid()
      ensures var h := HalfOf(old(After(START, moves)), byClient);
        && (frame.Some? ==> UnackedSpan(h.e) >= SKIP_SPAN)
        && moves == old(moves) + CheckMoves(h.e, byClient, frame.Some?, written, arrives)
        && wire == old(wire) + SkipOnWire(byClient, frame, h.e.sent)
    {
      hide WellFormed, Correct, NonceBound, FrameOf, BodyOf, NonceAt, Marked, MessageCodec.Valid, Run,
        PacketTunnel.Valid;
      var me := Side(byClient);
      ghost var s := After(START, moves);
      ghost var e := HalfOf(s, byClient).e;
      assert me.send.packetSend == e.sent;
      CheckEffect(s, byClient, false, written, arrives);
      CheckEffect(s, byClient, true, written, arrives);
      hide After, Step, UnackedSpan, CheckMoves, Genuine, PacketTunnel.Carried, PacketTunnel.FailsOnlyDry;
      frame := CheckBeside(me, Side(!byClient), written, rnd);
      Record(CheckMoves(e, byClient, frame.Some?, written, arrives), SkipOnWire(byClient, frame, e.sent));
    }

    /** The network delivers a datagram of the other side, for the first time or again. If its number is open it is
        accepted with its own payload, and the ACK it makes due goes on the wire; otherwise it is refused and nothing
        changes. */
    method Deliver(toClient: bool, bytes: Bytes, limited: bool, rnd: Reader, ghost d: Datagram, ghost arrives: bool)
      returns (r: Result<Bytes>, ack: Result<Bytes>)
      requires Valid() && InRange() && d in wire && d.byClient == !toClient && d.bytes == bytes
      requires Meaning(d) in HalfOf(After(START, moves), !toClient).net
      modifies this`moves, this`wire, client, client.send, client.recv, client.recv.packetSeen,
               server, server.send, server.recv, server.recv.packetSeen, rnd
      ensures Valid()
      ensures var me := HalfOf(old(After(START, moves)), toClient);
        if Open(me.e.window, d.seqNo) then
          && r == Ok(d.payload)
          && moves == old(moves) + [Move(toClient, Receive(Meaning(d), limited, FateOf(ack, arrives)))]
          && wire == old(wire) + AckOnWire(toClient, ack, me.e.sent, Side(toClient).recv.packetBase)
        else r.Err? && moves == old(moves) && wire == old(wire)
    {
      hide WellFormed, Correct, NonceBound, FrameOf, BodyOf, NonceAt, Marked, MessageCodec.Valid, Run, Received,
        Handled;
      hide Inv, Do, Accept, PacketTunnel.Valid;
      var me := Side(toClient);
      ghost var s, f := After(START, moves), Meaning(d);
      ghost var h := HalfOf(s, toClient);
      RunKeeps(moves);
      BasesBelow(s, toClient, f, limited);
      hide After, Step, Genuine, PacketTunnel.Carried, PacketTunnel.FailsOnlyDry, Open;
      r, ack := TakeGenuine(me, bytes, limited, rnd, d.seqNo, d.payload);
      if r.Ok? {
        HandledIsDone(s, me.State(), f, r.value, toClient, limited, ack, arrives);
        if ack.Ok? {
          AckIsGenuine(me, h.e.sent, me.recv.packetBase, ack.value, !toClient);
        }
        Record([Move(toClient, Receive(f, limited, FateOf(ack, arrives)))],
          AckOnWire(toClient, ack, h.e.sent, me.recv.packetBase));
      }
    }

    /** Bytes that open under no number of the window, forged or stale, change nothing. */
    method DeliverJunk(toClient: bool, bytes: Bytes, limited: bool, rnd: Reader) returns (r: Result<Bytes>)
      requires Valid() && forall t: nat :: !Side(toClient).recv.Opens(Side(toClient).recv.PacketState(), bytes, t)
      modifies client, client.send, client.recv, client.recv.packetSeen,
               server, server.send, server.recv, server.recv.packetSeen, rnd
      ensures Valid() && r.Err? && moves == old(moves) && wire == old(wire)
    {
      hide BodyOf, Marked, MessageCodec.Valid, MessageCodec.Opens, Run, After, Handled, OnWire, Received;
      var ack;
      ghost var at;
      r, ack, at := Side(toClient).Receive(bytes, limited, rnd);
    }

    /** The network loses a frame in flight. */
    ghost method Lose(byClient: bool, f: Frame)
      requires Valid() && f in HalfOf(After(START, moves), byClient).net
      modifies this`moves, this`wire
      ensures Valid() && moves == old(moves) + [Move(byClient, LossRecovery.Lose(f))] && wire == old(wire)
    {
      OneMove(After(START, moves), Move(byClient, LossRecovery.Lose(f)));
      Record([Move(byClient, LossRecovery.Lose(f))], {});
    }

    /** No nonce is used twice: two datagrams that one side has sealed under the same nonce are the same datagram. */
    lemma NoncesDistinct(d: Datagram, e: Datagram)
      requires Valid() && InRange() && d in wire && e in wire && d.byClient == e.byClient
      requires var index := Side(d.byClient).send.spec.index; NonceAt(index, d.seqNo) == NonceAt(index, e.seqNo)
      ensures d == e
    {
      hide WellFormed, Correct, NonceBound, Sealed, NonceAt;
      RunKeeps(moves);
      var s := After(START, moves);
      assert Meaning(d) in HalfOf(s, d.byClient).log && Meaning(e) in HalfOf(s, e.byClient).log;
      var index := Side(d.byClient).send.spec.index;
      NonceInjective(index, d.seqNo, index, e.seqNo);
    }

    /** What the run invariant says of the real objects: neither the receiver's base nor the sender's view of it ever
        passes the number of frames sealed. */
    lemma NeverPastSent()
      requires Valid()
      ensures server.recv.packetBase <= client.send.packetSend && client.peerBase <= client.send.packetSend
      ensures client.recv.packetBase <= server.send.packetSend && server.peerBase <= server.send.packetSend
    {
      RunKeeps(moves);
    }
  }

  lemma OneMove(s: System, m: Move)
    ensures Run(s, [m]) <==> Enabled(s, m)
    ensures After(s, [m]) == Step(s, m)
  {
    assert [m][..0] == [];
  }

  lemma TwoMoves(s: System, m: Move, n: Move)
    ensures Run(s, [m, n]) <==> Enabled(s, m) && Enabled(Step(s, m), n)
    ensures After(s, [m, n]) == Step(Step(s, m), n)
  {
    assert [m, n][..1] == [m];
    OneMove(s, m);
  }

  lemma {:induction false} ExtendAll(moves: seq<Move>, more: seq<Move>)
    requires Run(START, moves) && Run(After(START, moves), more)
    ensures Run(START, moves + more) && After(START, moves + more) == After(After(START, moves), more)
  {
    if more == [] {
      assert moves + more == moves;
    } else {
      var n := |more| - 1;
      ExtendAll(moves, more[..n]);
      Extend(moves + more[..n], more[n]);
      assert moves + more == moves + more[..n] + [more[n]];
    }
  }

  lemma {:induction false} LogsGrow(s: System, more: seq<Move>)
    ensures forall c :: HalfOf(s, c).log <= HalfOf(After(s, more), c).log
  {
    if more != [] {
      LogsGrow(s, more[..|more| - 1]);
    }
  }

  /** Receive on a genuine datagram: accepted under its own number with its own payload if that number is open, else
      refused. */
  method TakeGenuine(me: PacketTunnel, bytes: Bytes, limited: bool, rnd: Reader, ghost s: nat, ghost payload: Bytes)
    returns (r: Result<Bytes>, ack: Result<Bytes>)
    requires me.Valid() && Genuine(me.recv.spec, me.recv.aead, bytes, s, payload)
    requires Correct(me.recv.aead) && NonceBound(me.recv.aead) && me.recv.spec.index < 0x1_0000_0000
    requires s + PACKET_WINDOW < 0x1_0000_0000_0000_0000
    requires me.State().window.base + PACKET_WINDOW < 0x1_0000_0000_0000_0000
    modifies me`peerBase, me`ackDue, me.send`packetSend, me.recv`packetBase, me.recv.packetSeen, rnd
    ensures me.Valid()
    ensures if Open(old(me.State()).window, s) then
        && r == Ok(payload) && Handled(old(me.State()), me.State(), s, payload, me.isClient, limited, ack)
        && (ack.Ok? ==> me.Carried(old(me.State()).sent, EncodeAckPayload(me.State().window.base), ack.value))
      else r.Err? && me.State() == old(me.State())
  {
    hide Correct, NonceBound, FrameOf, BodyOf, NonceAt, Marked, MessageCodec.Valid, Handled, PacketTunnel.Carried,
      Genuine;
    ghost var w := me.State().window;
    ghost var m, pad := GenuineOnly(me.recv, w, bytes, s, payload);
    ghost var at;
    r, ack, at := me.Receive(bytes, limited, rnd);
  }

  /** maybeSendLossControl on one tunnel, next to another one that shares no codec with it. */
  method CheckBeside(me: PacketTunnel, other: PacketTunnel, written: bool, rnd: Reader) returns (frame: Option<Bytes>)
    requires me.Valid() && other.Valid() && me != other && me.send != other.send && me.send != other.recv
    requires Correct(me.send.aead) && WellFormed(me.send.spec) && me.send.packetSend < 0x1_0000_0000_0000_0000
    modifies me`peerBase, me.send`packetSend, rnd
    ensures me.Valid() && other.Valid() && other.State() == old(other.State())
    ensures var e := old(me.State());
      && (frame.Some? ==> UnackedSpan(e) >= SKIP_SPAN)
      && me.State() == (if frame.None? then e else if written then ObserveAck(LossRecovery.Sealed(e), e.sent)
           else LossRecovery.Sealed(e))
      && (frame.Some? ==>
            && Genuine(me.send.spec, me.send.aead, frame.value, e.sent, EncodeSkipPayload(e.sent))
            && forall toClient :: BodyOf(EncodeSkipPayload(e.sent), toClient) == Skip(e.sent))
  {
    hide WellFormed, Correct, FrameOf, BodyOf, NonceAt, Marked, MessageCodec.Valid, PacketTunnel.FailsOnlyDry;
    ghost var sent := me.send.packetSend;
    ghost var failure;
    frame, failure := me.MaybeSendLossControl(rnd, written);
    if frame.Some? {
      SkipIsGenuine(me, sent, frame.value, true);
      SkipIsGenuine(me, sent, frame.value, false);
      assert forall toClient :: BodyOf(EncodeSkipPayload(sent), toClient) == Skip(sent);
    }
  }

  /** The moves of one call: none when a due SKIP could not be sealed. */
  function CheckMoves(e: Endpoint, byClient: bool, sealed: bool, written: bool, arrives: bool): seq<Move> {
    var check := Move(byClient, LossRecovery.Check(arrives));
    if !sealed then if UnackedSpan(e) >= SKIP_SPAN then [] else [check]
    else if written then [check, Move(byClient, ObserveSkip(e.sent))]
    else [check]
  }

  function SkipOnWire(byClient: bool, frame: Option<Bytes>, sent: nat): set<Datagram> {
    if frame.None? then {} else {Datagram(byClient, frame.value, sent, EncodeSkipPayload(sent))}
  }

  /** What those moves do. */
  lemma CheckEffect(s: System, byClient: bool, sealed: bool, written: bool, arrives: bool)
    ensures var h := HalfOf(s, byClient);
      (sealed ==> UnackedSpan(h.e) >= SKIP_SPAN) ==>
        var ms := CheckMoves(h.e, byClient, sealed, written, arrives);
        var t := After(s, ms);
        && Run(s, ms) && HalfOf(t, !byClient).e == HalfOf(s, !byClient).e
        && HalfOf(t, byClient).e ==
           (if !sealed then h.e else if written then ObserveAck(LossRecovery.Sealed(h.e), h.e.sent)
             else LossRecovery.Sealed(h.e))
        && (sealed ==> Frame(h.e.sent, Skip(h.e.sent)) in HalfOf(t, byClient).log)
  {
    var check, observe := Move(byClient, LossRecovery.Check(arrives)),
      Move(byClient, ObserveSkip(HalfOf(s, byClient).e.sent));
    OneMove(s, check);
    TwoMoves(s, check, observe);
  }

  lemma SkipIsGenuine(t: PacketTunnel, sent: nat, bytes: Bytes, toClient: bool)
    requires t.Carried(sent, EncodeSkipPayload(sent), bytes) && sent < 0x1_0000_0000_0000_0000
    requires Correct(t.send.aead) && WellFormed(t.send.spec)
    ensures Genuine(t.send.spec, t.send.aead, bytes, sent, EncodeSkipPayload(sent))
    ensures BodyOf(EncodeSkipPayload(sent), toClient) == Skip(sent)
  {
    AckPayloadExact(EncodeSkipPayload(sent), sent, toClient);
  }

  /** The receiver's base, before and after a frame of the other side, and that frame's number are below the number of
      frames that side has sealed. */
  lemma BasesBelow(s: System, toClient: bool, f: Frame, limited: bool)
    requires Inv(s) && f in HalfOf(s, !toClient).net
    ensures var me, peer := HalfOf(s, toClient), HalfOf(s, !toClient);
      && f.seqNo < peer.e.sent && me.e.window.base <= peer.e.sent
      && (Open(me.e.window, f.seqNo) ==> Received(me.e, f, limited).0.window.base <= peer.e.sent)
  {
    var me, peer := HalfOf(s, toClient), HalfOf(s, !toClient);
    if Open(me.e.window, f.seqNo) {
      ReceiveBase(peer, me, f, limited);
    }
  }

  /** What Receive does to the object is what the move does to the model. */
  lemma HandledIsDone(s: System, e: Endpoint, f: Frame, p: Bytes, toClient: bool, limited: bool, ack: Result<Bytes>,
                      arrives: bool)
    requires Handled(HalfOf(s, toClient).e, e, f.seqNo, p, toClient, limited, ack) && BodyOf(p, toClient) == f.body
    requires f in HalfOf(s, !toClient).net && Open(HalfOf(s, toClient).e.window, f.seqNo)
    ensures var h, move := HalfOf(s, toClient), Move(toClient, Receive(f, limited, FateOf(ack, arrives)));
      var t := After(s, [move]);
      && Run(s, [move]) && HalfOf(t, toClient).e == e && HalfOf(t, !toClient).e == HalfOf(s, !toClient).e
      && e.window == Received(h.e, f, limited).0.window
      && (ack.Ok? ==> Frame(h.e.sent, Body.Ack(e.window.base)) in HalfOf(t, toClient).log)
  {
    hide BodyOf, Accept, Advance;
    OneMove(s, Move(toClient, Receive(f, limited, FateOf(ack, arrives))));
  }

  function FateOf(ack: Result<Bytes>, arrives: bool): Fate {
    if ack.Err? then Unsealed else if arrives then Arrives else Lost
  }

  function AckOnWire(byClient: bool, ack: Result<Bytes>, sent: nat, base: nat): set<Datagram> {
    if ack.Err? then {} else {Datagram(byClient, ack.value, sent, EncodeAckPayload(base))}
  }

  lemma AckIsGenuine(t: PacketTunnel, sent: nat, base: nat, bytes: Bytes, toClient: bool)
    requires t.Carried(sent, EncodeAckPayload(base), bytes) && base < 0x1_0000_0000_0000_0000
    requires Correct(t.send.aead) && WellFormed(t.send.spec)
    ensures Genuine(t.send.spec, t.send.aead, bytes, sent, EncodeAckPayload(base))
    ensures BodyOf(EncodeAckPayload(base), toClient) == Body.Ack(base)
  {
    AckPayloadExact(EncodeAckPayload(base), base, toClient);
  }

  /** A genuine datagram is authentic for the receiver's codec, and opens at its own number or not at all. */
  lemma GenuineOnly(recv: MessageCodec, w: Window, bytes: Bytes, s: nat, payload: Bytes)
    returns (m: Message, pad: Bytes)
    requires Genuine(recv.spec, recv.aead, bytes, s, payload)
    requires Correct(recv.aead) && NonceBound(recv.aead) && recv.spec.index < 0x1_0000_0000
    requires s + PACKET_WINDOW < 0x1_0000_0000_0000_0000 && w.base + PACKET_WINDOW < 0x1_0000_0000_0000_0000
    ensures recv.Authentic(s, m, pad, bytes) && m.payload == payload
    ensures forall t: nat :: recv.Opens(w, bytes, t) ==> t == s
  {
    hide FrameOf, Correct, NonceBound, NonceAt, Decoded;
    m, pad :| m.payload == payload && FrameOf(recv.spec, recv.aead, NonceAt(recv.spec.index, s), m, pad, bytes);
    forall t: nat | recv.Opens(w, bytes, t) ensures t == s {
      SealedOpensOnlyAt(recv.spec, recv.aead, s, t, m, pad, bytes);
    }
  }
}
