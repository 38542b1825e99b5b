/** ACK/SKIP loss recovery as a two-party protocol: two endpoints, each sending to the other over a network that
    loses, duplicates and reorders frames. */
module LossRecovery {
  import opened Bytes
  import opened ReplayWindow
  import opened Sequence

  const SKIP_SPAN: nat := PACKET_WINDOW * 3 / 4
  const ACK_EVERY: nat := 32

  /** What a decoded payload means to loss recovery. Quiet is any other control payload. */
  datatype Body = Ack(base: nat) | Skip(target: nat) | Quiet | Data

  datatype Frame = Frame(seqNo: nat, body: Body)

  /** The loss-recovery state of one side: frames sent, the peer's position as this side believes it, decoded data
      frames since the last ACK, and the receive window. */
  datatype Endpoint = Endpoint(sent: nat, peerBase: nat, ackDue: nat, window: Window)

  const FRESH: Endpoint := Endpoint(0, 0, 0, Window(0, {}))

  // ---- the steps of one endpoint ----

  function Sealed(e: Endpoint): Endpoint {
    e.(sent := e.sent + 1)
  }

  /** observeAck */
  function ObserveAck(e: Endpoint, base: nat): Endpoint {
    if base > e.peerBase then e.(peerBase := base) else e
  }

  /** unackedSpan */
  function UnackedSpan(e: Endpoint): nat {
    if e.sent < e.peerBase then 0 else e.sent - e.peerBase
  }

  /** noteDecoded, and the ACK it may make due */
  function NoteDecoded(e: Endpoint): (Endpoint, Option<Body>) {
    if e.ackDue + 1 < ACK_EVERY then (e.(ackDue := e.ackDue + 1), None)
    else (Sealed(e.(ackDue := 0)), Some(Ack(e.window.base)))
  }

  predicate Open(w: Window, s: nat) {
    w.base <= s < w.base + PACKET_WINDOW && s !in w.seen
  }

  /** What a decoded body does, and the ACK to send, if one is due. */
  function Effect(d: Endpoint, body: Body): (Endpoint, Option<Body>) {
    match body
    case Ack(b) => (ObserveAck(d, b), None)
    case Skip(t) => (d.(window := Advance(d.window, t, PACKET_WINDOW)), None)
    case Quiet => (d, None)
    case Data => NoteDecoded(d)
  }

  /** A frame that decodes: the window accepts it, then its body takes effect, unless the server's rate limiter drops
      it in between. */
  function Received(e: Endpoint, f: Frame, limited: bool): (Endpoint, Option<Body>) {
    var d := e.(window := Accept(e.window, f.seqNo));
    if limited then (d, None) else Effect(d, f.body)
  }

  // ---- how often the peer hears of the base ----

  /** A decoded frame, and whether the rate limiter drops it. */
  datatype Arrival = Arrival(f: Frame, limited: bool)

  /** The endpoint after a run of decoded frames, and the ACKs that have become due. */
  function AfterAll(e: Endpoint, run: seq<Arrival>): (Endpoint, nat) {
    if run == [] then (e, 0) else
      var (d, acks) := AfterAll(e, run[..|run| - 1]);
      var last := run[|run| - 1];
      var (next, due) := Received(d, last.f, last.limited);
      (next, acks + if due.Some? then 1 else 0)
  }

  /** The data frames of a run that the limiter lets through. */
  function DataIn(run: seq<Arrival>): nat {
    if run == [] then 0 else
      var last := run[|run| - 1];
      DataIn(run[..|run| - 1]) + if last.f.body == Data && !last.limited then 1 else 0
  }

  /** On every run one ACK becomes due for every 32 data frames let through, control frames and limited ones not
      counted, and every ACK that becomes due states the base the receiver then has. */
  lemma {:induction false} AckCadence(e: Endpoint, run: seq<Arrival>)
    requires e.ackDue < 32
    ensures var (d, acks) := AfterAll(e, run);
      d.ackDue < 32 && 32 * acks + d.ackDue == e.ackDue + DataIn(run)
    ensures var d := AfterAll(e, run).0;
      forall f, limited :: var (next, due) := Received(d, f, limited);
        due.Some? ==> due == Some(Ack(next.window.base)) && d.ackDue == 31 && next.ackDue == 0
    decreases |run|
  {
    hide Accept, Advance;
    if run != [] {
      AckCadence(e, run[..|run| - 1]);
    }
  }

  // ---- two endpoints and the network ----

  /** One side with everything it ever sealed (log), the part of it still deliverable (net), and the number of frames
      it has sealed since it last compared its span with SKIP_SPAN. */
  datatype Half = Half(e: Endpoint, log: set<Frame>, net: set<Frame>, unchecked: nat)

  /** What becomes of an ACK: the network delivers it, loses it, or it could not even be encoded. */
  datatype Fate = Arrives | Lost | Unsealed

  datatype Act =
    | Send(body: Body, arrives: bool)                      // Encode and write one payload, keepalives included
    | Check(arrives: bool)                                 // maybeSendLossControl, up to the write
    | ObserveSkip(target: nat)                             // its last line, after the write
    | Receive(f: Frame, limited: bool, ack: Fate)          // decode a frame and handle it
    | Lose(f: Frame)

  function Put(h: Half, body: Body, arrives: bool): Half {
    var f := Frame(h.e.sent, body);
    Half(Sealed(h.e), h.log + {f}, if arrives then h.net + {f} else h.net, h.unchecked + 1)
  }

  /** Application payloads are never mistaken for ACK or SKIP: they are IP packets or other control types. */
  predicate Can(me: Half, peer: Half, a: Act) {
    match a
    case Send(body, _) => body.Data? || body.Quiet?
    case Check(_) => true
    case ObserveSkip(t) => Frame(t, Skip(t)) in me.log
    case Receive(f, _, _) => f in peer.net && Open(me.e.window, f.seqNo)
    case Lose(f) => f in me.net
  }

  function Do(me: Half, a: Act): Half {
    match a
    case Send(body, arrives) => Put(me, body, arrives)
    case Check(arrives) =>
      if UnackedSpan(me.e) < SKIP_SPAN then me.(unchecked := 0)
      else Put(me, Skip(me.e.sent), arrives).(unchecked := 0)
    case ObserveSkip(t) => me.(e := ObserveAck(me.e, t))
    case Receive(f, limited, fate) =>
      var (e, ack) := Received(me.e, f, limited);
      var h := me.(e := e.(sent := me.e.sent));
      if ack.None? || fate == Unsealed then h else Put(h, ack.value, fate == Arrives)
    case Lose(f) => me.(net := me.net - {f})
  }

  datatype System = System(client: Half, server: Half)
  datatype Move = Move(byClient: bool, act: Act)

  const START: System := System(Half(FRESH, {}, {}, 0), Half(FRESH, {}, {}, 0))

  predicate Enabled(s: System, m: Move) {
    if m.byClient then Can(s.client, s.server, m.act) else Can(s.server, s.client, m.act)
  }

  function Step(s: System, m: Move): System {
    if m.byClient then s.(client := Do(s.client, m.act)) else s.(server := Do(s.server, m.act))
  }

  function After(s: System, moves: seq<Move>): System {
    if moves == [] then s else Step(After(s, moves[..|moves| - 1]), moves[|moves| - 1])
  }

  ghost predicate Run(s: System, moves: seq<Move>) {
    moves == [] || (Run(s, moves[..|moves| - 1]) && Enabled(After(s, moves[..|moves| - 1]), moves[|moves| - 1]))
  }

  lemma Extend(moves: seq<Move>, m: Move)
    requires Run(START, moves) && Enabled(After(START, moves), m)
    ensures Run(START, moves + [m]) && After(START, moves + [m]) == Step(After(START, moves), m)
  {
    assert (moves + [m])[..|moves|] == moves;
  }

  // ---- the invariant of one direction ----

  ghost predicate EmittedSkip(h: Half, t: nat) {
    Frame(t, Skip(t)) in h.log
  }

  /** me sends, peer receives. */
  ghost predicate Direction(me: Half, peer: Half) {
    && me.net <= me.log
    && (forall f :: f in me.log ==> f.seqNo < me.e.sent && (f.body.Skip? ==> f.body.target == f.seqNo))
    && (forall f, g :: f in me.log && g in me.log && f.seqNo == g.seqNo ==> f == g)
    && Bounded(peer.e.window, PACKET_WINDOW)
    && peer.e.window.base <= me.e.sent
    && (forall s :: s in peer.e.window.seen ==> s < me.e.sent)
    && (forall f :: f in peer.log && f.body.Ack? ==> f.body.base <= peer.e.window.base)
    && me.e.peerBase <= me.e.sent
    && (me.e.peerBase <= peer.e.window.base || exists t :: EmittedSkip(me, t) && me.e.peerBase <= t)
  }

  ghost predicate Inv(s: System) {
    Direction(s.client, s.server) && Direction(s.server, s.client)
  }

  /** A frame the network can deliver, accepted and handled, moves the base up but never past what was sent. */
  lemma ReceiveBase(me: Half, peer: Half, f: Frame, limited: bool)
    requires Direction(me, peer) && f in me.net && Open(peer.e.window, f.seqNo)
    ensures var w := Received(peer.e, f, limited).0.window;
      && Bounded(w, PACKET_WINDOW) && peer.e.window.base <= w.base <= me.e.sent
      && (forall s :: s in w.seen ==> s < me.e.sent)
  {
    AcceptExact(peer.e.window, f.seqNo, PACKET_WINDOW);
    var v := Accept(peer.e.window, f.seqNo);
    if v.base > peer.e.window.base {
      assert v.base - 1 == f.seqNo || v.base - 1 in peer.e.window.seen;
    }
  }

  /** Sealing one more frame keeps a direction in order. */
  lemma PutKeeps(me: Half, peer: Half, body: Body, arrives: bool)
    requires Direction(me, peer) && (body.Skip? ==> body.target == me.e.sent)
    ensures Direction(Put(me, body, arrives), peer)
  {
    var me' := Put(me, body, arrives);
    assert forall t :: EmittedSkip(me, t) ==> EmittedSkip(me', t);
  }

  /** So does raising the view of the peer to a position it has confirmed or to an own SKIP. */
  lemma ObserveKeeps(me: Half, peer: Half, base: nat)
    requires Direction(me, peer) && base <= me.e.sent
    requires base <= peer.e.window.base || EmittedSkip(me, base)
    ensures Direction(me.(e := ObserveAck(me.e, base)), peer)
  {
    var me' := me.(e := ObserveAck(me.e, base));
    assert forall t :: EmittedSkip(me, t) ==> EmittedSkip(me', t);
  }

  /** The receive side of an endpoint does not matter to what it sends. */
  lemma ReceiveSideKeeps(me: Half, peer: Half, w: Window, due: nat)
    requires Direction(me, peer)
    ensures Direction(me.(e := me.e.(window := w, ackDue := due)), peer)
  {
    var me' := me.(e := me.e.(window := w, ackDue := due));
    assert forall t :: EmittedSkip(me, t) ==> EmittedSkip(me', t);
  }

  /** What the acting side sends stays in order. */
  lemma SenderKeeps(me: Half, peer: Half, a: Act)
    requires Direction(me, peer) && Direction(peer, me) && Can(me, peer, a)
    ensures Direction(Do(me, a), peer)
  {
    match a
    case Send(body, arrives) => PutKeeps(me, peer, body, arrives);
    case Check(arrives) => CheckKeeps(me, peer, arrives);
    case ObserveSkip(t) => ObserveKeeps(me, peer, t);
    case Receive(f, limited, fate) => HandlingKeeps(me, peer, f, limited, fate);
    case Lose(_) => assert forall t :: EmittedSkip(me, t) ==> EmittedSkip(Do(me, a), t);
  }

  lemma CheckKeeps(me: Half, peer: Half, arrives: bool)
    requires Direction(me, peer)
    ensures Direction(Do(me, Check(arrives)), peer)
  {
    PutKeeps(me, peer, Skip(me.e.sent), arrives);
    var put := Put(me, Skip(me.e.sent), arrives);
    assert forall t :: EmittedSkip(me, t) ==> EmittedSkip(me.(unchecked := 0), t);
    assert forall t :: EmittedSkip(put, t) ==> EmittedSkip(put.(unchecked := 0), t);
  }

  lemma HandlingKeeps(me: Half, peer: Half, f: Frame, limited: bool, fate: Fate)
    requires Direction(me, peer) && Direction(peer, me) && f in peer.net
    ensures Direction(Do(me, Receive(f, limited, fate)), peer)
  {
    hide Direction, Accept, Advance;
    var (e, ack) := Received(me.e, f, limited);
    ReceiveSideKeeps(me, peer, e.window, e.ackDue);
    var h := me.(e := me.e.(window := e.window, ackDue := e.ackDue));
    if f.body.Ack? && !limited {
      AckConfirmed(me, peer, f);
      ObserveKeeps(h, peer, f.body.base);
    } else if ack.Some? && fate != Unsealed {
      PutKeeps(h, peer, ack.value, fate == Arrives);
    }
  }

  lemma AckConfirmed(me: Half, peer: Half, f: Frame)
    requires Direction(me, peer) && Direction(peer, me) && f in peer.net && f.body.Ack?
    ensures f.body.base <= peer.e.window.base <= me.e.sent
  {
  }

  /** What the acting side receives stays in order. */
  lemma ReceiverKeeps(me: Half, peer: Half, a: Act)
    requires Direction(peer, me) && Can(me, peer, a)
    ensures Direction(peer, Do(me, a))
  {
    if a.Receive? {
      ReceiveBase(peer, me, a.f, a.limited);
    }
  }

  lemma StepKeeps(s: System, m: Move)
    requires Inv(s) && Enabled(s, m)
    ensures Inv(Step(s, m))
  {
    if m.byClient {
      SenderKeeps(s.client, s.server, m.act);
      ReceiverKeeps(s.client, s.server, m.act);
    } else {
      SenderKeeps(s.server, s.client, m.act);
      ReceiverKeeps(s.server, s.client, m.act);
    }
  }

  /** Safety of loss recovery, on every run over a network that loses, duplicates and reorders: neither the receiver's
      base nor the sender's view of it ever runs past what was sent, and the sender is ahead of the receiver only by
      what one of its own SKIPs asked for. */
  lemma {:induction false} RunKeeps(moves: seq<Move>)
    requires Run(START, moves)
    ensures Inv(After(START, moves))
  {
    if moves != [] {
      RunKeeps(moves[..|moves| - 1]);
      StepKeeps(After(START, moves[..|moves| - 1]), moves[|moves| - 1]);
    }
  }

  /** A SKIP that decodes is never refused, and leaves the base at the higher of its target and where accepting it put
      the base. Across a hole its own bit is clear again: the window restarts empty at the SKIP's own number. */
  lemma SkipNeverRefused(me: Half, peer: Half, f: Frame)
    requires Direction(me, peer) && f in me.net && f.body.Skip? && Open(peer.e.window, f.seqNo)
    ensures var accepted, w := Accept(peer.e.window, f.seqNo), Received(peer.e, f, false).0.window;
      && f.body.target <= accepted.base + PACKET_WINDOW
      && w.base == (if f.body.target > accepted.base then f.body.target else accepted.base)
      && (peer.e.window.base < f.seqNo && accepted.base == peer.e.window.base ==> w == Window(f.seqNo, {}))
  {
    AcceptExact(peer.e.window, f.seqNo, PACKET_WINDOW);
  }

  // ---- progress while every SKIP is punctual ----

  /** Every SKIP takes effect before more than `late` further frames are sealed behind it, and at most `burst` frames
      are sealed between two checks of the span (ACKs and keepalives are sealed without a check). */
  ghost predicate Punctual(me: Half, peer: Half, late: nat, burst: nat) {
    && me.unchecked <= burst
    && forall t: nat :: EmittedSkip(me, t) && peer.e.window.base < t ==> me.e.sent <= t + 1 + late
  }

  ghost predicate PunctualRun(moves: seq<Move>, late: nat, burst: nat) {
    && Punctual(After(START, moves).client, After(START, moves).server, late, burst)
    && Punctual(After(START, moves).server, After(START, moves).client, late, burst)
    && (moves != [] ==> PunctualRun(moves[..|moves| - 1], late, burst))
  }

  /** t is close enough above the base. */
  ghost predicate NearSkip(me: Half, peer: Half, burst: nat, t: nat) {
    EmittedSkip(me, t) && peer.e.window.base < t <= peer.e.window.base + SKIP_SPAN - 1 + burst
  }

  /** The sender is at most SKIP_SPAN plus its unchecked frames past its view of the peer or past one of its SKIPs. */
  ghost predicate SpanBounded(me: Half) {
    || me.e.sent <= me.e.peerBase + SKIP_SPAN - 1 + me.unchecked
    || exists t: nat :: EmittedSkip(me, t) && me.e.sent <= t + SKIP_SPAN - 1 + me.unchecked
  }

  /** While some SKIP is outstanding, one of those is near the base. */
  ghost predicate NearWhenDue(me: Half, peer: Half, burst: nat) {
    (exists t: nat :: EmittedSkip(me, t) && peer.e.window.base < t) ==> exists t: nat :: NearSkip(me, peer, burst, t)
  }

  ghost predicate Slack(me: Half, peer: Half, burst: nat) {
    SpanBounded(me) && NearWhenDue(me, peer, burst)
  }

  /** With punctual SKIPs the sender stays inside the receiver's window. */
  lemma SlackMeansInside(me: Half, peer: Half, late: nat, burst: nat)
    requires Direction(me, peer) && Slack(me, peer, burst) && Punctual(me, peer, late, burst)
    requires late + burst <= PACKET_WINDOW - SKIP_SPAN
    ensures me.e.sent <= peer.e.window.base + PACKET_WINDOW
  {
    if t: nat :| EmittedSkip(me, t) && peer.e.window.base < t {
      var near: nat :| NearSkip(me, peer, burst, near);
      assert me.e.sent <= near + 1 + late;
    }
  }

  lemma SenderSpan(me: Half, peer: Half, a: Act)
    requires Can(me, peer, a) && SpanBounded(me)
    ensures SpanBounded(Do(me, a))
  {
    var me' := Do(me, a);
    if a.Check? && UnackedSpan(me.e) >= SKIP_SPAN {
      assert EmittedSkip(me', me.e.sent);
    } else if !(me'.e.sent <= me'.e.peerBase + SKIP_SPAN - 1 + me'.unchecked) {
      var t: nat :| EmittedSkip(me, t) && me.e.sent <= t + SKIP_SPAN - 1 + me.unchecked;
      assert EmittedSkip(me', t);
    }
  }

  lemma SenderNear(me: Half, peer: Half, a: Act, late: nat, burst: nat)
    requires Direction(me, peer) && Can(me, peer, a) && Slack(me, peer, burst) && Punctual(me, peer, late, burst)
    ensures NearWhenDue(Do(me, a), peer, burst)
  {
    var me' := Do(me, a);
    if t: nat :| EmittedSkip(me, t) && peer.e.window.base < t {
      var near: nat :| NearSkip(me, peer, burst, near);
      assert NearSkip(me', peer, burst, near);
    } else if t: nat :| EmittedSkip(me', t) && peer.e.window.base < t {
      assert !EmittedSkip(me, t) && t == me.e.sent;
      assert NearSkip(me', peer, burst, t);
    }
  }

  lemma ReceiverSlack(me: Half, peer: Half, a: Act, late: nat, burst: nat)
    requires Direction(peer, me) && Can(me, peer, a) && Slack(peer, me, burst) && Punctual(peer, me, late, burst)
    requires late + burst <= PACKET_WINDOW - SKIP_SPAN
    ensures Slack(peer, Do(me, a), burst)
  {
    var me' := Do(me, a);
    if a.Receive? {
      ReceiveBase(peer, me, a.f, a.limited);
    }
    if t: nat :| EmittedSkip(peer, t) && me'.e.window.base < t {
      var near: nat :| NearSkip(peer, me, burst, near);
      if near > me'.e.window.base {
        assert NearSkip(peer, me', burst, near);
      } else {
        assert t < peer.e.sent <= near + 1 + late;
        assert NearSkip(peer, me', burst, t);
      }
    }
  }

  /** On a punctual run both senders keep their slack. */
  lemma {:induction false} SlackHolds(moves: seq<Move>, late: nat, burst: nat)
    requires Run(START, moves) && PunctualRun(moves, late, burst)
    requires late + burst <= PACKET_WINDOW - SKIP_SPAN
    ensures var s := After(START, moves);
      Inv(s) && Slack(s.client, s.server, burst) && Slack(s.server, s.client, burst)
  {
    var s := After(START, moves);
    RunKeeps(moves);
    if moves != [] {
      var before, m := After(START, moves[..|moves| - 1]), moves[|moves| - 1];
      SlackHolds(moves[..|moves| - 1], late, burst);
      if m.byClient {
        SenderSpan(before.client, before.server, m.act);
        SenderNear(before.client, before.server, m.act, late, burst);
        ReceiverSlack(before.client, before.server, m.act, late, burst);
      } else {
        SenderSpan(before.server, before.client, m.act);
        SenderNear(before.server, before.client, m.act, late, burst);
        ReceiverSlack(before.server, before.client, m.act, late, burst);
      }
    }
  }

  /** Every frame sealed so far lies below the end of the receiver's window. */
  predicate Inside(s: System) {
    && s.client.e.sent <= s.server.e.window.base + PACKET_WINDOW
    && s.server.e.sent <= s.client.e.window.base + PACKET_WINDOW
  }

  /** Progress, conditional on delivery: on every run on which SKIPs are punctual with late + burst within the 2048
      frames the window has beyond SKIP_SPAN, every frame was inside the receiver's window when it was sealed. */
  lemma NeverOutruns(moves: seq<Move>, late: nat, burst: nat)
    requires Run(START, moves) && PunctualRun(moves, late, burst)
    requires late + burst <= PACKET_WINDOW - SKIP_SPAN
    ensures Inside(After(START, moves))
  {
    var s := After(START, moves);
    SlackHolds(moves, late, burst);
    SlackMeansInside(s.client, s.server, late, burst);
    SlackMeansInside(s.server, s.client, late, burst);
  }
}
