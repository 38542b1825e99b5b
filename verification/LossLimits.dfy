/** Where loss recovery stops: exactly how punctual SKIPs must be, and what one lost or late SKIP can do. */
module LossLimits {
  import opened ReplayWindow
  import opened Sequence
  import opened LossRecovery

  // ---- a client nobody hears ----

  /** The server has received nothing; the client has sealed `sent` frames, all lost, believes the peer to be at `view`,
      has sealed `unchecked` frames since its last check, and its only SKIP, if skip > 0, is number `skip`. */
  ghost predicate Silent(s: System, sent: nat, view: nat, unchecked: nat, skip: nat) {
    && s.server == Half(FRESH, {}, {}, 0)
    && s.client.e == Endpoint(sent, view, 0, Window(0, {})) && s.client.net == {} && s.client.unchecked == unchecked
    && forall f :: f in s.client.log && f.body.Skip? ==> f == Frame(skip, Skip(skip)) && skip > 0
  }

  /** A punctual run that has reached a silent state. */
  ghost predicate Reaches(moves: seq<Move>, late: nat, burst: nat, sent: nat, view: nat, unchecked: nat, skip: nat) {
    && Run(START, moves) && PunctualRun(moves, late, burst)
    && Silent(After(START, moves), sent, view, unchecked, skip)
  }

  lemma SilentIsPunctual(s: System, late: nat, burst: nat, sent: nat, view: nat, unchecked: nat, skip: nat)
    requires Silent(s, sent, view, unchecked, skip) && unchecked <= burst && (skip > 0 ==> sent <= skip + 1 + late)
    ensures Punctual(s.client, s.server, late, burst) && Punctual(s.server, s.client, late, burst)
  {
  }

  lemma ExtendSilently(moves: seq<Move>, m: Move, late: nat, burst: nat, sent: nat, view: nat, unchecked: nat,
                       skip: nat)
    requires Run(START, moves) && PunctualRun(moves, late, burst) && Enabled(After(START, moves), m)
    requires Silent(Step(After(START, moves), m), sent, view, unchecked, skip)
    requires unchecked <= burst && (skip > 0 ==> sent <= skip + 1 + late)
    ensures Reaches(moves + [m], late, burst, sent, view, unchecked, skip)
  {
    Extend(moves, m);
    SilentIsPunctual(After(START, moves + [m]), late, burst, sent, view, unchecked, skip);
    assert (moves + [m])[..|moves|] == moves;
  }

  /** n unchecked sends. */
  lemma {:induction false} SendBurst(moves: seq<Move>, late: nat, burst: nat, sent: nat, view: nat, unchecked: nat,
                                     skip: nat, n: nat) returns (longer: seq<Move>)
    requires Reaches(moves, late, burst, sent, view, unchecked, skip)
    requires unchecked + n <= burst && (skip > 0 ==> sent + n <= skip + 1 + late)
    ensures Reaches(longer, late, burst, sent + n, view, unchecked + n, skip)
    decreases n
  {
    longer := moves;
    if n > 0 {
      var m := Move(true, Send(Quiet, false));
      ExtendSilently(moves, m, late, burst, sent + 1, view, unchecked + 1, skip);
      longer := SendBurst(moves + [m], late, burst, sent + 1, view, unchecked + 1, skip, n - 1);
    }
  }

  /** n sends, each followed by a check that asks for nothing. */
  lemma {:induction false} SendChecked(moves: seq<Move>, late: nat, burst: nat, sent: nat, view: nat, skip: nat, n: nat)
    returns (longer: seq<Move>)
    requires Reaches(moves, late, burst, sent, view, 0, skip)
    requires burst >= 1 && view <= sent && sent + n < view + SKIP_SPAN && (skip > 0 ==> sent + n <= skip + 1 + late)
    ensures Reaches(longer, late, burst, sent + n, view, 0, skip)
    decreases n
  {
    longer := moves;
    if n > 0 {
      var m := Move(true, Send(Quiet, false));
      ExtendSilently(moves, m, late, burst, sent + 1, view, 1, skip);
      var c := Move(true, Check(false));
      ExtendSilently(moves + [m], c, late, burst, sent + 1, view, 0, skip);
      longer := SendChecked(moves + [m] + [c], late, burst, sent + 1, view, skip, n - 1);
    }
  }

  /** The check that seals the SKIP, and the belief that it arrived. */
  lemma SealSkip(moves: seq<Move>, late: nat, burst: nat, sent: nat, unchecked: nat) returns (longer: seq<Move>)
    requires Reaches(moves, late, burst, sent, 0, unchecked, 0) && sent >= SKIP_SPAN
    ensures Reaches(longer, late, burst, sent + 1, sent, 0, sent)
  {
    var c, o := Move(true, Check(false)), Move(true, ObserveSkip(sent));
    ExtendSilently(moves, c, late, burst, sent + 1, 0, 0, sent);
    assert EmittedSkip(After(START, moves + [c]).client, sent) by {
      Extend(moves, c);
    }
    ExtendSilently(moves + [c], o, late, burst, sent + 1, sent, 0, sent);
    longer := moves + [c] + [o];
  }

  // ---- how punctual is punctual enough ----

  /** Beyond the bound some punctual run leaves the window: SKIP_SPAN - 1 checked sends, a burst of unchecked ones, one
      SKIP, and as many sends behind it as may be late. Everything is lost. */
  lemma LatenessEscapes(late: nat, burst: nat) returns (moves: seq<Move>)
    requires burst >= 1 && late + burst > PACKET_WINDOW - SKIP_SPAN
    ensures Run(START, moves) && PunctualRun(moves, late, burst) && !Inside(After(START, moves))
  {
    SilentIsPunctual(START, late, burst, 0, 0, 0, 0);
    assert Reaches([], late, burst, 0, 0, 0, 0);
    moves := SendChecked([], late, burst, 0, 0, 0, SKIP_SPAN - 1);
    var room := PACKET_WINDOW + 1 - (SKIP_SPAN - 1);
    if burst >= room {
      moves := SendBurst(moves, late, burst, SKIP_SPAN - 1, 0, 0, 0, room);
    } else {
      moves := SendBurst(moves, late, burst, SKIP_SPAN - 1, 0, 0, 0, burst);
      var t := SKIP_SPAN - 1 + burst;
      moves := SealSkip(moves, late, burst, t, burst);
      moves := SendChecked(moves, late, burst, t + 1, t, t, PACKET_WINDOW - t);
    }
  }

  /** With no frame allowed between checks, none is ever sealed. */
  lemma {:induction false} NoBurstNoFrames(moves: seq<Move>, late: nat)
    requires Run(START, moves) && PunctualRun(moves, late, 0)
    ensures var s := After(START, moves);
      s.client.log == s.client.net == s.server.log == s.server.net == {} && s.client.e.sent == s.server.e.sent == 0
  {
    if moves != [] {
      NoBurstNoFrames(moves[..|moves| - 1], late);
    }
  }

  /** The bound is exact: all punctual runs stay inside the window if and only if late + burst fits the room the window
      has beyond SKIP_SPAN, or no frame may go unchecked at all. */
  lemma InsideExactly(late: nat, burst: nat)
    ensures (forall moves :: Run(START, moves) && PunctualRun(moves, late, burst) ==> Inside(After(START, moves)))
      <==> burst == 0 || late + burst <= PACKET_WINDOW - SKIP_SPAN
  {
    if burst == 0 {
      forall moves | Run(START, moves) && PunctualRun(moves, late, burst) ensures Inside(After(START, moves)) {
        NoBurstNoFrames(moves, late);
      }
    } else if late + burst <= PACKET_WINDOW - SKIP_SPAN {
      forall moves | Run(START, moves) && PunctualRun(moves, late, burst) ensures Inside(After(START, moves)) {
        NeverOutruns(moves, late, burst);
      }
    } else {
      var moves := LatenessEscapes(late, burst);
    }
  }

  // ---- a late SKIP ----

  /** A SKIP that comes late lets data through twice: the receiver accepts a data frame behind the SKIP, then the SKIP,
      which forgets it, and then the same frame, repeated by the network, once more. */
  lemma DataAcceptedTwice() returns (moves: seq<Move>, f: Frame)
    ensures f.body == Data && Run(START, moves) && |moves| >= 3
    ensures var again, skip := Move(false, Receive(f, false, Lost)), Frame(SKIP_SPAN, Skip(SKIP_SPAN));
      moves[|moves| - 3..] == [again, Move(false, Receive(skip, false, Lost)), again]
  {
    SilentIsPunctual(START, 0, 1, 0, 0, 0, 0);
    assert Reaches([], 0, 1, 0, 0, 0, 0);
    moves := SendChecked([], 0, 1, 0, 0, 0, SKIP_SPAN - 1);
    moves := SendBurst(moves, 0, 1, SKIP_SPAN - 1, 0, 0, 0, 1);
    f := Frame(SKIP_SPAN + 1, Data);
    moves := LateSkip(moves, f);
  }

  lemma LateSkip(before: seq<Move>, f: Frame) returns (moves: seq<Move>)
    requires Run(START, before) && Silent(After(START, before), SKIP_SPAN, 0, 1, 0) && f == Frame(SKIP_SPAN + 1, Data)
    ensures Run(START, moves) && |moves| >= 3
    ensures var again, skip := Move(false, Receive(f, false, Lost)), Frame(SKIP_SPAN, Skip(SKIP_SPAN));
      moves[|moves| - 3..] == [again, Move(false, Receive(skip, false, Lost)), again]
  {
    var check, observe, send := Move(true, Check(true)), Move(true, ObserveSkip(SKIP_SPAN)),
      Move(true, Send(Data, true));
    var again, late := Move(false, Receive(f, false, Lost)),
      Move(false, Receive(Frame(SKIP_SPAN, Skip(SKIP_SPAN)), false, Lost));
    SkipAndData(After(START, before), f);
    hide Silent;
    Extend(before, check);
    Extend(before + [check], observe);
    Extend(before + [check] + [observe], send);
    moves := before + [check] + [observe] + [send];
    TwiceThrough(After(START, moves), f);
    hide Step, Enabled;
    Extend(moves, again);
    Extend(moves + [again], late);
    Extend(moves + [again] + [late], again);
    moves := moves + [again] + [late] + [again];
  }

  /** The SKIP and the data frame behind it are on their way. */
  ghost predicate BothComing(s: System, f: Frame) {
    s.server.e.window == Window(0, {}) && f in s.client.net && Frame(SKIP_SPAN, Skip(SKIP_SPAN)) in s.client.net
  }

  lemma SkipAndData(s: System, f: Frame)
    requires Silent(s, SKIP_SPAN, 0, 1, 0) && f == Frame(SKIP_SPAN + 1, Data)
    ensures var check, observe, send := Move(true, Check(true)), Move(true, ObserveSkip(SKIP_SPAN)),
      Move(true, Send(Data, true));
      var t := Step(s, check);
      && Enabled(s, check) && Enabled(t, observe) && Enabled(Step(t, observe), send)
      && BothComing(Step(Step(t, observe), send), f)
  {
  }

  lemma TwiceThrough(s: System, f: Frame)
    requires BothComing(s, f) && f == Frame(SKIP_SPAN + 1, Data)
    ensures var again, late := Move(false, Receive(f, false, Lost)),
      Move(false, Receive(Frame(SKIP_SPAN, Skip(SKIP_SPAN)), false, Lost));
      var t := Step(s, again);
      && Enabled(s, again) && Enabled(t, late) && Enabled(Step(t, late), again)
  {
    var n := SKIP_SPAN + 1;
    assert {} + {n} == {n};
    assert Accept(Window(0, {}), n) == Window(0, {n});
    assert Accept(Window(0, {n}), SKIP_SPAN) == Window(0, {n, SKIP_SPAN}) by {
      assert {n} + {SKIP_SPAN} == {n, SKIP_SPAN};
    }
    hide Accept;
  }

  // ---- a lost SKIP ----

  function Sender(s: System, byClient: bool): Half {
    if byClient then s.client else s.server
  }

  function Receiver(s: System, byClient: bool): Half {
    if byClient then s.server else s.client
  }

  /** The sender has run past the window, and nothing it has in flight is open there. */
  ghost predicate Wedged(me: Half, peer: Half) {
    && me.e.sent >= peer.e.window.base + PACKET_WINDOW
    && forall f :: f in me.net ==> !Open(peer.e.window, f.seqNo)
  }

  /** A wedged direction stays wedged on every run: the receiver never accepts a frame again, its base never moves. */
  lemma {:induction false} WedgedForEver(s: System, byClient: bool, moves: seq<Move>)
    requires Wedged(Sender(s, byClient), Receiver(s, byClient)) && Run(s, moves)
    ensures var t := After(s, moves);
      && Wedged(Sender(t, byClient), Receiver(t, byClient))
      && Receiver(t, byClient).e.window == Receiver(s, byClient).e.window
  {
    if moves != [] {
      WedgedForEver(s, byClient, moves[..|moves| - 1]);
    }
  }

  /** Of everything the client has sealed, only frame 0 and one SKIP, number SKIP_SPAN, were lost: all other frames have
      arrived and were accepted. */
  ghost predicate OnlyTwoLost(s: System) {
    && Frame(SKIP_SPAN, Skip(SKIP_SPAN)) in s.client.log
    && (forall f :: f in s.client.log && f.body.Skip? ==> f.seqNo == SKIP_SPAN)
    && (forall f :: f in s.client.log ==> (f in s.client.net <==> f.seqNo != 0 && f.seqNo != SKIP_SPAN))
    && (forall f :: f in s.client.log ==> (f.seqNo in s.server.e.window.seen <==> f.seqNo != 0 && f.seqNo != SKIP_SPAN))
  }

  /** After n frames of the run below: frame 0 and the SKIP at SKIP_SPAN are lost, everything else has arrived. */
  ghost predicate Holed(s: System, n: nat) {
    && s.client.e.sent == n
    && s.client.e.peerBase == (if n <= SKIP_SPAN then 0 else SKIP_SPAN)
    && s.server.e.window.base == 0
    && (forall k: nat :: k in s.server.e.window.seen <==> 1 <= k < n && k != SKIP_SPAN)
    && (forall f :: f in s.client.net ==> f.seqNo in s.server.e.window.seen)
    && (forall f :: f in s.client.log ==> f.seqNo < n && (f in s.client.net || f.seqNo == 0 || f.seqNo == SKIP_SPAN))
    && (forall f :: f in s.client.log && f.body.Skip? ==> f.seqNo == SKIP_SPAN)
    && (n > SKIP_SPAN ==> Frame(SKIP_SPAN, Skip(SKIP_SPAN)) in s.client.log)
  }

  /** One more frame that arrives; the check after it asks for nothing, except at SKIP_SPAN, which comes next. */
  lemma SendAndDeliver(moves: seq<Move>, n: nat) returns (longer: seq<Move>)
    requires Run(START, moves) && Holed(After(START, moves), n) && 1 <= n < PACKET_WINDOW && n != SKIP_SPAN
    ensures Run(START, longer) && Holed(After(START, longer), n + 1)
  {
    var send, receive, check := Move(true, Send(Quiet, true)), Move(false, Receive(Frame(n, Quiet), false, Lost)),
      Move(true, Check(true));
    var s := After(START, moves);
    HoledGrows(s, n);
    hide Holed, Step, Enabled;
    Extend(moves, send);
    Extend(moves + [send], receive);
    longer := moves + [send] + [receive];
    if n + 1 != SKIP_SPAN {
      CheckKeepsHoled(After(START, longer), n + 1);
      Extend(longer, check);
      longer := longer + [check];
    }
  }

  lemma HoledGrows(s: System, n: nat)
    requires Holed(s, n) && 1 <= n < PACKET_WINDOW && n != SKIP_SPAN
    ensures var send, receive := Move(true, Send(Quiet, true)), Move(false, Receive(Frame(n, Quiet), false, Lost));
      && Enabled(s, send) && Enabled(Step(s, send), receive) && Holed(Step(Step(s, send), receive), n + 1)
  {
    var w := s.server.e.window;
    assert Open(w, n);
    assert Accept(w, n) == Window(0, w.seen + {n});
    hide Accept;
  }

  lemma CheckKeepsHoled(s: System, n: nat)
    requires Holed(s, n) && 1 <= n <= PACKET_WINDOW && n != SKIP_SPAN
    ensures Enabled(s, Move(true, Check(true))) && Holed(Step(s, Move(true, Check(true))), n)
  {
  }

  /** The span has reached SKIP_SPAN: the SKIP is sealed, lost, and believed to have arrived. */
  lemma LoseSkip(moves: seq<Move>) returns (longer: seq<Move>)
    requires Run(START, moves) && Holed(After(START, moves), SKIP_SPAN)
    ensures Run(START, longer) && Holed(After(START, longer), SKIP_SPAN + 1)
  {
    Extend(moves, Move(true, Check(false)));
    longer := moves + [Move(true, Check(false))];
    Extend(longer, Move(true, ObserveSkip(SKIP_SPAN)));
    longer := longer + [Move(true, ObserveSkip(SKIP_SPAN))];
  }

  lemma {:induction false} HoledRun(n: nat) returns (moves: seq<Move>)
    requires 1 <= n <= PACKET_WINDOW
    ensures Run(START, moves) && Holed(After(START, moves), n)
  {
    if n == 1 {
      Extend([], Move(true, Send(Quiet, false)));
      moves := [] + [Move(true, Send(Quiet, false))];
    } else {
      moves := HoledRun(n - 1);
      if n - 1 == SKIP_SPAN {
        moves := LoseSkip(moves);
      } else {
        moves := SendAndDeliver(moves, n - 1);
      }
    }
  }

  /** The code does not promise progress: there is a run that loses exactly one frame and one SKIP, delivers everything
      else at once, and ends wedged. */
  lemma OneLostSkipWedges() returns (moves: seq<Move>)
    ensures Run(START, moves) && OnlyTwoLost(After(START, moves))
    ensures Wedged(After(START, moves).client, After(START, moves).server)
  {
    moves := HoledRun(PACKET_WINDOW);
  }
}
