/** What holds over every run of a receive window. */
module WindowRuns {
  import opened ReplayWindow

  /** What can happen to a receive window: a frame decodes at s, or a loss-recovery target is applied. */
  datatype Event = Accepted(s: nat) | Target(t: nat)

  /** The event can happen: a decoder accepts only numbers inside the window that it has not accepted before. */
  predicate Enabled(w: Window, e: Event, size: nat) {
    e.Accepted? ==> w.base <= e.s < w.base + size && e.s !in w.seen
  }

  function Apply(w: Window, e: Event, size: nat): Window {
    match e
    case Accepted(s) => Accept(w, s)
    case Target(t) => Advance(w, t, size)
  }

  ghost predicate Run(w: Window, es: seq<Event>, size: nat)
    decreases |es|
  {
    es == [] || (Enabled(w, es[0], size) && Run(Apply(w, es[0], size), es[1..], size))
  }

  ghost function After(w: Window, es: seq<Event>, size: nat): Window
    decreases |es|
  {
    if es == [] then w else After(Apply(w, es[0], size), es[1..], size)
  }

  /** Some event of the run is an advance that takes effect at a target no higher than s. */
  ghost predicate Forgets(w: Window, es: seq<Event>, size: nat, s: nat)
    decreases |es|
  {
    es != [] && (
      || (es[0].Target? && Effective(w, es[0].t, size) && es[0].t <= s)
      || Forgets(Apply(w, es[0], size), es[1..], size, s))
  }

  lemma ApplyBounded(w: Window, e: Event, size: nat)
    requires Bounded(w, size) && Enabled(w, e, size)
    ensures Bounded(Apply(w, e, size), size) && w.base <= Apply(w, e, size).base
  {
    if e.Accepted? {
      AcceptExact(w, e.s, size);
    }
  }

  /** The base never moves down, on any run. */
  lemma {:induction false} BaseMonotone(w: Window, es: seq<Event>, size: nat)
    requires Bounded(w, size) && Run(w, es, size)
    ensures Bounded(After(w, es, size), size) && w.base <= After(w, es, size).base
    decreases |es|
  {
    if es != [] {
      ApplyBounded(w, es[0], size);
      BaseMonotone(Apply(w, es[0], size), es[1..], size);
    }
  }

  /** Dead stays dead: once a number is below the base, no run can accept it. */
  lemma NeverBelowBase(w: Window, es: seq<Event>, size: nat, s: nat)
    requires Bounded(w, size) && Run(w, es, size) && s < w.base
    ensures !Enabled(After(w, es, size), Accepted(s), size)
  {
    BaseMonotone(w, es, size);
  }

  /** Whether s is fresh after a run, told from the history alone: accepting s spends it, an effective advance
      revives everything from its target up and kills everything below. */
  ghost predicate Fresh(w: Window, es: seq<Event>, size: nat, s: nat, open: bool)
    decreases |es|
  {
    if es == [] then open else
      var now := match es[0]
        case Accepted(u) => open && u != s
        case Target(t) => if Effective(w, t, size) then t <= s else open;
      Fresh(Apply(w, es[0], size), es[1..], size, s, now)
  }

  /** The window remembers exactly the history: on every run, s is open (not dead and not marked) at the end
      if and only if it is fresh. */
  lemma {:induction false} OpenExactlyWhenFresh(w: Window, es: seq<Event>, size: nat, s: nat)
    requires Bounded(w, size) && Run(w, es, size)
    ensures var v := After(w, es, size);
      (v.base <= s && s !in v.seen) <==> Fresh(w, es, size, s, w.base <= s && s !in w.seen)
    decreases |es|
  {
    if es != [] {
      ApplyBounded(w, es[0], size);
      if es[0].Accepted? {
        AcceptExact(w, es[0].s, size);
      }
      OpenExactlyWhenFresh(Apply(w, es[0], size), es[1..], size, s);
    }
  }

  /** At most once between effective advances: once s is accepted, only an effective advance to a target
      at or below s can ever let it be accepted again. */
  lemma {:induction false} AtMostOnce(w: Window, es: seq<Event>, size: nat, s: nat)
    requires Bounded(w, size) && Run(w, es, size) && Enabled(w, Accepted(s), size)
    requires es != [] && es[0] == Accepted(s) && !Forgets(w, es, size, s)
    ensures !Enabled(After(w, es, size), Accepted(s), size)
  {
    OpenExactlyWhenFresh(w, es, size, s);
    StaysSpent(Apply(w, es[0], size), es[1..], size, s);
  }

  lemma {:induction false} StaysSpent(w: Window, es: seq<Event>, size: nat, s: nat)
    requires !Forgets(w, es, size, s)
    ensures !Fresh(w, es, size, s, false)
    decreases |es|
  {
    if es != [] {
      StaysSpent(Apply(w, es[0], size), es[1..], size, s);
    }
  }

  /** The other half: an effective advance to t <= s makes any s inside the new window acceptable, accepted or not. */
  lemma AdvanceForgets(w: Window, t: nat, size: nat, s: nat)
    requires Effective(w, t, size) && t <= s < t + size
    ensures Enabled(Apply(w, Target(t), size), Accepted(s), size)
  {
  }

  /** So at-most-once fails across an effective advance. With frame 0 lost and the base still 0, frame 6145 is accepted
      before the SKIP in frame 6144; the SKIP moves the base to 6144, and 6145 is accepted a second time. */
  lemma AcceptedTwice()
    ensures Run(Window(0, {}), [Accepted(6145), Target(6144), Accepted(6145)], 8192)
  {
    var w0 := Window(0, {});
    var w1 := Apply(w0, Accepted(6145), 8192);
    assert w1 == Window(0, {6145});
    var w2 := Apply(w1, Target(6144), 8192);
    assert w2 == Window(6144, {});
    assert Run(w2, [Accepted(6145)], 8192);
    assert [Accepted(6145), Target(6144), Accepted(6145)][1..] == [Target(6144), Accepted(6145)];
    assert [Target(6144), Accepted(6145)][1..] == [Accepted(6145)];
    assert Run(w1, [Target(6144), Accepted(6145)], 8192);
  }
}
