/** The receive windows as sets of sequence numbers: what the bitmaps refine. */
module ReplayWindow {

  /** Everything below base is dead; seen are the accepted numbers at or above it. */
  datatype Window = Window(base: nat, seen: set<nat>)

  ghost predicate Bounded(w: Window, size: nat) {
    forall s :: s in w.seen ==> w.base <= s < w.base + size
  }

  /** The slide loop: while the base itself has been accepted, move up by one. */
  function Slide(w: Window): Window
    decreases |w.seen|
  {
    if w.base in w.seen then Slide(Window(w.base + 1, w.seen - {w.base})) else w
  }

  function Accept(w: Window, s: nat): Window {
    Slide(Window(w.base, w.seen + {s}))
  }

  /** AdvanceBaseTo: an effective target empties the window, any other target changes nothing. */
  predicate Effective(w: Window, target: nat, size: nat) {
    w.base < target <= w.base + size
  }

  function Advance(w: Window, target: nat, size: nat): Window {
    if Effective(w, target, size) then Window(target, {}) else w
  }

  /** The slide stops at the least number at or above the base that has not been accepted. */
  lemma {:induction false} SlideExact(w: Window)
    requires forall s :: s in w.seen ==> w.base <= s
    ensures var v := Slide(w);
      && w.base <= v.base && v.base !in w.seen
      && (forall s :: w.base <= s < v.base ==> s in w.seen)
      && (forall s :: s in v.seen <==> s in w.seen && v.base < s)
    decreases |w.seen|
  {
    if w.base in w.seen {
      var next := Window(w.base + 1, w.seen - {w.base});
      SlideExact(next);
      forall s | w.base <= s < Slide(next).base ensures s in w.seen {
        if s > w.base {
          assert s in next.seen;
        }
      }
    }
  }

  lemma AcceptExact(w: Window, s: nat, size: nat)
    requires Bounded(w, size) && w.base <= s < w.base + size
    ensures var v := Accept(w, s);
      && Bounded(v, size) && w.base <= v.base <= w.base + size && v.base !in v.seen
      && (forall t :: w.base <= t < v.base ==> t == s || t in w.seen)
      && v.base != s && v.base !in w.seen
      && (forall t :: t in v.seen <==> (t == s || t in w.seen) && v.base < t)
  {
    var u := Window(w.base, w.seen + {s});
    SlideExact(u);
    var v := Accept(w, s);
    forall t | w.base <= t < v.base ensures t == s || t in w.seen {
      assert t in u.seen;
    }
    assert v.base <= w.base + size by {
      assert w.base + size !in u.seen;
    }
  }
}
