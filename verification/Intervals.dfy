/** The interval algebra behind the generated route lists: half-open intervals of addresses, and the whitelist as the
    complement of the cuts. */
module Intervals {

  const SPACE: int := 0x1_0000_0000

  datatype Interval = Interval(s: int, e: int)

  predicate Has(i: Interval, x: int) {
    i.s <= x < i.e
  }

  /** x lies in one of the intervals. */
  predicate Covers(list: seq<Interval>, x: int) {
    exists i :: 0 <= i < |list| && Has(list[i], x)
  }

  lemma CoversAppend(list: seq<Interval>, i: Interval, x: int)
    ensures Covers(list + [i], x) <==> Covers(list, x) || Has(i, x)
  {
    var longer := list + [i];
    if Covers(list, x) {
      var k :| 0 <= k < |list| && Has(list[k], x);
      assert Has(longer[k], x);
    }
    if Has(i, x) {
      assert Has(longer[|list|], x);
    }
  }

  // ---- sorted() ----

  /** The order of Python tuples. */
  predicate Leq(a: Interval, b: Interval) {
    a.s < b.s || (a.s == b.s && a.e <= b.e)
  }

  predicate Ascending(list: seq<Interval>) {
    forall i, j :: 0 <= i < j < |list| ==> Leq(list[i], list[j])
  }

  predicate AscendingStarts(list: seq<Interval>) {
    forall i, j :: 0 <= i < j < |list| ==> list[i].s <= list[j].s
  }

  function Insert(list: seq<Interval>, i: Interval): (r: seq<Interval>)
    ensures multiset(r) == multiset(list) + multiset{i}
  {
    if list == [] || Leq(i, list[0]) then [i] + list
    else
      assert list == [list[0]] + list[1..];
      [list[0]] + Insert(list[1..], i)
  }

  /** sorted(list): the one ascending permutation. */
  function Sorted(list: seq<Interval>): (r: seq<Interval>)
    ensures multiset(r) == multiset(list)
  {
    if list == [] then []
    else
      assert list == [list[0]] + list[1..];
      Insert(Sorted(list[1..]), list[0])
  }

  lemma {:induction false} InsertAscends(list: seq<Interval>, i: Interval)
    requires Ascending(list)
    ensures Ascending(Insert(list, i))
  {
    if list != [] && !Leq(i, list[0]) {
      var rest := Insert(list[1..], i);
      InsertAscends(list[1..], i);
      forall x | x in rest ensures Leq(list[0], x) {
        assert x in multiset(rest);
        assert x in list[1..] || x == i;
      }
    }
  }

  lemma {:induction false} SortedAscends(list: seq<Interval>)
    ensures Ascending(Sorted(list))
  {
    if list != [] {
      SortedAscends(list[1..]);
      InsertAscends(Sorted(list[1..]), list[0]);
    }
  }

  lemma SameCover(a: seq<Interval>, b: seq<Interval>, x: int)
    requires multiset(a) == multiset(b)
    ensures Covers(a, x) <==> Covers(b, x)
  {
    CoverMoves(a, b, x);
    CoverMoves(b, a, x);
  }

  lemma CoverMoves(a: seq<Interval>, b: seq<Interval>, x: int)
    requires multiset(a) == multiset(b)
    ensures Covers(a, x) ==> Covers(b, x)
  {
    if Covers(a, x) {
      var k :| 0 <= k < |a| && Has(a[k], x);
      assert a[k] in multiset(b);
    }
  }

  // ---- merge ----

  /** A gap of at least one address before every interval but the first. */
  predicate Gapped(list: seq<Interval>) {
    forall i :: 0 < i < |list| ==> list[i - 1].e < list[i].s
  }

  predicate Proper(list: seq<Interval>) {
    forall i :: 0 <= i < |list| ==> list[i].s < list[i].e
  }

  /** The canonical lists: no empty interval, and a gap between any two neighbours. */
  predicate Canonical(list: seq<Interval>) {
    Gapped(list) && Proper(list)
  }

  /** Extending the last interval by one that starts inside it or right at its end. */
  lemma CoversExtended(list: seq<Interval>, i: Interval, r: seq<Interval>)
    requires list != [] && list[|list| - 1].s <= i.s <= list[|list| - 1].e
    requires var last := list[|list| - 1];
      r == list[..|list| - 1] + [Interval(last.s, if i.e > last.e then i.e else last.e)]
    ensures forall x :: Covers(r, x) <==> Covers(list, x) || Has(i, x)
  {
    var front, last := list[..|list| - 1], list[|list| - 1];
    assert list == front + [last];
    forall x ensures Covers(r, x) <==> Covers(list, x) || Has(i, x) {
      CoversAppend(front, last, x);
      CoversAppend(front, r[|r| - 1], x);
    }
  }

  /** merge: the same addresses in intervals with gaps between them, whatever the input. */
  method Merge(intervals: seq<Interval>) returns (out: seq<Interval>)
    ensures forall x :: Covers(out, x) <==> Covers(intervals, x)
    ensures Gapped(out)
    ensures Proper(intervals) ==> Canonical(out)
  {
    hide Sorted;
    out := [];
    var list := Sorted(intervals);
    SortedAscends(intervals);
    assert Proper(intervals) ==> Proper(list) by {
      assert forall i :: i in multiset(list) ==> i in multiset(intervals);
      assert forall k :: 0 <= k < |list| ==> list[k] in multiset(list);
    }
    for k := 0 to |list|
      invariant forall x :: Covers(out, x) <==> Covers(list[..k], x)
      invariant Gapped(out) && (Proper(list) ==> Proper(out))
      invariant out == [] <==> k == 0
      invariant k > 0 ==> out[|out| - 1].s <= list[k - 1].s
    {
      var i := list[k];
      ghost var before := out;
      assert list[..k + 1] == list[..k] + [i];
      if out != [] && i.s <= out[|out| - 1].e {
        var last := out[|out| - 1];
        out := out[..|out| - 1] + [Interval(last.s, if i.e > last.e then i.e else last.e)];
        CoversExtended(before, i, out);
      } else {
        out := out + [i];
      }
      forall x ensures Covers(out, x) <==> Covers(list[..k + 1], x) {
        CoversAppend(before, i, x);
        CoversAppend(list[..k], i, x);
      }
    }
    forall x ensures Covers(out, x) <==> Covers(intervals, x) {
      assert list[..|list|] == list;
      SameCover(list, intervals, x);
    }
  }

  lemma {:induction false} CanonicalFarApart(list: seq<Interval>, i: nat, j: nat)
    requires Canonical(list) && i < j < |list|
    ensures list[i].e < list[j].s
  {
    if i + 1 < j {
      CanonicalFarApart(list, i, j - 1);
    }
  }

  /** The first address of a canonical list, and the first address after it that is missing. */
  lemma FirstInterval(list: seq<Interval>)
    requires Canonical(list) && list != []
    ensures Covers(list, list[0].s) && !Covers(list, list[0].e)
    ensures forall x :: Covers(list, x) ==> list[0].s <= x
    ensures forall x :: list[0].s <= x < list[0].e ==> Covers(list, x)
    ensures forall x :: Covers(list[1..], x) <==> Covers(list, x) && x >= list[0].e
  {
    forall j | 0 < j < |list| ensures list[0].e < list[j].s {
      CanonicalFarApart(list, 0, j);
    }
    assert Has(list[0], list[0].s);
    forall x | Covers(list[1..], x) ensures Covers(list, x) && x >= list[0].e {
      var j :| 0 <= j < |list[1..]| && Has(list[1..][j], x);
      assert Has(list[j + 1], x);
    }
    forall x | Covers(list, x) && x >= list[0].e ensures Covers(list[1..], x) {
      var j :| 0 <= j < |list| && Has(list[j], x);
      assert Has(list[1..][j - 1], x);
    }
  }

  /** A set of addresses has one canonical list, so merging twice, or in another order, changes nothing. */
  lemma {:induction false} CanonicalIsUnique(a: seq<Interval>, b: seq<Interval>)
    requires Canonical(a) && Canonical(b)
    requires forall x :: Covers(a, x) <==> Covers(b, x)
    ensures a == b
  {
    if a == [] {
      if b != [] {
        FirstInterval(b);
      }
    } else {
      FirstInterval(a);
      assert Covers(b, a[0].s);
      FirstInterval(b);
      assert Covers(a, b[0].s);
      assert a[0].s == b[0].s;
      assert a[0].e == b[0].e;
      CanonicalIsUnique(a[1..], b[1..]);
      assert a == [a[0]] + a[1..] && b == [b[0]] + b[1..];
    }
  }

  // ---- subtract ----

  /** What the walk over the cuts has established for one base interval [s, e) when it stands at cur. */
  ghost predicate Carved(out: seq<Interval>, before: seq<Interval>, cuts: seq<Interval>, k: nat, i: Interval, cur: int)
    requires k <= |cuts|
  {
    && i.s <= cur
    && (forall x :: Covers(out, x) <==> Covers(before, x) || (Has(i, x) && x < cur && !Covers(cuts, x)))
    && (forall x, c :: cur <= x && 0 <= c < k ==> !Has(cuts[c], x))
  }

  /** One base interval. */
  method Carve(out0: seq<Interval>, i: Interval, cuts: seq<Interval>) returns (out: seq<Interval>)
    requires AscendingStarts(cuts)
    ensures forall x :: Covers(out, x) <==> Covers(out0, x) || (Has(i, x) && !Covers(cuts, x))
  {
    out := out0;
    var cur := i.s;
    var k := 0;
    while k < |cuts|
      invariant k <= |cuts| && Carved(out, out0, cuts, k, i, cur)
    {
      var c := cuts[k];
      if c.e <= cur {
        k := k + 1;
        continue;
      }
      if c.s >= i.e {
        break;
      }
      if c.s > cur {
        CarveGap(out, out0, cuts, k, i, cur);
        out := out + [Interval(cur, c.s)];
        cur := c.s;
      }
      CarveCut(out, out0, cuts, k, i, cur);
      cur := if cur > c.e then cur else c.e;
      k := k + 1;
      if cur >= i.e {
        break;
      }
    }
    if cur < i.e {
      CarveRest(out, out0, cuts, k, i, cur);
      out := out + [Interval(cur, i.e)];
    } else {
      assert forall x :: Has(i, x) ==> x < cur;
    }
  }

  lemma CarveGap(out: seq<Interval>, before: seq<Interval>, cuts: seq<Interval>, k: nat, i: Interval, cur: int)
    requires AscendingStarts(cuts) && k < |cuts| && Carved(out, before, cuts, k, i, cur)
    requires cur < cuts[k].s < i.e
    ensures Carved(out + [Interval(cur, cuts[k].s)], before, cuts, k, i, cuts[k].s)
  {
    forall x | cur <= x < cuts[k].s ensures !Covers(cuts, x) {
      forall c | 0 <= c < |cuts| ensures !Has(cuts[c], x) {
        assert c >= k ==> cuts[k].s <= cuts[c].s;
      }
    }
    forall x ensures Covers(out + [Interval(cur, cuts[k].s)], x) <==> Covers(out, x) || cur <= x < cuts[k].s {
      CoversAppend(out, Interval(cur, cuts[k].s), x);
    }
  }

  lemma CarveCut(out: seq<Interval>, before: seq<Interval>, cuts: seq<Interval>, k: nat, i: Interval, cur: int)
    requires k < |cuts| && Carved(out, before, cuts, k, i, cur) && cuts[k].s <= cur
    ensures Carved(out, before, cuts, k + 1, i, if cur > cuts[k].e then cur else cuts[k].e)
  {
    assert forall x :: cur <= x < cuts[k].e ==> Has(cuts[k], x);
  }

  lemma CarveRest(out: seq<Interval>, before: seq<Interval>, cuts: seq<Interval>, k: nat, i: Interval, cur: int)
    requires AscendingStarts(cuts) && k <= |cuts| && Carved(out, before, cuts, k, i, cur) && cur < i.e
    requires k < |cuts| ==> cuts[k].s >= i.e
    ensures forall x :: Covers(out + [Interval(cur, i.e)], x) <==> Covers(before, x) || (Has(i, x) && !Covers(cuts, x))
  {
    forall x | cur <= x < i.e ensures !Covers(cuts, x) {
      forall c | 0 <= c < |cuts| ensures !Has(cuts[c], x) {
        assert c >= k ==> cuts[k].s <= cuts[c].s;
      }
    }
    forall x ensures Covers(out + [Interval(cur, i.e)], x) <==> Covers(before, x) || (Has(i, x) && !Covers(cuts, x)) {
      CoversAppend(out, Interval(cur, i.e), x);
    }
  }

  /** subtract: exact set difference, for cuts in ascending order of their starts. */
  method Subtract(base: seq<Interval>, cuts: seq<Interval>) returns (r: seq<Interval>)
    requires AscendingStarts(cuts)
    ensures forall x :: Covers(r, x) <==> Covers(base, x) && !Covers(cuts, x)
    ensures Gapped(r)
  {
    var out := [];
    for k := 0 to |base|
      invariant forall x :: Covers(out, x) <==> Covers(base[..k], x) && !Covers(cuts, x)
    {
      ghost var before := out;
      out := Carve(out, base[k], cuts);
      assert base[..k + 1] == base[..k] + [base[k]];
      forall x ensures Covers(out, x) <==> Covers(base[..k + 1], x) && !Covers(cuts, x) {
        CoversAppend(base[..k], base[k], x);
      }
    }
    assert base[..|base|] == base;
    r := Merge(out);
  }

  lemma CanonicalAscends(list: seq<Interval>)
    requires Canonical(list)
    ensures AscendingStarts(list)
  {
    forall i, j | 0 <= i < j < |list| ensures list[i].s <= list[j].s {
      CanonicalFarApart(list, i, j);
    }
  }

  /** The whitelist of main: the merged cuts and the whitelist split the address space, and both are canonical. */
  method Whitelist(cn: seq<Interval>, reserved: seq<Interval>) returns (cuts: seq<Interval>, allow: seq<Interval>)
    requires Proper(cn) && Proper(reserved)
    ensures Canonical(cuts) && Gapped(allow)
    ensures forall x :: Covers(cuts, x) <==> Covers(cn, x) || Covers(reserved, x)
    ensures forall x :: 0 <= x < SPACE ==> (Covers(allow, x) <==> !Covers(cuts, x))
    ensures forall x :: Covers(allow, x) ==> 0 <= x < SPACE
  {
    assert Proper(cn + reserved);
    cuts := Merge(cn + reserved);
    forall x ensures Covers(cn + reserved, x) <==> Covers(cn, x) || Covers(reserved, x) {
      CoversBoth(cn, reserved, x);
    }
    CanonicalAscends(cuts);
    var full := [Interval(0, SPACE)];
    assert forall x :: Covers(full, x) <==> 0 <= x < SPACE by {
      forall x ensures Covers(full, x) <==> 0 <= x < SPACE {
        assert Has(full[0], x) <==> 0 <= x < SPACE;
      }
    }
    allow := Subtract(full, cuts);
  }

  lemma CoversBoth(a: seq<Interval>, b: seq<Interval>, x: int)
    ensures Covers(a + b, x) <==> Covers(a, x) || Covers(b, x)
  {
    var both := a + b;
    if Covers(a, x) {
      var k :| 0 <= k < |a| && Has(a[k], x);
      assert Has(both[k], x);
    }
    if Covers(b, x) {
      var k :| 0 <= k < |b| && Has(b[k], x);
      assert Has(both[|a| + k], x);
    }
  }
}
