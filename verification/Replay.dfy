/** The replay table of first handshake datagrams and knocks, in memory. Keys stand for SHA-256 digests and times are
    nanoseconds read from a clock. */
module Replay {

  const REPLAY_CACHE_MAX: nat := 65536
  const REPLAY_CACHE_TTL: nat := 3_600_000_000_000

  type Key = nat

  /** One call of Seen that let its key pass: when, and whether the key was stored (the table fails open when full). */
  datatype Pass = Pass(key: Key, time: int, stored: bool)

  /** a and b let the same key pass although a was stored and still fresh when b came. */
  predicate Overlaps(a: Pass, b: Pass) {
    a.key == b.key && a.stored && b.time < a.time + REPLAY_CACHE_TTL
  }

  ghost predicate NoOverlap(passed: seq<Pass>) {
    forall i, j :: 0 <= i < j < |passed| ==> !Overlaps(passed[i], passed[j])
  }

  /** A stored pass that is still fresh is in the table with its expiry or a later one. */
  predicate Remembered(p: Pass, m: map<Key, int>, now: int) {
    p.stored && now < p.time + REPLAY_CACHE_TTL ==> p.key in m && p.time + REPLAY_CACHE_TTL <= m[p.key]
  }

  lemma NoOverlapAppend(passed: seq<Pass>, p: Pass)
    requires NoOverlap(passed) && forall q :: q in passed ==> !Overlaps(q, p)
    ensures NoOverlap(passed + [p])
  {
  }

  /** Time passing, and a sweep, forget no fresh pass. */
  lemma StillRemembered(passed: seq<Pass>, before: map<Key, int>, after: map<Key, int>, clock: int, now: int)
    requires clock <= now && forall p :: p in passed ==> p.time <= clock && Remembered(p, before, clock)
    requires after == before || after == Swept(before, now)
    ensures forall p :: p in passed ==> p.time <= now && Remembered(p, after, now)
  {
  }

  /** A key that is not stored and fresh overlaps no earlier pass. */
  lemma FreshKeyFits(passed: seq<Pass>, m: map<Key, int>, p: Pass)
    requires forall q :: q in passed ==> q.time <= p.time && Remembered(q, m, p.time)
    requires p.key in m ==> m[p.key] <= p.time
    ensures forall q :: q in passed ==> !Overlaps(q, p)
  {
  }

  /** The entries of a table that have not expired. */
  function Swept(m: map<Key, int>, now: int): map<Key, int> {
    map k | k in m && now < m[k] :: m[k]
  }

  class ReplayCache {
    var m: map<Key, int>          // key -> expiry
    ghost var passed: seq<Pass>   // every call that returned false, oldest first
    ghost var clock: int          // the latest time a call was made at

    /** Every stored pass that is still fresh is in the table, and no fresh stored pass was ever followed by another
        pass of its key. */
    ghost predicate Valid()
      reads this
    {
      && |m| <= REPLAY_CACHE_MAX
      && (forall p :: p in passed ==> p.time <= clock && Remembered(p, m, clock))
      && NoOverlap(passed)
    }

    constructor ()
      ensures Valid() && m == map[] && passed == []
    {
      m, passed, clock := map[], [], 0;
    }

    /** sweepLocked: delete the expired entries. */
    method Sweep(now: int)
      modifies this`m
      ensures m == Swept(old(m), now)
    {
      var keys := m.Keys;
      while keys != {}
        invariant keys <= old(m).Keys
        invariant forall k :: k in m <==> k in old(m) && (k in keys || now < old(m)[k])
        invariant forall k :: k in m ==> m[k] == old(m)[k]
        decreases |keys|
      {
        var k :| k in keys;
        keys := keys - {k};
        if now >= m[k] {
          m := m - {k};
        }
      }
    }

    /** seen: refuse a key that is stored and fresh; otherwise let it pass and store it, unless the table stays full
        after a sweep. On every run of calls with a monotone clock the table keeps its bound, and a key that was
        stored passes again only after its time to live. */
    method Seen(key: Key, now: int) returns (r: bool)
      requires Valid() && clock <= now
      modifies this
      ensures Valid() && clock == now
      ensures r <==> key in old(m) && now < old(m)[key]
      ensures forall k :: k in old(m) && k != key && now < old(m)[k] ==> k in m && m[k] == old(m)[k]
      ensures r ==> m == old(m) && passed == old(passed)
      ensures !r ==> |passed| == |old(passed)| + 1 && passed[..|old(passed)|] == old(passed)
      ensures !r ==> var p := passed[|old(passed)|];
        && p == Pass(key, now, p.stored)
        && (if p.stored then key in m && m[key] == now + REPLAY_CACHE_TTL
            else |m| >= REPLAY_CACHE_MAX && forall k :: k in m ==> now < m[k])
    {
      clock := now;
      if key in m && now < m[key] {
        return true;
      }
      if |m| >= REPLAY_CACHE_MAX {
        ghost var before := m;
        Sweep(now);
        SweptSize(before, now);
      }
      var full := |m| >= REPLAY_CACHE_MAX;
      ghost var p := Pass(key, now, !full);
      StillRemembered(passed, old(m), m, old(clock), now);
      FreshKeyFits(passed, m, p);
      NoOverlapAppend(passed, p);
      passed := passed + [p];
      if full {
        return false;
      }
      m := m[key := now + REPLAY_CACHE_TTL];
      return false;
    }
  }

  lemma SweptSize(m: map<Key, int>, now: int)
    ensures |Swept(m, now)| <= |m|
  {
    SubsetSize(Swept(m, now).Keys, m.Keys);
  }

  lemma {:induction false} SubsetSize<T>(a: set<T>, b: set<T>)
    requires a <= b
    ensures |a| <= |b|
    decreases a
  {
    if a != {} {
      var x :| x in a;
      SubsetSize(a - {x}, b - {x});
    }
  }
}
