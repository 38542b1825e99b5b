/** The byte-rate limiter of one session, over exact numbers instead of floating point and a monotone clock. */
module TokenBucket {

  datatype Bucket = Bucket(rate: real, capacity: real, tokens: real, last: real)

  predicate Sane(b: Bucket) {
    0.0 < b.rate <= b.capacity && 0.0 <= b.tokens <= b.capacity
  }

  function Min(a: real, b: real): real {
    if a < b then a else b
  }

  /** What an interval of time earns. */
  function Earned(rate: real, from: real, to: real): real {
    (to - from) * rate
  }

  lemma EarnedIs(rate: real, a: real, b: real)
    ensures Earned(rate, a, b) == rate * (b - a)
  {
  }

  lemma EarnedAdds(rate: real, a: real, b: real, c: real)
    ensures Earned(rate, a, c) == Earned(rate, a, b) + Earned(rate, b, c)
    ensures Earned(rate, a, a) == 0.0
  {
  }

  lemma EarnedPositive(rate: real, a: real, b: real)
    requires rate > 0.0 && a <= b
    ensures Earned(rate, a, b) >= 0.0
  {
  }

  /** The tokens available at time now. */
  function Available(b: Bucket, now: real): real {
    Min(b.tokens + Earned(b.rate, b.last, now), b.capacity)
  }

  /** take, on values. */
  function Taken(b: Bucket, n: nat, now: real): (Bucket, bool) {
    var have := Available(b, now);
    if have < n as real then (b.(tokens := have, last := now), false)
    else (b.(tokens := have - n as real, last := now), true)
  }

  class Limiter {
    const rate: real
    const capacity: real
    var tokens: real
    var last: real

    ghost function State(): Bucket
      reads this
    {
      Bucket(rate, capacity, tokens, last)
    }

    /** newTokenBucket for a positive rate: the burst is at least one second of traffic, and the bucket starts full. */
    constructor (bytesPerSec: nat, burst: int, now: real)
      requires bytesPerSec > 0
      ensures Sane(State()) && tokens == capacity && last == now && rate == bytesPerSec as real
      ensures capacity == if burst >= bytesPerSec then burst as real else bytesPerSec as real
    {
      var cap := burst as real;
      if cap <= 0.0 || cap < bytesPerSec as real {
        cap := bytesPerSec as real;
      }
      rate, capacity, tokens, last := bytesPerSec as real, cap, cap, now;
    }

    /** take: refill for the time passed, up to the capacity, then spend n tokens if there are as many. */
    method Take(n: nat, now: real) returns (ok: bool)
      modifies this
      ensures ok <==> n as real <= capacity && n as real <= old(tokens) + rate * (now - old(last))
      ensures ok && old(tokens) + rate * (now - old(last)) <= capacity ==>
        tokens == old(tokens) + rate * (now - old(last)) - n as real
      ensures ok && old(tokens) + rate * (now - old(last)) > capacity ==> tokens == capacity - n as real
      ensures last == now
      ensures (State(), ok) == Taken(old(State()), n, now)
    {
      TakeScalars(rate, capacity, tokens, last, n, now);
      hide Earned;
      tokens := tokens + Earned(rate, last, now);
      if tokens > capacity {
        tokens := capacity;
      }
      last := now;
      ok := tokens >= n as real;
      if ok {
        tokens := tokens - n as real;
      }
    }
  }

  /** One request: how many bytes, when. */
  datatype Request = Request(bytes: nat, time: real)

  ghost predicate InOrder(b: Bucket, run: seq<Request>)
    decreases |run|
  {
    run == [] || (b.last <= run[0].time && InOrder(Taken(b, run[0].bytes, run[0].time).0, run[1..]))
  }

  function After(b: Bucket, run: seq<Request>): Bucket
    decreases |run|
  {
    if run == [] then b else After(Taken(b, run[0].bytes, run[0].time).0, run[1..])
  }

  /** The bytes let through. */
  function Admitted(b: Bucket, run: seq<Request>): nat
    decreases |run|
  {
    if run == [] then 0 else
      var (next, ok) := Taken(b, run[0].bytes, run[0].time);
      (if ok then run[0].bytes else 0) + Admitted(next, run[1..])
  }

  lemma TakeScalars(rate: real, capacity: real, tokens: real, last: real, n: nat, now: real)
    ensures var (c, ok) := Taken(Bucket(rate, capacity, tokens, last), n, now);
      && (ok <==> n as real <= capacity && n as real <= tokens + rate * (now - last))
      && (ok && tokens + rate * (now - last) <= capacity ==> c.tokens == tokens + rate * (now - last) - n as real)
      && (ok && tokens + rate * (now - last) > capacity ==> c.tokens == capacity - n as real)
  {
    EarnedIs(rate, last, now);
    hide Earned;
  }

  /** take on values, told without its parts: the request passes if and only if it is within the capacity and within
      what there was plus what the time since the last request has earned. */
  lemma TakenExact(b: Bucket, n: nat, now: real)
    ensures var (c, ok) := Taken(b, n, now);
      var earned := b.tokens + b.rate * (now - b.last);
      && (ok <==> n as real <= b.capacity && n as real <= earned)
      && c == b.(tokens := (if earned < b.capacity then earned else b.capacity) - (if ok then n as real else 0.0),
                 last := now)
  {
    EarnedIs(b.rate, b.last, now);
    hide Earned;
  }

  lemma TakeConserves(b: Bucket, n: nat, now: real)
    requires Sane(b) && b.last <= now
    ensures var (c, ok) := Taken(b, n, now);
      && Sane(c) && c.rate == b.rate && c.capacity == b.capacity && c.last == now
      && c.tokens + (if ok then n as real else 0.0) <= b.tokens + Earned(b.rate, b.last, now)
      && (!ok <==> Available(b, now) < n as real)
  {
    EarnedPositive(b.rate, b.last, now);
    hide Earned;
  }

  lemma {:induction false} RunConserves(b: Bucket, run: seq<Request>)
    requires Sane(b) && InOrder(b, run)
    ensures var c := After(b, run);
      && Sane(c) && c.rate == b.rate && c.capacity == b.capacity && b.last <= c.last
      && c.tokens + Admitted(b, run) as real <= b.tokens + Earned(b.rate, b.last, c.last)
    decreases |run|
  {
    EarnedAdds(b.rate, b.last, b.last, b.last);
    hide Earned, Taken;
    if run != [] {
      TakeConserves(b, run[0].bytes, run[0].time);
      var (next, ok) := Taken(b, run[0].bytes, run[0].time);
      RunConserves(next, run[1..]);
      var c := After(b, run);
      EarnedAdds(b.rate, b.last, next.last, c.last);
    }
  }

  /** Conservation: on every run, what is let through plus what is left never exceeds what was there plus the rate times
      the time that has passed, and the tokens stay between nothing and the capacity. */
  lemma Conservation(b: Bucket, run: seq<Request>)
    requires Sane(b) && InOrder(b, run)
    ensures var c := After(b, run);
      && Sane(c) && c.rate == b.rate && c.capacity == b.capacity && b.last <= c.last
      && c.tokens + Admitted(b, run) as real <= b.tokens + b.rate * (c.last - b.last)
  {
    hide Earned, Taken, After, Admitted, InOrder, Sane;
    RunConserves(b, run);
    EarnedIs(b.rate, b.last, After(b, run).last);
  }

  lemma {:induction false} AfterSplit(b: Bucket, first: seq<Request>, rest: seq<Request>)
    requires InOrder(b, first + rest)
    ensures InOrder(b, first) && InOrder(After(b, first), rest)
    decreases |first|
  {
    if first == [] {
      assert first + rest == rest;
    } else {
      assert (first + rest)[1..] == first[1..] + rest;
      AfterSplit(Taken(b, first[0].bytes, first[0].time).0, first[1..], rest);
    }
  }

  /** The rate bound: over any stretch of any run the bytes admitted are at most the capacity plus the rate times the
      time that stretch took. */
  lemma RateBound(b: Bucket, before: seq<Request>, stretch: seq<Request>)
    requires Sane(b) && InOrder(b, before + stretch)
    ensures var c := After(b, before);
      Admitted(c, stretch) as real <= b.capacity + b.rate * (After(c, stretch).last - c.last)
  {
    hide Earned, Taken, After, Admitted, InOrder;
    AfterSplit(b, before, stretch);
    var c := After(b, before);
    RunConserves(b, before);
    RunConserves(c, stretch);
    EarnedIs(b.rate, c.last, After(c, stretch).last);
  }

  /** What one more request adds to a run. */
  lemma {:induction false} OneMore(b: Bucket, run: seq<Request>, r: Request)
    ensures var c := After(b, run);
      var passes := r.bytes as real <= c.capacity && r.bytes as real <= c.tokens + c.rate * (r.time - c.last);
      && Admitted(b, run + [r]) == Admitted(b, run) + (if passes then r.bytes else 0)
      && After(b, run + [r]).last == r.time
    decreases |run|
  {
    hide Taken;
    if run == [] {
      TakenExact(b, r.bytes, r.time);
      assert run + [r] == [r] && [r][1..] == [];
    } else {
      assert (run + [r])[1..] == run[1..] + [r];
      OneMore(Taken(b, run[0].bytes, run[0].time).0, run[1..], r);
    }
  }
}
