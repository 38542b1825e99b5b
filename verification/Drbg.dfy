/** The deterministic randomness source of the generator, and the samplers drawn from it. HMAC-SHA256 is foreign code:
    any function with 32-byte results. */
module Drbg {
  import opened Bytes
  import opened Words

  const BLOCK_LEN: nat := 32

  /** hmac(key, message) */
  type Hmac = (Bytes, Bytes) -> Bytes

  ghost predicate Fits(hmac: Hmac) {
    forall k: Bytes, m: Bytes :: |hmac(k, m)| == BLOCK_LEN
  }

  /** The working state between blocks. */
  datatype Core = Core(k: Bytes, v: Bytes)

  /** update */
  function Update(hmac: Hmac, c: Core, provided: Bytes): Core {
    var k := hmac(c.k, c.v + [0] + provided);
    Core(k, hmac(k, c.v))
  }

  /** block: the next 32 bytes and the state after them. */
  function Block(hmac: Hmac, c: Core): (Bytes, Core) {
    var v := hmac(c.k, c.v);
    (v, Update(hmac, Core(c.k, v), []))
  }

  /** The first n blocks a state yields. */
  function Blocks(hmac: Hmac, c: Core, n: nat): Bytes
    decreases n
  {
    if n == 0 then [] else
      var (b, next) := Block(hmac, c);
      b + Blocks(hmac, next, n - 1)
  }

  function CoreAfter(hmac: Hmac, c: Core, n: nat): Core
    decreases n
  {
    if n == 0 then c else CoreAfter(hmac, Block(hmac, c).1, n - 1)
  }

  lemma {:induction false} BlocksLength(hmac: Hmac, c: Core, n: nat)
    requires Fits(hmac)
    ensures |Blocks(hmac, c, n)| == BLOCK_LEN * n
    decreases n
  {
    if n > 0 { BlocksLength(hmac, Block(hmac, c).1, n - 1); }
  }

  lemma {:induction false} BlocksSplit(hmac: Hmac, c: Core, m: nat, n: nat)
    ensures Blocks(hmac, c, m + n) == Blocks(hmac, c, m) + Blocks(hmac, CoreAfter(hmac, c, m), n)
    ensures CoreAfter(hmac, c, m + n) == CoreAfter(hmac, CoreAfter(hmac, c, m), n)
    decreases m
  {
    if m > 0 { BlocksSplit(hmac, Block(hmac, c).1, m - 1, n); }
  }

  /** The first n bytes a source yields: its buffer, then as many blocks as that takes. */
  function Stream(hmac: Hmac, c: Core, buf: Bytes, n: nat): Bytes {
    var all := buf + Blocks(hmac, c, n);
    if n <= |all| then all[..n] else all
  }

  class Rand {
    const hmac: Hmac
    var k: Bytes
    var v: Bytes
    var buf: Bytes

    constructor (hmac: Hmac, seed: Bytes, domain: Bytes)
      requires Fits(hmac)
      ensures this.hmac == hmac && buf == []
      ensures Core(k, v) == Update(hmac, Core(seq(32, _ => 0), seq(32, _ => 1)), domain + [0] + seed)
    {
      this.hmac := hmac;
      var c := Update(hmac, Core(seq(32, _ => 0), seq(32, _ => 1)), domain + [0] + seed);
      k, v, buf := c.k, c.v, [];
    }

    method NextBlock()
      modifies this
      ensures Core(k, v) == Block(hmac, Core(old(k), old(v))).1
      ensures buf == old(buf) + Block(hmac, Core(old(k), old(v))).0
    {
      v := hmac(k, v);
      var out := v;
      k := hmac(k, v + [0] + []);
      assert v + [0] + [] == v + [0];
      v := hmac(k, v);
      buf := buf + out;
    }

    /** Read: the source is one stream, however it is read. The bytes returned are the next n of the stream, and what
        is left yields exactly the rest of it. */
    method Read(n: nat) returns (p: Bytes)
      requires Fits(hmac)
      modifies this
      ensures |p| == n && p == Stream(hmac, Core(old(k), old(v)), old(buf), n)
      ensures forall m: nat ::
        Stream(hmac, Core(old(k), old(v)), old(buf), n + m) == p + Stream(hmac, Core(k, v), buf, m)
    {
      ghost var c0, buf0 := Core(k, v), buf;
      ghost var made: nat := 0;
      while |buf| < n
        invariant buf == buf0 + Blocks(hmac, c0, made) && Core(k, v) == CoreAfter(hmac, c0, made)
        invariant made == 0 || |buf| - BLOCK_LEN < n
        decreases n - |buf|
      {
        BlocksSplit(hmac, c0, made, 1);
        ghost var c := Core(k, v);
        assert Blocks(hmac, c, 1) == Block(hmac, c).0 + Blocks(hmac, Block(hmac, c).1, 0) == Block(hmac, c).0;
        assert CoreAfter(hmac, c, 1) == CoreAfter(hmac, Block(hmac, c).1, 0) == Block(hmac, c).1;
        ghost var was := buf;
        NextBlock();
        assert buf == buf0 + (Blocks(hmac, c0, made) + Blocks(hmac, c, 1));
        made := made + 1;
      }
      p := buf[..n];
      ghost var left := buf[n..];
      ReadIsStream(hmac, c0, buf0, made, n);
      buf := buf[n..];
    }
  }

  /** After `made` blocks the buffer and the state hold the stream; cutting n bytes off leaves the rest. */
  lemma ReadIsStream(hmac: Hmac, c: Core, buf0: Bytes, made: nat, n: nat)
    requires Fits(hmac) && n <= |buf0 + Blocks(hmac, c, made)|
    ensures var all := buf0 + Blocks(hmac, c, made);
      && Stream(hmac, c, buf0, n) == all[..n]
      && forall m: nat :: Stream(hmac, c, buf0, n + m) == all[..n] + Stream(hmac, CoreAfter(hmac, c, made), all[n..], m)
  {
    hide Stream, Blocks, CoreAfter;
    StreamOfMore(hmac, c, buf0, n, made);
    forall m: nat {
      ReadLeavesRest(hmac, c, buf0, made, n, m);
    }
  }

  lemma ReadLeavesRest(hmac: Hmac, c: Core, buf0: Bytes, made: nat, n: nat, m: nat)
    requires Fits(hmac) && n <= |buf0 + Blocks(hmac, c, made)|
    ensures var all := buf0 + Blocks(hmac, c, made);
      Stream(hmac, c, buf0, n + m) == all[..n] + Stream(hmac, CoreAfter(hmac, c, made), all[n..], m)
  {
    hide Blocks, CoreAfter;
    var all := buf0 + Blocks(hmac, c, made);
    BlocksSplit(hmac, c, made, m);
    BlocksLength(hmac, CoreAfter(hmac, c, made), m);
    var more := Blocks(hmac, CoreAfter(hmac, c, made), m);
    assert buf0 + Blocks(hmac, c, made + m) == all + more;
    StreamOfMore(hmac, c, buf0, n + m, made + m);
    PrefixSplits(all, more, n, m);
  }

  lemma PrefixSplits(all: Bytes, more: Bytes, n: nat, m: nat)
    requires n <= |all| && m <= |all[n..]| + |more|
    ensures (all + more)[..n + m] == all[..n] + (all[n..] + more)[..m]
  {
  }

  /** Any number of blocks that covers n bytes gives the same first n bytes. */
  lemma StreamOfMore(hmac: Hmac, c: Core, buf: Bytes, n: nat, blocks: nat)
    requires Fits(hmac) && n <= |buf + Blocks(hmac, c, blocks)|
    ensures Stream(hmac, c, buf, n) == (buf + Blocks(hmac, c, blocks))[..n]
  {
    hide Blocks, CoreAfter;
    BlocksLength(hmac, c, n);
    if blocks <= n {
      BlocksSplit(hmac, c, blocks, n - blocks);
      SamePrefix(buf, Blocks(hmac, c, blocks), Blocks(hmac, CoreAfter(hmac, c, blocks), n - blocks), n);
    } else {
      BlocksSplit(hmac, c, n, blocks - n);
      SamePrefix(buf, Blocks(hmac, c, n), Blocks(hmac, CoreAfter(hmac, c, n), blocks - n), n);
    }
  }

  lemma SamePrefix(a: Bytes, b: Bytes, c: Bytes, n: nat)
    requires n <= |a + b|
    ensures (a + (b + c))[..n] == (a + b)[..n]
  {
  }

  // ---- Intn ----

  /** m is 2^k - 1 for some k >= 1. */
  ghost predicate IsMask(m: nat) {
    exists k: nat :: k >= 1 && m + 1 == Pow2(k)
  }

  /** The mask loop of Intn: the least 2^k - 1, k at least 1, that covers n - 1. */
  method IntnMask(n: nat) returns (mask: nat)
    requires n > 0
    ensures IsMask(mask) && n - 1 <= mask
    ensures forall m: nat :: IsMask(m) && n - 1 <= m ==> mask <= m
  {
    mask := 1;
    ghost var k: nat := 1;
    assert Pow2(1) == 2 * Pow2(0);
    while mask < n - 1
      invariant k >= 1 && mask + 1 == Pow2(k)
      invariant k == 1 || (mask - 1) / 2 < n - 1
      decreases n - mask
    {
      mask := 2 * mask + 1;
      k := k + 1;
    }
    forall m: nat | IsMask(m) && n - 1 <= m ensures mask <= m {
      var j: nat :| j >= 1 && m + 1 == Pow2(j);
      if j < k {
        Pow2Monotone(j, k - 1);
      } else {
        Pow2Monotone(k, j);
      }
    }
  }

  lemma {:induction false} Pow2Monotone(i: nat, j: nat)
    requires i <= j
    ensures Pow2(i) <= Pow2(j)
  {
    if i < j { Pow2Monotone(i, j - 1); }
  }

  /** Intn over a sequence of raw 64-bit draws: masked rejection sampling. The loop has no bound of its own; it ends
      because some draw, here the one at `hit`, is accepted. The result is the first accepted draw, masked. */
  method Intn(n: nat, draws: seq<nat>, ghost hit: nat) returns (x: nat, used: nat)
    requires n > 0
    requires hit < |draws| && forall mask: nat :: IsLeastMask(n, mask) ==> draws[hit] % (mask + 1) < n
    ensures 0 < used <= hit + 1 && exists mask: nat ::
      IsLeastMask(n, mask) && FirstAccepted(n, mask, draws, used - 1, x)
  {
    var mask := IntnMask(n);
    assert IsLeastMask(n, mask);
    used := 0;
    while true
      invariant used <= hit
      invariant forall i :: 0 <= i < used ==> draws[i] % (mask + 1) >= n
      decreases hit - used
    {
      x := draws[used] % (mask + 1);
      used := used + 1;
      if x < n {
        return;
      }
    }
  }

  /** x is draw number i, masked, and the first one below n. */
  ghost predicate FirstAccepted(n: nat, mask: nat, draws: seq<nat>, i: nat, x: nat) {
    i < |draws| && x == draws[i] % (mask + 1) < n && forall k :: 0 <= k < i ==> draws[k] % (mask + 1) >= n
  }

  ghost predicate IsLeastMask(n: nat, mask: nat) {
    IsMask(mask) && n <= mask + 1 && forall m: nat :: IsMask(m) && n <= m + 1 ==> mask <= m
  }

  // ---- PickWeighted ----

  function Total(weights: seq<int>, n: nat): int
    requires n <= |weights|
  {
    if n == 0 then 0 else Total(weights, n - 1) + weights[n - 1]
  }

  /** PickWeighted for a draw below the total: the index whose cumulative interval contains the draw. The loop never
      runs off the end, whatever the individual weights are. */
  method PickWeighted(weights: seq<int>, draw: nat) returns (i: nat)
    requires draw < Total(weights, |weights|)
    ensures i < |weights| && draw < Total(weights, i + 1)
    ensures forall j :: 0 <= j <= i ==> Total(weights, j) <= draw
  {
    var x: int := draw;
    i := 0;
    while i < |weights|
      invariant i <= |weights| && x == draw - Total(weights, i)
      invariant forall j :: 0 <= j <= i ==> Total(weights, j) <= draw
    {
      if x < weights[i] {
        return;
      }
      x := x - weights[i];
      i := i + 1;
    }
  }

  // ---- Perm ----

  function Swap<T>(s: seq<T>, i: nat, j: nat): seq<T>
    requires i < |s| && j < |s|
  {
    s[i := s[j]][j := s[i]]
  }

  /** The shuffle: for i from n - 1 down to 1, swap positions i and draws[i]. */
  function Shuffle<T>(s: seq<T>, n: nat, draws: seq<nat>): seq<T>
    requires n <= |s| && InRange(draws, n)
    decreases n
  {
    if n <= 1 then s else Shuffle(Swap(s, n - 1, draws[n - 1]), n - 1, draws)
  }

  ghost predicate InRange(draws: seq<nat>, n: nat) {
    n <= |draws| && forall i :: 0 < i < n ==> draws[i] <= i
  }

  ghost predicate Distinct<T>(s: seq<T>) {
    forall i, j :: 0 <= i < j < |s| ==> s[i] != s[j]
  }

  lemma SwapKeeps<T>(s: seq<T>, i: nat, j: nat)
    requires i < |s| && j < |s|
    ensures multiset(Swap(s, i, j)) == multiset(s) && (Distinct(s) ==> Distinct(Swap(s, i, j)))
  {
  }

  /** A shuffle is a permutation, for every draw sequence. */
  lemma {:induction false} ShufflePermutes<T>(s: seq<T>, n: nat, draws: seq<nat>)
    requires n <= |s| && InRange(draws, n)
    ensures |Shuffle(s, n, draws)| == |s| && multiset(Shuffle(s, n, draws)) == multiset(s)
    ensures forall i :: n <= i < |s| ==> Shuffle(s, n, draws)[i] == s[i]
    decreases n
  {
    if n > 1 {
      SwapKeeps(s, n - 1, draws[n - 1]);
      ShufflePermutes(Swap(s, n - 1, draws[n - 1]), n - 1, draws);
    }
  }

  /** Where the shuffle puts position n - 1 tells its first draw. */
  lemma LastDraw<T>(s: seq<T>, n: nat, a: seq<nat>)
    requires 1 < n <= |s| && InRange(a, n)
    ensures |Shuffle(s, n, a)| == |s| && Shuffle(s, n, a)[n - 1] == s[a[n - 1]]
  {
    ShufflePermutes(Swap(s, n - 1, a[n - 1]), n - 1, a);
  }

  /** Distinct draw sequences give distinct permutations: the draws can be read back from the result. */
  lemma {:induction false} ShuffleInjective<T>(s: seq<T>, n: nat, a: seq<nat>, b: seq<nat>)
    requires n <= |s| && InRange(a, n) && InRange(b, n) && Distinct(s)
    requires Shuffle(s, n, a) == Shuffle(s, n, b)
    ensures forall i :: 0 < i < n ==> a[i] == b[i]
    decreases n
  {
    if n > 1 {
      LastDraw(s, n, a);
      LastDraw(s, n, b);
      assert a[n - 1] == b[n - 1];
      SwapKeeps(s, n - 1, a[n - 1]);
      ShuffleInjective(Swap(s, n - 1, a[n - 1]), n - 1, a, b);
    }
  }

  /** Perm in place, on the draws Intn(i + 1) made for i = n - 1, ..., 1. */
  method Perm(n: nat, draws: seq<nat>) returns (p: array<nat>)
    requires InRange(draws, n)
    ensures fresh(p) && p.Length == n && p[..] == Shuffle<nat>(Identity(n), n, draws)
  {
    p := new nat[n](i => i);
    assert p[..] == Identity(n);
    var i := n;
    while i > 1
      invariant i <= n && Shuffle<nat>(p[..], i, draws) == Shuffle<nat>(Identity(n), n, draws)
    {
      i := i - 1;
      var j := draws[i];
      ghost var before := p[..];
      p[i], p[j] := p[j], p[i];
      assert p[..] == Swap(before, i, j);
    }
  }

  function Identity(n: nat): seq<nat>
  {
    seq(n, i => i)
  }
}
