/** The genome generator: every design choice is a draw, and whatever the draws are, the layouts work. */
module Generator {
  import opened Bytes
  import opened Genome
  import opened AeadModel
  import opened Drbg
  import opened Designs
  import opened HandshakeModel

  const MAX_APP_PAYLOAD: nat := 60000

  /** The generator's view of drbg.Rand: an endless tape of draws, each reduced into the range asked for. Every
      outcome a real source can produce is one of its tapes. */
  class Sampler {
    const tape: Tape
    var pos: nat

    constructor (tape: Tape)
      ensures this.tape == tape && pos == 0
    {
      this.tape := tape;
      pos := 0;
    }

    method Intn(n: nat) returns (x: nat)
      requires n > 0
      modifies this
      ensures x < n && x == tape(old(pos)) % n && pos == old(pos) + 1
    {
      x := tape(pos) % n;
      pos := pos + 1;
    }

    method Choose(n: nat) returns (x: nat)
      modifies this
      ensures n > 0 ==> x < n
      ensures (x, pos) == ChooseAt(tape, old(pos), n)
    {
      if n <= 1 {
        return 0;
      }
      x := Intn(n);
    }

    method RangeChoice(lo: nat, hi: nat) returns (x: nat)
      modifies this
      ensures lo <= x && (lo < hi ==> x < hi)
      ensures (x, pos) == RangeAt(tape, old(pos), lo, hi)
    {
      if hi <= lo {
        return lo;
      }
      x := Intn(hi - lo);
      x := lo + x;
    }

    method Weighted(weights: seq<int>) returns (i: nat)
      requires weights != [] && forall k :: 0 <= k < |weights| ==> weights[k] > 0
      modifies this
      ensures i < |weights|
      ensures (i, pos) == WeightedAt(tape, old(pos), weights)
    {
      TotalPositive(weights, |weights|);
      var x := Intn(Total(weights, |weights|));
      i := PickWeighted(weights, x);
      PickFromIs(weights, x, 0, i);
    }

    method RandomBytes(n: nat) returns (b: Bytes)
      modifies this
      ensures |b| == n
      ensures (b, pos) == BytesAt(tape, old(pos), n)
    {
      b := [];
      for i := 0 to n
        invariant |b| == i && pos == old(pos) + i
        invariant forall k :: 0 <= k < i ==> b[k] == tape(old(pos) + k) % 256
      {
        var x := Intn(256);
        b := b + [x];
      }
      assert b == BytesAt(tape, old(pos), n).0;
    }

    /** The draws Perm makes for n positions. */
    method SwapDraws(n: nat) returns (draws: seq<nat>)
      modifies this
      ensures draws == DrawsAt(tape, old(pos), n) && pos == (if n == 0 then old(pos) else old(pos) + (n - 1))
    {
      draws := seq(n, _ => 0);
      var i := n;
      while i > 1
        invariant i <= n == |draws| && (n > 0 ==> i > 0 && pos == old(pos) + (n - i)) && (n == 0 ==> pos == old(pos))
        invariant forall k :: i <= k < n ==> draws[k] == tape(old(pos) + (n - 1 - k)) % (k + 1)
        invariant forall k :: 0 <= k < i ==> draws[k] == 0
      {
        i := i - 1;
        var j := Intn(i + 1);
        draws := draws[i := j];
      }
      assert draws == DrawsAt(tape, old(pos), n);
    }

    /** permuteFields: the fields of `fields` in a random order. */
    method PermuteFields(fields: seq<FieldSpec>) returns (out: seq<FieldSpec>)
      modifies this
      ensures |out| == |fields| && multiset(out) == multiset(fields)
      ensures (out, pos) == PermutedAt(tape, old(pos), fields)
    {
      hide DrawsAt, Shuffle, InRange;
      var n := |fields|;
      var draws := SwapDraws(n);
      var p := Perm(n, draws);
      PickedIsShuffled(fields, draws);
      ghost var picked := Select(fields, p[..]);
      out := [];
      for k := 0 to n
        invariant out == picked[..k]
      {
        out := out + [fields[p[k]]];
      }
      assert out == picked;
    }
  }

  function Select<T>(s: seq<T>, p: seq<nat>): seq<T>
    requires forall k :: 0 <= k < |p| ==> p[k] < |s|
  {
    seq(|p|, k requires 0 <= k < |p| => s[p[k]])
  }

  /** Picking by a shuffled index list is shuffling the picked list. */
  lemma {:induction false} SelectShuffle<T>(s: seq<T>, p: seq<nat>, n: nat, draws: seq<nat>)
    requires n <= |p| && InRange(draws, n) && forall k :: 0 <= k < |p| ==> p[k] < |s|
    ensures var q: seq<nat> := Shuffle<nat>(p, n, draws);
      && |q| == |p| && (forall k :: 0 <= k < |q| ==> q[k] < |s|)
      && Select(s, q) == Shuffle(Select(s, p), n, draws)
    decreases n
  {
    if n > 1 {
      var q: seq<nat> := Swap<nat>(p, n - 1, draws[n - 1]);
      assert Select(s, q) == Swap(Select(s, p), n - 1, draws[n - 1]);
      SelectShuffle(s, q, n - 1, draws);
    }
  }

  lemma PickedIsShuffled(fields: seq<FieldSpec>, draws: seq<nat>)
    requires InRange(draws, |fields|)
    ensures var n := |fields|;
      var p: seq<nat> := Shuffle<nat>(Identity(n), n, draws);
      && |p| == n && (forall k :: 0 <= k < |p| ==> p[k] < n)
      && Select(fields, p) == Shuffle<FieldSpec>(fields, n, draws)
      && multiset(Select(fields, p)) == multiset(fields)
  {
    SelectShuffle(fields, Identity(|fields|), |fields|, draws);
    ShufflePermutes(fields, |fields|, draws);
    assert Select(fields, Identity(|fields|)) == fields;
  }

  // ---- what the builders promise ----

  predicate PlainGood(f: FieldSpec) {
    && PlainAdmitted(f) && PlainWritable(f) && f.kind in {Version, Type, Nonce, Reserved} && SizeOf(f) <= 32
  }

  /** maxPad is the largest padding the layout's policy can draw. */
  predicate EncryptedGood(f: FieldSpec, maxPad: int) {
    && EncryptedAdmitted(f) && FieldWellFormed(f) && RangeOrdered(f) && MaxFieldSize(f) <= 514
    && (f.kind == PadLen ==> f.endian != NoEndian && maxPad < Pow256(IntWidth(f.encoding)))
  }

  method VersionField(g: Sampler) returns (f: FieldSpec)
    modifies g
    ensures PlainGood(f) && f.kind == Version
    ensures (f, g.pos) == VersionAt(g.tape, old(g.pos))
  {
    var size := g.Weighted([3, 1]);
    size := size + 1;
    var b: Bytes;
    if size == 1 {
      var v := g.Choose(5);
      b := [v + 1];
    } else {
      var major := g.Choose(4);
      var minor := g.Choose(16);
      b := [major, minor];
    }
    return FieldSpec(Version, Plain, FixedBytes, NoEndian, size, 0, 0, Some(b), Constant, NoSubject);
  }

  method TypeField(g: Sampler) returns (f: FieldSpec)
    modifies g
    ensures PlainGood(f) && f.kind == Type
    ensures (f, g.pos) == TypeAt(g.tape, old(g.pos))
  {
    var size := g.Weighted([3, 1]);
    size := size + 1;
    var raw := g.RandomBytes(size);
    var lo := g.Choose(15);
    raw := raw[0 := lo + 1];
    if size == 2 {
      var hi := g.Choose(255);
      raw := raw[1 := hi];
    }
    assert raw == if size == 1 then [lo + 1] else [lo + 1, raw[1]];
    return FieldSpec(Type, Plain, FixedBytes, NoEndian, size, 0, 0, Some(raw), Constant, NoSubject);
  }

  method NonceField(g: Sampler) returns (f: FieldSpec)
    modifies g
    ensures PlainGood(f) && f.kind == Nonce
    ensures (f, g.pos) == NonceFieldAt(g.tape, old(g.pos))
  {
    var sizes: seq<nat> := [4, 8, 12, 16, 32];
    var i := g.Weighted([2, 3, 4, 3, 1]);
    return FieldSpec(Nonce, Plain, FixedBytes, NoEndian, sizes[i], 0, 0, Some([]), Random, NoSubject);
  }

  method ReservedField(g: Sampler) returns (f: FieldSpec)
    modifies g
    ensures PlainGood(f) && f.kind == Reserved
    ensures (f, g.pos) == ReservedAt(g.tape, old(g.pos))
  {
    var sizes := [1, 2, 4, 8, 16];
    var i := g.Weighted([3, 2, 2, 1, 1]);
    var size := sizes[i];
    var value := g.Weighted([7, 3]);
    if value == 1 {
      return FieldSpec(Reserved, Plain, FixedBytes, NoEndian, size, 0, 0, Some([]), Random, NoSubject);
    }
    return FieldSpec(Reserved, Plain, FixedBytes, NoEndian, size, 0, 0, Some(seq(size, _ => 0)), Zero, NoSubject);
  }

  /** maxIntValue */
  function MaxIntValue(enc: Encoding): int {
    match enc
    case U8 => 0xFF
    case U16 => 0xFFFF
    case U24 => 0xFF_FFFF
    case U32 => 0xFFFF_FFFF
    case _ => 0
  }

  /** Option k of lengthField, with its weight. */
  function WidthOption(k: nat): (Encoding, int) {
    match k
    case 0 => (U8, 1)
    case 1 => (U16, 3)
    case 2 => (U24, 2)
    case _ => (U32, 2)
  }

  /** The first n options that can express minBytes. */
  function Encodings(minBytes: nat, n: nat): seq<Encoding> {
    if n == 0 then [] else
      var enc := WidthOption(n - 1).0;
      Encodings(minBytes, n - 1) + if MaxIntValue(enc) >= minBytes then [enc] else []
  }

  function Weights(minBytes: nat, n: nat): seq<int> {
    if n == 0 then [] else
      var (enc, weight) := WidthOption(n - 1);
      Weights(minBytes, n - 1) + if MaxIntValue(enc) >= minBytes then [weight] else []
  }

  lemma FittingIsWidths(minBytes: nat)
    requires minBytes < 0x1_0000_0000
    ensures (Encodings(minBytes, 4), Weights(minBytes, 4)) == WidthsFor(minBytes, false)
    ensures var encs := WidthsFor(minBytes, false).0;
      forall k :: 0 <= k < |encs| ==> encs[k] in {U8, U16, U24, U32} && MaxIntValue(encs[k]) >= minBytes
  {
    var m := minBytes;
    assert Encodings(m, 1) == if m <= 0xFF then [U8] else [];
    assert Encodings(m, 2) == if m <= 0xFF then [U8, U16] else if m <= 0xFFFF then [U16] else [];
    assert Encodings(m, 3) ==
      if m <= 0xFF then [U8, U16, U24] else if m <= 0xFFFF then [U16, U24] else if m <= 0xFF_FFFF then [U24] else [];
    assert Encodings(m, 4) == WidthsFor(m, false).0;
    assert Weights(m, 1) == if m <= 0xFF then [1] else [];
    assert Weights(m, 2) == if m <= 0xFF then [1, 3] else if m <= 0xFFFF then [3] else [];
    assert Weights(m, 3) ==
      if m <= 0xFF then [1, 3, 2] else if m <= 0xFFFF then [3, 2] else if m <= 0xFF_FFFF then [2] else [];
    assert Weights(m, 4) == WidthsFor(m, false).1;
  }

  /** The options of lengthField outside application records: those that can express minBytes. */
  method WidthsOnOffer(minBytes: nat) returns (encs: seq<Encoding>, weights: seq<int>)
    requires minBytes < 0x1_0000_0000
    ensures (encs, weights) == WidthsFor(minBytes, false)
    ensures forall k :: 0 <= k < |encs| ==> encs[k] in {U8, U16, U24, U32} && MaxIntValue(encs[k]) >= minBytes
  {
    var all: seq<Encoding>, allWeights := [U8, U16, U24, U32], [1, 3, 2, 2];
    encs, weights := [], [];
    for i := 0 to 4
      invariant encs == Encodings(minBytes, i) && weights == Weights(minBytes, i)
    {
      assert (all[i], allWeights[i]) == WidthOption(i);
      if MaxIntValue(all[i]) >= minBytes {
        encs, weights := encs + [all[i]], weights + [allWeights[i]];
      }
    }
    FittingIsWidths(minBytes);
  }

  /** lengthField: outside application records only widths that can express minBytes are on offer. */
  method LengthField(g: Sampler, minBytes: nat, isAppRecord: bool) returns (f: FieldSpec)
    requires minBytes < 0x1_0000_0000
    modifies g
    ensures f.kind == Length && PlainAdmitted(f) && f.endian != NoEndian && f.subject != NoSubject
    ensures SizeOf(f) == IntWidth(f.encoding) && 1 <= IntWidth(f.encoding) <= 4
    ensures !isAppRecord ==> minBytes < Pow256(IntWidth(f.encoding))
    ensures isAppRecord ==> IntWidth(f.encoding) >= 2
    ensures (f, g.pos) == LengthAt(g.tape, old(g.pos), minBytes, isAppRecord)
  {
    Pow256Values();
    var encs: seq<Encoding>, weights: seq<int>;
    if isAppRecord {
      encs, weights := [U16, U24, U32], [4, 3, 2];
    } else {
      encs, weights := WidthsOnOffer(minBytes);
    }
    assert (encs, weights) == WidthsFor(minBytes, isAppRecord);
    hide WidthsFor, WeightedAt, Pow256;
    var i := g.Weighted(weights);
    var enc := encs[i];
    var s := g.Weighted([4, 1]);
    var e := g.Weighted([3, 1]);
    return FieldSpec(Length, Plain, enc, if e == 1 then Little else Big, 0, 0, 0, Some([]), Constant,
                     if s == 1 then Record else Ciphertext);
  }

  method KeyField(g: Sampler) returns (f: FieldSpec)
    modifies g
    ensures f.kind == Key && forall maxPad :: EncryptedGood(f, maxPad)
    ensures (f, g.pos) == KeyAt(g.tape, old(g.pos))
  {
    var x := g.Weighted([4, 1]);
    if x == 1 {
      return FieldSpec(Key, Encrypted, X963, NoEndian, 33, 0, 0, Some([]), Injected, NoSubject);
    }
    return FieldSpec(Key, Encrypted, Raw32, NoEndian, 32, 0, 0, Some([]), Injected, NoSubject);
  }

  method CertField(g: Sampler) returns (f: FieldSpec)
    modifies g
    ensures f.kind == Cert && forall maxPad :: EncryptedGood(f, maxPad)
    ensures (f, g.pos) == CertAt(g.tape, old(g.pos))
  {
    var x := g.Weighted([3, 1]);
    if x == 0 {
      var size := g.RangeChoice(64, 449);
      return FieldSpec(Cert, Encrypted, FixedBytes, NoEndian, size, 0, 0, Some([]), Random, NoSubject);
    }
    return FieldSpec(Cert, Encrypted, PrefixedU16, NoEndian, 0, 64, 512, Some([]), Random, NoSubject);
  }

  method ExtraField(g: Sampler) returns (f: FieldSpec)
    modifies g
    ensures f.kind == Extra && forall maxPad :: EncryptedGood(f, maxPad)
    ensures (f, g.pos) == ExtraAt(g.tape, old(g.pos))
  {
    var x := g.Weighted([4, 3, 1]);
    if x == 0 {
      var size := g.RangeChoice(4, 61);
      return FieldSpec(Extra, Encrypted, FixedBytes, NoEndian, size, 0, 0, Some([]), Random, NoSubject);
    }
    if x == 1 {
      return FieldSpec(Extra, Encrypted, PrefixedU8, NoEndian, 0, 1, 64, Some([]), Random, NoSubject);
    }
    return FieldSpec(Extra, Encrypted, PrefixedU16, NoEndian, 0, 1, 512, Some([]), Random, NoSubject);
  }

  /** padLenField: wide enough for the largest padding. */
  method PadLenField(g: Sampler, maxPad: nat) returns (f: FieldSpec)
    requires maxPad < 0x1_0000
    modifies g
    ensures f.kind == PadLen && EncryptedGood(f, maxPad)
    ensures (f, g.pos) == PadLenAt(g.tape, old(g.pos), maxPad)
  {
    Pow256Values();
    var enc := U8;
    if maxPad > 255 {
      enc := U16;
    } else {
      var x := g.Weighted([3, 1]);
      if x == 1 {
        enc := U16;
      }
    }
    var e := g.Weighted([3, 1]);
    return FieldSpec(PadLen, Encrypted, enc, if e == 1 then Little else Big, 0, 0, 0, Some([]), Random, NoSubject);
  }

  method PaddingPolicyOf(g: Sampler) returns (p: PaddingPolicy)
    modifies g
    ensures p.mode in {NoPadding, Uniform, Burst} && 0 <= p.min <= p.max < 512
    ensures p.mode == NoPadding ==> p.max == 0
    ensures (p, g.pos) == PaddingAt(g.tape, old(g.pos))
  {
    var mode := g.Weighted([1, 5, 2]);
    if mode == 0 {
      return PaddingPolicy(NoPadding, 0, 0);
    }
    if mode == 1 {
      var min := g.RangeChoice(0, 33);
      var span := g.RangeChoice(1, 257);
      return PaddingPolicy(Uniform, min, min + span);
    }
    var min := g.Choose(2);
    var span := g.RangeChoice(64, 449);
    return PaddingPolicy(Burst, 16 * min, 16 * min + span);
  }

  // ---- permuting keeps what the codec needs ----

  lemma PermutedAll(a: seq<FieldSpec>, b: seq<FieldSpec>)
    requires multiset(a) == multiset(b)
    ensures forall i :: 0 <= i < |b| ==> b[i] in a
  {
    forall i | 0 <= i < |b| ensures b[i] in a {
      assert b[i] in multiset(b);
    }
  }

  lemma DropLast<T>(a: seq<T>, b: seq<T>, j: nat)
    requires a != [] && j < |b| && multiset(a) == multiset(b) && b[j] == a[|a| - 1]
    ensures multiset(a[..|a| - 1]) == multiset(b[..j] + b[j + 1..])
  {
    var n := |a| - 1;
    assert a == a[..n] + [a[n]];
    assert b == b[..j] + [b[j]] + b[j + 1..];
    assert multiset(a[..n]) == multiset(a) - multiset{a[n]};
    assert multiset(b[..j] + b[j + 1..]) == multiset(b) - multiset{b[j]};
  }

  lemma {:induction false} PermutedCount(a: seq<FieldSpec>, b: seq<FieldSpec>, kind: Kind)
    requires multiset(a) == multiset(b)
    ensures CountKind(a, kind) == CountKind(b, kind)
    decreases |a|
  {
    if a == [] {
      assert |multiset(b)| == 0;
    } else {
      var n := |a| - 1;
      assert a[n] in multiset(a) && a[n] in multiset(b);
      var j :| 0 <= j < |b| && b[j] == a[n];
      var rest := b[..j] + b[j + 1..];
      DropLast(a, b, j);
      PermutedCount(a[..n], rest, kind);
      CountRemove(b, j, kind);
    }
  }

  lemma RemoveFromFront<T>(b: seq<T>, j: nat)
    requires j < |b| - 1
    ensures var n := |b| - 1;
      b[..n][j] == b[j] && b[..j] + b[j + 1..] == (b[..n][..j] + b[..n][j + 1..]) + [b[n]]
  {
  }

  lemma {:induction false} CountRemove(b: seq<FieldSpec>, j: nat, kind: Kind)
    requires j < |b|
    ensures CountKind(b, kind) == CountKind(b[..j] + b[j + 1..], kind) + if b[j].kind == kind then 1 else 0
    decreases |b|
  {
    var n := |b| - 1;
    if j == n {
      assert b[..j] + b[j + 1..] == b[..n];
    } else {
      CountRemove(b[..n], j, kind);
      RemoveFromFront(b, j);
      CountAppend(b[..n][..j] + b[..n][j + 1..], b[n], kind);
    }
  }

  lemma {:induction false} SumBounds(plain: seq<FieldSpec>, encrypted: seq<FieldSpec>)
    requires forall i :: 0 <= i < |plain| ==> SizeOf(plain[i]) <= 32
    requires forall i :: 0 <= i < |encrypted| ==> MaxFieldSize(encrypted[i]) <= 514
    ensures PlainSize(plain) <= 32 * |plain| && MaxFieldSizes(encrypted) <= 514 * |encrypted|
    decreases |plain| + |encrypted|
  {
    if plain != [] {
      SumBounds(plain[1..], encrypted);
    } else if encrypted != [] {
      SumBounds(plain, encrypted[..|encrypted| - 1]);
    }
  }

  lemma CountAppend(a: seq<FieldSpec>, f: FieldSpec, kind: Kind)
    ensures CountKind(a + [f], kind) == CountKind(a, kind) + if f.kind == kind then 1 else 0
  {
    assert (a + [f])[..|a|] == a;
  }

  // ---- one message ----

  /** The plaintext field pool. */
  method PlainPool(g: Sampler) returns (plain: seq<FieldSpec>)
    modifies g
    ensures |plain| <= 4 && forall f :: f in plain ==> PlainGood(f)
    ensures (plain, g.pos) == PlainPoolAt(g.tape, old(g.pos))
  {
    hide PlainGood, AddPlainAt, PermutedAt;
    plain := AddPlain(g, [], 9, 1, Version);
    plain := AddPlain(g, plain, 9, 1, Type);
    plain := AddPlain(g, plain, 3, 1, Nonce);
    plain := AddPlain(g, plain, 3, 7, Reserved);
    ghost var pool := plain;
    plain := g.PermuteFields(plain);
    PermutedAll(pool, plain);
  }

  method AddPlain(g: Sampler, plain: seq<FieldSpec>, yes: int, no: int, kind: Kind) returns (out: seq<FieldSpec>)
    requires yes > 0 && no > 0 && forall f :: f in plain ==> PlainGood(f)
    modifies g
    ensures |out| <= |plain| + 1 && forall f :: f in out ==> PlainGood(f)
    ensures (out, g.pos) == AddPlainAt(g.tape, old(g.pos), plain, yes, no, kind)
  {
    hide PlainGood, VersionAt, TypeAt, NonceFieldAt, ReservedAt, WeightedAt;
    out := plain;
    var x := g.Weighted([yes, no]);
    if x == 0 {
      var f;
      match kind {
        case Version => f := VersionField(g);
        case Type => f := TypeField(g);
        case Nonce => f := NonceField(g);
        case _ => f := ReservedField(g);
      }
      out := out + [f];
    }
  }

  /** A pool of at most n good encrypted fields, with so many keys and pad_length fields. */
  ghost predicate Pool(enc: seq<FieldSpec>, n: nat, keys: nat, pads: nat, maxPad: int) {
    && |enc| <= n && (forall f :: f in enc ==> EncryptedGood(f, maxPad))
    && CountKind(enc, Key) == keys && CountKind(enc, PadLen) == pads
  }

  lemma PoolAppend(enc: seq<FieldSpec>, f: FieldSpec, n: nat, keys: nat, pads: nat, maxPad: int)
    requires Pool(enc, n, keys, pads, maxPad) && EncryptedGood(f, maxPad)
    ensures Pool(enc + [f], n + 1, keys + (if f.kind == Key then 1 else 0),
                 pads + (if f.kind == PadLen then 1 else 0), maxPad)
  {
    hide EncryptedGood;
    CountAppend(enc, f, Key);
    CountAppend(enc, f, PadLen);
  }

  lemma PoolGrows(enc: seq<FieldSpec>, n: nat, m: nat, keys: nat, pads: nat, maxPad: int)
    requires n <= m
    ensures Pool(enc, n, keys, pads, maxPad) ==> Pool(enc, m, keys, pads, maxPad)
  {
    hide EncryptedGood, CountKind;
  }

  lemma PoolPermuted(enc: seq<FieldSpec>, out: seq<FieldSpec>, n: nat, keys: nat, pads: nat, maxPad: int)
    requires Pool(enc, n, keys, pads, maxPad) && multiset(out) == multiset(enc) && |out| == |enc|
    ensures Pool(out, n, keys, pads, maxPad)
  {
    hide EncryptedGood, CountKind;
    PermutedAll(enc, out);
    PermutedCount(enc, out, Key);
    PermutedCount(enc, out, PadLen);
  }

  method AddKey(g: Sampler, hasKey: bool, maxPad: int) returns (enc: seq<FieldSpec>)
    modifies g
    ensures Pool(enc, 1, if hasKey then 1 else 0, 0, maxPad)
    ensures (enc, g.pos) == AddKeyAt(g.tape, old(g.pos), hasKey)
  {
    enc := [];
    assert Pool([], 0, 0, 0, maxPad) && Pool([], 1, 0, 0, maxPad);
    if hasKey {
      var f := KeyField(g);
      PoolAppend([], f, 0, 0, 0, maxPad);
      enc := [] + [f];
    }
  }

  method AddCert(g: Sampler, direction: Direction, enc: seq<FieldSpec>, ghost keys: nat, maxPad: int)
    returns (out: seq<FieldSpec>)
    requires Pool(enc, 1, keys, 0, maxPad)
    modifies g
    ensures Pool(out, 2, keys, 0, maxPad)
    ensures (out, g.pos) == AddCertAt(g.tape, old(g.pos), enc, direction)
  {
    hide Pool, EncryptedGood, WeightedAt, CertAt, ExtraAt, PadLenAt;
    PoolGrows(enc, 1, 2, keys, 0, maxPad);
    out := enc;
    if direction == Server {
      var x := g.Weighted([55, 45]);
      if x == 0 {
        var f := CertField(g);
        PoolAppend(enc, f, 1, keys, 0, maxPad);
        out := enc + [f];
      }
    }
  }

  method AddExtra(g: Sampler, enc: seq<FieldSpec>, ghost keys: nat, maxPad: int) returns (out: seq<FieldSpec>)
    requires Pool(enc, 2, keys, 0, maxPad)
    modifies g
    ensures Pool(out, 3, keys, 0, maxPad)
    ensures (out, g.pos) == AddExtraAt(g.tape, old(g.pos), enc)
  {
    hide Pool, EncryptedGood, WeightedAt, CertAt, ExtraAt, PadLenAt;
    PoolGrows(enc, 2, 3, keys, 0, maxPad);
    out := enc;
    var x := g.Weighted([45, 55]);
    if x == 0 {
      var f := ExtraField(g);
      PoolAppend(enc, f, 2, keys, 0, maxPad);
      out := enc + [f];
    }
  }

  method AddPadLen(g: Sampler, enc: seq<FieldSpec>, padding: PaddingPolicy, ghost keys: nat)
    returns (out: seq<FieldSpec>)
    requires 0 <= padding.max < 512 && Pool(enc, 3, keys, 0, padding.max)
    modifies g
    ensures Pool(out, 4, keys, if padding.mode == NoPadding then 0 else 1, padding.max)
    ensures (out, g.pos) == AddPadLenAt(g.tape, old(g.pos), enc, padding)
  {
    hide Pool, EncryptedGood, WeightedAt, CertAt, ExtraAt, PadLenAt;
    PoolGrows(enc, 3, 4, keys, 0, padding.max);
    out := enc;
    if padding.mode != NoPadding {
      var f := PadLenField(g, padding.max);
      PoolAppend(enc, f, 3, keys, 0, padding.max);
      out := enc + [f];
    }
  }

  /** The encrypted field pool. */
  method EncryptedPool(g: Sampler, direction: Direction, hasKey: bool, padding: PaddingPolicy)
    returns (enc: seq<FieldSpec>)
    requires 0 <= padding.max < 512
    modifies g
    ensures Pool(enc, 4, if hasKey then 1 else 0, if padding.mode == NoPadding then 0 else 1, padding.max)
    ensures (enc, g.pos) == EncryptedPoolAt(g.tape, old(g.pos), direction, hasKey, padding)
  {
    hide Pool, EncryptedGood, AddKeyAt, AddCertAt, AddExtraAt, AddPadLenAt, PermutedAt;
    ghost var keys, pads := if hasKey then 1 else 0, if padding.mode == NoPadding then 0 else 1;
    enc := AddKey(g, hasKey, padding.max);
    enc := AddCert(g, direction, enc, keys, padding.max);
    enc := AddExtra(g, enc, keys, padding.max);
    enc := AddPadLen(g, enc, padding, keys);
    var out := g.PermuteFields(enc);
    PoolPermuted(enc, out, 4, keys, pads, padding.max);
    enc := out;
  }

  lemma PoolMeans(enc: seq<FieldSpec>, keys: nat, pads: nat, maxPad: int)
    requires Pool(enc, 4, keys, pads, maxPad)
    ensures |enc| <= 4 && (forall f :: f in enc ==> EncryptedGood(f, maxPad))
    ensures CountKind(enc, Key) == keys && CountKind(enc, PadLen) == pads
  {
  }

  method DrawPayload(g: Sampler, purpose: Purpose) returns (hasPayload: bool)
    modifies g
    ensures purpose == Data ==> hasPayload
    ensures (hasPayload, g.pos) == PayloadAt(g.tape, old(g.pos), purpose)
  {
    var x: nat;
    match purpose {
      case Hello => x := g.Weighted([10, 90]);
      case HelloKey => x := g.Weighted([35, 65]);
      case KeyOnly => x := g.Weighted([10, 90]);
      case Ack => x := g.Weighted([40, 60]);
      case Data => x := 0;
    }
    return x == 0;
  }

  /** The payload every frame of a generated layout can carry: early data in the handshake, packets afterwards. */
  function PayloadBound(m: MessageSpec): nat {
    if !m.hasPayload then 0 else if m.purpose == Data then MAX_APP_PAYLOAD else MAX_HANDSHAKE_EARLY_DATA
  }

  /** The end of message: choose the length field, its place, and put the layout together. */
  method AddLength(g: Sampler, m: MessageSpec, plain: seq<FieldSpec>, ghost keys: nat) returns (r: MessageSpec)
    requires |plain| <= 4 && (forall f :: f in plain ==> PlainGood(f)) && m.cipher != OtherCipher
    requires Pool(m.encrypted, 4, keys, if m.padding.mode == NoPadding then 0 else 1, m.padding.max)
    requires m.padding.mode in {NoPadding, Uniform, Burst} && 0 <= m.padding.min <= m.padding.max < 512
    requires m.padding.mode == NoPadding ==> m.padding.max == 0
    modifies g
    ensures AlwaysEncodes(r, PayloadBound(r))
    ensures r == m.(plain := r.plain, lengthIndex := r.lengthIndex, lengthAlone := r.lengthAlone)
    ensures (r, g.pos) == WithLengthAt(g.tape, old(g.pos), m, plain)
  {
    hide AlwaysEncodes, PlainGood, EncryptedGood, PlainAdmitted, Pool, LengthAt, ChooseAt, WeightedAt;
    PoolMeans(m.encrypted, keys, if m.padding.mode == NoPadding then 0 else 1, m.padding.max);
    var minBytes := MinBytes(plain, m.encrypted, m.padding, m.hasPayload, m.purpose);
    PoolBounds(plain, m.encrypted, m.padding.max);
    var length := LengthField(g, minBytes, m.purpose == Data);
    var pos := g.Choose(|plain| + 1);
    var alone := g.Weighted([20, 80]);
    r := m.(plain := plain[..pos] + [length] + plain[pos..], lengthIndex := pos, lengthAlone := alone == 0);
    LayoutWorks(r, plain, length, pos);
  }

  /** The first part of message: all fields but the length field. */
  method DrawBody(g: Sampler, index: nat, direction: Direction, purpose: Purpose, hasKey: bool, cipher: Cipher)
    returns (m: MessageSpec, plain: seq<FieldSpec>)
    modifies g
    ensures m.index == index && m.direction == direction && m.purpose == purpose && m.cipher == cipher
    ensures purpose == Data ==> m.hasPayload
    ensures m.padding.mode in {NoPadding, Uniform, Burst} && 0 <= m.padding.min <= m.padding.max < 512
    ensures m.padding.mode == NoPadding ==> m.padding.max == 0
    ensures |plain| <= 4 && forall f :: f in plain ==> PlainGood(f)
    ensures Pool(m.encrypted, 4, if hasKey then 1 else 0, if m.padding.mode == NoPadding then 0 else 1, m.padding.max)
    ensures (m, plain, g.pos) == BodyAt(g.tape, old(g.pos), index, direction, purpose, hasKey, cipher)
  {
    hide PlainGood, Pool, PlainPoolAt, PayloadAt, PaddingAt, EncryptedPoolAt;
    plain := PlainPool(g);
    var hasPayload := DrawPayload(g, purpose);
    var padding := PaddingPolicyOf(g);
    var enc := EncryptedPool(g, direction, hasKey, padding);
    m := MessageSpec(index, direction, purpose, [], enc, -1, false, hasPayload, padding, cipher);
  }

  /** message: one generated layout, that of the tape. It passes the static check, round-trips, and encodes any payload
      within its bound whatever the random source yields. */
  method Message(g: Sampler, index: nat, direction: Direction, purpose: Purpose, hasKey: bool, cipher: Cipher)
    returns (m: MessageSpec)
    requires cipher != OtherCipher
    modifies g
    ensures m.index == index && m.direction == direction && m.purpose == purpose && m.cipher == cipher
    ensures HasKey(m) <==> hasKey
    ensures purpose == Data ==> m.hasPayload
    ensures AlwaysEncodes(m, PayloadBound(m))
    ensures (m, g.pos) == MessageAt(g.tape, old(g.pos), index, direction, purpose, hasKey, cipher)
  {
    hide AlwaysEncodes, PlainGood, HasKey, Pool, BodyAt, WithLengthAt;
    var body, plain := DrawBody(g, index, direction, purpose, hasKey, cipher);
    ghost var pads := if body.padding.mode == NoPadding then 0 else 1;
    PoolMeans(body.encrypted, if hasKey then 1 else 0, pads, body.padding.max);
    m := AddLength(g, body, plain, if hasKey then 1 else 0);
    KeyCounted(m);
  }

  /** What message() asks of a length field in the handshake: the largest frame without the length field, and four bytes
      for the widest one. */
  lemma MinBytesIs(m: MessageSpec, plain: seq<FieldSpec>)
    requires m.padding.mode == NoPadding ==> m.padding.max == 0
    requires m.purpose != Data
    ensures MinBytes(plain, m.encrypted, m.padding, m.hasPayload, m.purpose)
      == LargestFrame(m.(plain := plain), PayloadBound(m)) + 4
  {
  }

  lemma PoolBounds(plain: seq<FieldSpec>, enc: seq<FieldSpec>, maxPad: int)
    requires |plain| <= 4 && |enc| <= 4
    requires (forall f :: f in plain ==> PlainGood(f)) && (forall f :: f in enc ==> EncryptedGood(f, maxPad))
    ensures PlainSize(plain) <= 128 && MaxFieldSizes(enc) <= 2056
  {
    assert forall i :: 0 <= i < |plain| ==> PlainGood(plain[i]);
    assert forall i :: 0 <= i < |enc| ==> EncryptedGood(enc[i], maxPad);
    SumBounds(plain, enc);
  }

  lemma KeyCounted(m: MessageSpec)
    ensures HasKey(m) <==> CountKind(m.encrypted, Key) > 0
  {
    CountZero(m.encrypted, Key);
  }

  /** What message() puts together always encodes. */
  lemma LayoutWorks(m: MessageSpec, plain: seq<FieldSpec>, length: FieldSpec, pos: nat)
    requires pos <= |plain| <= 4 && |m.encrypted| <= 4 && m.lengthIndex == pos && m.cipher != OtherCipher
    requires m.plain == plain[..pos] + [length] + plain[pos..]
    requires (forall f :: f in plain ==> PlainGood(f))
      && (forall f :: f in m.encrypted ==> EncryptedGood(f, m.padding.max))
    requires CountKind(m.encrypted, PadLen) == if m.padding.mode == NoPadding then 0 else 1
    requires m.padding.mode in {NoPadding, Uniform, Burst} && 0 <= m.padding.min <= m.padding.max < 512
    requires m.padding.mode == NoPadding ==> m.padding.max == 0
    requires length.kind == Length && PlainAdmitted(length) && length.endian != NoEndian && length.subject != NoSubject
    requires SizeOf(length) == IntWidth(length.encoding) && 1 <= IntWidth(length.encoding) <= 4
    requires m.purpose != Data ==>
      MinBytes(plain, m.encrypted, m.padding, m.hasPayload, m.purpose) < Pow256(IntWidth(length.encoding))
    requires m.purpose == Data ==> IntWidth(length.encoding) >= 2
    ensures AlwaysEncodes(m, PayloadBound(m))
  {
    LayoutPlain(m, plain, length, pos);
    LayoutEncrypted(m);
    LayoutLength(m, plain, length, pos);
  }

  lemma LayoutPlain(m: MessageSpec, plain: seq<FieldSpec>, length: FieldSpec, pos: nat)
    requires pos <= |plain| && m.lengthIndex == pos && m.plain == plain[..pos] + [length] + plain[pos..]
    requires forall f :: f in plain ==> PlainGood(f)
    requires length.kind == Length && PlainAdmitted(length)
    ensures forall i :: 0 <= i < |m.plain| ==> PlainAdmitted(m.plain[i]) && (m.plain[i].kind == Length <==> i == pos)
    ensures forall i :: 0 <= i < |m.plain| && i != pos ==> PlainWritable(m.plain[i])
  {
    hide PlainAdmitted, PlainWritable, SizeOf;
    forall i | 0 <= i < |m.plain| && i != pos ensures m.plain[i] in plain && PlainGood(m.plain[i]) {
      assert m.plain[i] == if i < pos then plain[i] else plain[i - 1];
    }
  }

  lemma LayoutEncrypted(m: MessageSpec)
    requires forall f :: f in m.encrypted ==> EncryptedGood(f, m.padding.max)
    requires CountKind(m.encrypted, PadLen) == if m.padding.mode == NoPadding then 0 else 1
    ensures forall i :: 0 <= i < |m.encrypted| ==> EncryptedGood(m.encrypted[i], m.padding.max)
    ensures m.padding.mode == NoPadding ==> forall i :: 0 <= i < |m.encrypted| ==> m.encrypted[i].kind != PadLen
    ensures m.padding.mode != NoPadding ==> exists i :: 0 <= i < |m.encrypted| && OnlyPadLen(m.encrypted, i)
  {
    hide EncryptedGood;
    CountZero(m.encrypted, PadLen);
    CountOne(m.encrypted);
  }

  lemma LayoutLength(m: MessageSpec, plain: seq<FieldSpec>, length: FieldSpec, pos: nat)
    requires pos <= |plain| <= 4 && |m.encrypted| <= 4 && m.plain == plain[..pos] + [length] + plain[pos..]
    requires (forall f :: f in plain ==> PlainGood(f))
      && (forall f :: f in m.encrypted ==> EncryptedGood(f, m.padding.max))
    requires 0 <= m.padding.max < 512
    requires SizeOf(length) == IntWidth(length.encoding) && 1 <= IntWidth(length.encoding) <= 4
    requires m.purpose != Data ==>
      MinBytes(plain, m.encrypted, m.padding, m.hasPayload, m.purpose) < Pow256(IntWidth(length.encoding))
    requires m.purpose == Data ==> IntWidth(length.encoding) >= 2
    ensures LargestFrame(m, PayloadBound(m)) < Pow256(IntWidth(length.encoding))
  {
    hide PlainGood, EncryptedGood;
    PlainSizeConcat(plain[..pos], [length]);
    PlainSizeConcat(plain[..pos] + [length], plain[pos..]);
    PlainSizeConcat(plain[..pos], plain[pos..]);
    PlainSizeAppend(plain[..pos], length);
    assert plain == plain[..pos] + plain[pos..];
    PoolBounds(plain, m.encrypted, m.padding.max);
    Pow256Values();
  }

  // ---- the whole genome ----

  ghost predicate Exchanges(steps: seq<PatternStep>) {
    && (forall i :: 0 <= i < |steps| ==> steps[i].direction in {Client, Server} && steps[i].purpose != Data)
    && (exists i :: 0 <= i < |steps| && steps[i].direction == Client && steps[i].hasKey)
    && (exists i :: 0 <= i < |steps| && steps[i].direction == Server && steps[i].hasKey)
  }

  /** Every pattern makes both sides contribute an ephemeral key. */
  lemma PatternsExchangeKeys(k: nat)
    requires k < 6
    ensures k < |PATTERNS| && Exchanges(PATTERNS[k]) && 2 <= |PATTERNS[k]| <= 4
  {
    var steps := PATTERNS[k];
    var c :=
      if steps[0].direction == Client && steps[0].hasKey then 0 else if steps[1].direction == Client then 1 else 2;
    var s := if steps[0].direction == Server then 0 else if steps[1].direction == Server then 1 else 2;
    assert steps[c].direction == Client && steps[c].hasKey;
    assert steps[s].direction == Server && steps[s].hasKey;
  }

  /** The message loop of generate. */
  method HandshakeMessages(g: Sampler, steps: seq<PatternStep>, cipher: Cipher) returns (handshake: seq<MessageSpec>)
    requires Exchanges(steps) && cipher != OtherCipher
    modifies g
    ensures |handshake| == |steps|
    ensures forall j :: 0 <= j < |steps| ==>
      && StepWorks(handshake[j], j, cipher) && handshake[j].direction == steps[j].direction
      && (HasKey(handshake[j]) <==> steps[j].hasKey)
    ensures (handshake, g.pos) == StepsAt(g.tape, old(g.pos), steps, |steps|, cipher)
  {
    hide AlwaysEncodes, HasKey, MessageAt;
    handshake := [];
    for i := 0 to |steps|
      invariant |handshake| == i && (handshake, g.pos) == StepsAt(g.tape, old(g.pos), steps, i, cipher)
      invariant forall j :: 0 <= j < i ==>
        && StepWorks(handshake[j], j, cipher) && handshake[j].direction == steps[j].direction
        && (HasKey(handshake[j]) <==> steps[j].hasKey)
    {
      var m := Message(g, i, steps[i].direction, steps[i].purpose, steps[i].hasKey, cipher);
      handshake := handshake + [m];
    }
  }

  /** generate, without the fingerprint and the entropy account. */
  method Generate(g: Sampler, forceCipher: Option<Cipher>) returns (r: Result<ProtocolGenome>)
    modifies g
    ensures r.Err? <==> forceCipher == Some(OtherCipher)
    ensures r.Ok? ==> GenomeWorks(r.value)
    ensures r.Ok? && forceCipher.Some? ==>
      && r.value.appRecord.cipher == forceCipher.value
      && forall i :: 0 <= i < |r.value.handshake| ==> r.value.handshake[i].cipher == forceCipher.value
    ensures r == GenomeAt(g.tape, old(g.pos), forceCipher)
  {
    hide AlwaysEncodes, HasKey, StepWorks, Exchanges, PATTERNS, GenomeWorks, StepsAt, MessageAt, WeightedAt;
    var x := g.Weighted([2, 1, 5]);
    var cipher := if x == 0 then Aes128 else if x == 1 then Aes192 else Aes256;
    if forceCipher.Some? {
      if forceCipher.value == OtherCipher {
        return Err(Unsupported);
      }
      cipher := forceCipher.value;
    }
    var k := g.Weighted([3, 3, 3, 1, 1, 1]);
    PatternsExchangeKeys(k);
    var steps := PATTERNS[k];
    var handshake := HandshakeMessages(g, steps, cipher);
    var app := Message(g, |steps|, Both, Data, false, cipher);
    GenomeAssembled(handshake, app, steps, cipher);
    if forceCipher.Some? {
      ForcedCipherOnly(g.tape, old(g.pos), cipher);
    }
    return Ok(ProtocolGenome(handshake, app));
  }

  ghost predicate StepWorks(m: MessageSpec, i: nat, cipher: Cipher) {
    && m.index == i && m.direction in {Client, Server} && m.cipher == cipher && m.purpose != Data
    && AlwaysEncodes(m, PayloadBound(m))
  }

  /** Every layout of the genome always encodes, under one cipher, and both sides contribute a key. */
  ghost predicate GenomeWorks(gm: ProtocolGenome) {
    && 0 < |gm.handshake| <= 4 && gm.appRecord.cipher != OtherCipher
    && (forall i :: 0 <= i < |gm.handshake| ==> StepWorks(gm.handshake[i], i, gm.appRecord.cipher))
    && gm.appRecord.index == |gm.handshake| && gm.appRecord.hasPayload
    && AlwaysEncodes(gm.appRecord, MAX_APP_PAYLOAD)
    && (exists i :: 0 <= i < |gm.handshake| && gm.handshake[i].direction == Client && HasKey(gm.handshake[i]))
    && (exists i :: 0 <= i < |gm.handshake| && gm.handshake[i].direction == Server && HasKey(gm.handshake[i]))
  }

  lemma GenomeAssembled(handshake: seq<MessageSpec>, app: MessageSpec, steps: seq<PatternStep>, cipher: Cipher)
    requires Exchanges(steps) && |handshake| == |steps| <= 4 && cipher != OtherCipher
    requires forall j :: 0 <= j < |steps| ==>
      && StepWorks(handshake[j], j, cipher) && handshake[j].direction == steps[j].direction
      && (HasKey(handshake[j]) <==> steps[j].hasKey)
    requires app.index == |steps| && app.hasPayload && app.purpose == Data && app.cipher == cipher
    requires AlwaysEncodes(app, PayloadBound(app))
    ensures GenomeWorks(ProtocolGenome(handshake, app))
  {
    hide AlwaysEncodes, HasKey, StepWorks;
    var c :| 0 <= c < |steps| && steps[c].direction == Client && steps[c].hasKey;
    var s :| 0 <= s < |steps| && steps[s].direction == Server && steps[s].hasKey;
    assert HasKey(handshake[c]) && HasKey(handshake[s]);
  }

  /** A generated genome meets everything the handshake theorems ask of a protocol. */
  lemma GeneratedHandshakeIsGood(gm: ProtocolGenome, c2s: Aead, s2c: Aead)
    requires GenomeWorks(gm) && Correct(c2s) && Correct(s2c)
    ensures Good(Protocol(gm.handshake, c2s, s2c)) && KeysExchanged(Protocol(gm.handshake, c2s, s2c))
  {
    hide HasKey, WellFormed, Correct, StepWorks, AlwaysEncodes;
    var p := Protocol(gm.handshake, c2s, s2c);
    forall i | 0 <= i < |p.specs|
      ensures WellFormed(p.specs[i]) && p.specs[i].index == i && p.specs[i].direction in {Client, Server}
    {
      StepMeans(p.specs[i], i, gm.appRecord.cipher);
    }
    var c :| 0 <= c < |p.specs| && p.specs[c].direction == Client && HasKey(p.specs[c]);
    var s :| 0 <= s < |p.specs| && p.specs[s].direction == Server && HasKey(p.specs[s]);
  }

  lemma StepMeans(m: MessageSpec, i: nat, cipher: Cipher)
    requires StepWorks(m, i, cipher)
    ensures WellFormed(m) && m.index == i && m.direction in {Client, Server}
  {
  }
}
