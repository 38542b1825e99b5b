/** uint64 words as bit strings. A word is a natural below 2^64; the operations are the ones the bitmaps use. */
module Words {

  function Pow2(n: nat): (p: nat)
    ensures p > 0
  {
    if n == 0 then 1 else 2 * Pow2(n - 1)
  }

  type Word = w: nat | w < Pow2(64) witness 0

  /** w & (1 << i) != 0 */
  predicate Bit(w: nat, i: nat) {
    if i == 0 then w % 2 == 1 else Bit(w / 2, i - 1)
  }

  lemma {:induction false} BitAdd(w: nat, i: nat, j: nat)
    requires !Bit(w, i)
    ensures Bit(w + Pow2(i), j) <==> j == i || Bit(w, j)
  {
    if i == 0 {
      assert (w + 1) / 2 == w / 2;
    } else if j > 0 {
      BitAdd(w / 2, i - 1, j - 1);
      assert (w + Pow2(i)) / 2 == w / 2 + Pow2(i - 1);
    }
  }

  lemma {:induction false} BitBound(w: nat, n: nat, i: nat)
    requires w < Pow2(n)
    ensures i < n && !Bit(w, i) ==> w + Pow2(i) < Pow2(n)
    ensures i < n && Bit(w, i) ==> w >= Pow2(i)
    ensures i >= n ==> !Bit(w, i)
  {
    if n > 0 && i > 0 {
      BitBound(w / 2, n - 1, i - 1);
    } else if i > 0 {
      BitBound(0, 0, i - 1);
    }
  }

  /** w | (1 << i) */
  function SetBit(w: Word, i: nat): Word
    requires i < 64
  {
    BitBound(w, 64, i);
    if Bit(w, i) then w else w + Pow2(i)
  }

  lemma SetBitBits(w: Word, i: nat, j: nat)
    requires i < 64
    ensures Bit(SetBit(w, i), j) <==> j == i || Bit(w, j)
  {
    if !Bit(w, i) { BitAdd(w, i, j); }
  }

  /** w &^ (1 << i) */
  function ClearBit(w: Word, i: nat): Word
    requires i < 64
  {
    BitBound(w, 64, i);
    if Bit(w, i) then w - Pow2(i) else w
  }

  lemma ClearBitBits(w: Word, i: nat, j: nat)
    requires i < 64
    ensures Bit(ClearBit(w, i), j) <==> j != i && Bit(w, j)
  {
    if Bit(w, i) {
      BitBound(w, 64, i);
      BitSub(w, i);
      BitAdd(w - Pow2(i), i, j);
    }
  }

  lemma {:induction false} BitSub(w: nat, i: nat)
    requires Bit(w, i) && w >= Pow2(i)
    ensures !Bit(w - Pow2(i), i)
  {
    if i > 0 {
      assert (w - Pow2(i)) / 2 == w / 2 - Pow2(i - 1);
      BitSub(w / 2, i - 1);
    }
  }

  /** w >> 1 */
  function ShiftRight(w: Word): Word {
    w / 2
  }

  /** w >> 1, with bit 63 taken from the low bit of the next word */
  function ShiftIn(w: Word, next: Word): Word {
    if Bit(next, 0) then SetBit(ShiftRight(w), 63) else ShiftRight(w)
  }

  lemma ShiftInBits(w: Word, next: Word, j: nat)
    requires j < 64
    ensures Bit(ShiftIn(w, next), j) <==> if j == 63 then Bit(next, 0) else Bit(w, j + 1)
  {
    assert Pow2(64) == 2 * Pow2(63);
    BitBound(w / 2, 63, 63);
    SetBitBits(ShiftRight(w), 63, j);
  }

  lemma BitZero(i: nat)
    ensures !Bit(0, i)
  {
    if i > 0 { BitZero(i - 1); }
  }

  // ---- a sequence of words is one bit string ----

  predicate BitAt(words: seq<Word>, k: nat)
    requires k < 64 * |words|
  {
    Bit(words[k / 64], k % 64)
  }

  predicate MarkedAt(words: seq<Word>, base: nat, s: nat) {
    base <= s < base + 64 * |words| && BitAt(words, s - base)
  }

  /** The sequence numbers a bitmap over [base, base + 64 * |words|) marks. */
  ghost function Marked(words: seq<Word>, base: nat): set<nat> {
    set s | base <= s < base + 64 * |words| && MarkedAt(words, base, s)
  }

  lemma MarkedZero(words: seq<Word>, base: nat)
    requires forall i :: 0 <= i < |words| ==> words[i] == 0
    ensures Marked(words, base) == {}
  {
    forall s: nat ensures !MarkedAt(words, base, s) {
      if base <= s < base + 64 * |words| {
        BitZero((s - base) % 64);
      }
    }
  }

  /** Setting bit k adds one sequence number and nothing else. */
  lemma MarkedSet(words: seq<Word>, base: nat, k: nat)
    requires k < 64 * |words|
    ensures Marked(words[k / 64 := SetBit(words[k / 64], k % 64)], base) == Marked(words, base) + {base + k}
  {
    var w := words[k / 64 := SetBit(words[k / 64], k % 64)];
    forall s: nat ensures MarkedAt(w, base, s) <==> s == base + k || MarkedAt(words, base, s) {
      if base <= s < base + 64 * |words| {
        var j := s - base;
        assert j == 64 * (j / 64) + j % 64 && k == 64 * (k / 64) + k % 64;
        SetBitBits(words[k / 64], k % 64, j % 64);
      }
    }
  }

  lemma MarkedBase(words: seq<Word>, base: nat)
    requires words != []
    ensures base in Marked(words, base) <==> Bit(words[0], 0)
  {
    assert MarkedAt(words, base, base) <==> BitAt(words, 0);
  }

  lemma MarkedClear(words: seq<Word>, base: nat, k: nat)
    requires k < 64 * |words|
    ensures Marked(words[k / 64 := ClearBit(words[k / 64], k % 64)], base) == Marked(words, base) - {base + k}
  {
    var w := words[k / 64 := ClearBit(words[k / 64], k % 64)];
    forall s: nat ensures MarkedAt(w, base, s) <==> s != base + k && MarkedAt(words, base, s) {
      if base <= s < base + 64 * |words| {
        var j := s - base;
        assert j == 64 * (j / 64) + j % 64 && k == 64 * (k / 64) + k % 64;
        ClearBitBits(words[k / 64], k % 64, j % 64);
      }
    }
  }

  function WordOr0(words: seq<Word>, i: nat): Word {
    if i < |words| then words[i] else 0
  }

  /** after is before shifted right by one position, as one long bit string. */
  ghost predicate ShiftedByOne(before: seq<Word>, after: seq<Word>) {
    && |after| == |before|
    && forall i :: 0 <= i < |before| ==>
         after[i] == ShiftIn(before[i], WordOr0(before, i + 1))
  }

  /** Shifting the words one by one shifts the whole string: every mark keeps its sequence number when the base
      moves up by one, and only the old base is forgotten. */
  lemma MarkedShift(before: seq<Word>, after: seq<Word>, base: nat)
    requires ShiftedByOne(before, after) && before != []
    ensures Marked(after, base + 1) == Marked(before, base) - {base}
  {
    forall k | 0 <= k < 64 * |before| ensures ShiftsTo(before, after, k) {
      BitAtShift(before, after, k);
    }
    MarkedOfBits(before, after, base);
  }

  /** Position k of after holds what position k + 1 of before held. */
  ghost predicate ShiftsTo(before: seq<Word>, after: seq<Word>, k: nat)
    requires |after| == |before| && k < 64 * |before|
  {
    BitAt(after, k) <==> k + 1 < 64 * |before| && BitAt(before, k + 1)
  }

  lemma MarkedOfBits(before: seq<Word>, after: seq<Word>, base: nat)
    requires |after| == |before| && forall k :: 0 <= k < 64 * |before| ==> ShiftsTo(before, after, k)
    ensures Marked(after, base + 1) == Marked(before, base) - {base}
  {
    forall s: nat ensures MarkedAt(after, base + 1, s) <==> MarkedAt(before, base, s) && s != base {
      if base < s <= base + 64 * |before| {
        assert ShiftsTo(before, after, s - base - 1);
        assert s - (base + 1) == s - base - 1;
      }
    }
    var a, b := Marked(after, base + 1), Marked(before, base);
    assert forall s: nat :: s in a <==> MarkedAt(after, base + 1, s);
    assert forall s: nat :: s in b <==> MarkedAt(before, base, s);
    assert forall s :: s in a ==> s >= 0;
  }

  lemma BitAtShift(before: seq<Word>, after: seq<Word>, k: nat)
    requires ShiftedByOne(before, after) && k < 64 * |before|
    ensures ShiftsTo(before, after, k)
  {
    var i, j := k / 64, k % 64;
    assert k == 64 * i + j;
    assert after[i] == ShiftIn(before[i], WordOr0(before, i + 1));
    ShiftInBits(before[i], WordOr0(before, i + 1), j);
    BitZero(0);
    if j < 63 {
      assert (k + 1) / 64 == i && (k + 1) % 64 == j + 1;
    } else {
      assert (k + 1) / 64 == i + 1 && (k + 1) % 64 == 0;
    }
  }
}
