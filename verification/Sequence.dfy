/** Sequence numbers: the nonces made from them, and the window a stream-mode receiver keeps over them. */
module Sequence {
  import opened Bytes
  import opened Words
  import opened ReplayWindow

  const PACKET_WINDOW: nat := 8192
  const WINDOW_WORDS: nat := 128
  const STREAM_WINDOW: nat := 64

  /** nonceAt: uint32(index) and the 64-bit sequence number, both big-endian. */
  function NonceAt(index: nat, seqNo: nat): (n: Bytes)
    ensures |n| == 12
  {
    BigEndian(index, 4) + BigEndian(seqNo, 8)
  }

  /** Where the two numbers stand in a nonce. */
  lemma NonceHolds(index: nat, seqNo: nat)
    requires index < 0x1_0000_0000 && seqNo < 0x1_0000_0000_0000_0000
    ensures BigValue(NonceAt(index, seqNo)[..4]) == index && BigValue(NonceAt(index, seqNo)[4..]) == seqNo
  {
    Pow256Values();
    IntegerRoundTrip(index, 4);
    IntegerRoundTrip(seqNo, 8);
    assert NonceAt(index, seqNo)[..4] == BigEndian(index, 4) && NonceAt(index, seqNo)[4..] == BigEndian(seqNo, 8);
  }

  /** Distinct (index, sequence) pairs in range have distinct nonces. */
  lemma NonceInjective(i: nat, s: nat, j: nat, t: nat)
    requires i < 0x1_0000_0000 && j < 0x1_0000_0000
    requires s < 0x1_0000_0000_0000_0000 && t < 0x1_0000_0000_0000_0000
    ensures NonceAt(i, s) == NonceAt(j, t) <==> i == j && s == t
  {
    Pow256Values();
    IntegerRoundTrip(i, 4);
    IntegerRoundTrip(j, 4);
    IntegerRoundTrip(s, 8);
    IntegerRoundTrip(t, 8);
    var n, m := NonceAt(i, s), NonceAt(j, t);
    assert n[..4] == BigEndian(i, 4) && m[..4] == BigEndian(j, 4);
    assert n[4..] == BigEndian(s, 8) && m[4..] == BigEndian(t, 8);
  }

  /** seenWindow: the 64-entry bitmap of a stream-mode receiver. */
  class SeenWindow {
    var base: nat
    var bits: Word

    constructor ()
      ensures base == 0 && bits == 0 && Abstract() == Window(0, {})
    {
      base, bits := 0, 0;
      new;
      MarkedZero([bits], base);
    }

    ghost function Abstract(): Window
      reads this
    {
      Window(base, Marked([bits], base))
    }

    /** observe: record a sequence number and say whether it is fresh. */
    method Observe(s: nat) returns (ok: bool)
      modifies this
      ensures (Abstract(), ok) == Observed(old(Abstract()), s)
    {
      if s < base {
        return false;
      }
      var off := s - base;
      assert off < 64 ==> (Bit(bits, off) <==> s in Abstract().seen) by {
        if off < 64 { assert MarkedAt([bits], base, s) <==> Bit(bits, off); }
      }
      if off >= 64 {
        ghost var empty: seq<Word> := [0];
        MarkedZero(empty, s);
        MarkedSet(empty, s, 0);
        base := s;
        bits := SetBit(0, 0);
        assert [bits] == empty[0 := SetBit(0, 0)];
        assert Abstract().seen == {} + {s} == {s};
        return true;
      }
      if Bit(bits, off) {
        return false;
      }
      MarkedSet([bits], base, off);
      assert [bits][0 := SetBit(bits, off)] == [SetBit(bits, off)];
      bits := SetBit(bits, off);
      return true;
    }

    /** bits >>= 1; base++ */
    method Shift()
      modifies this
      ensures Abstract() == Window(old(base) + 1, old(Abstract()).seen - {old(base)})
    {
      BitZero(0);
      var next := ShiftIn(bits, 0);
      MarkedShift([bits], [next], base);
      bits := next;
      base := base + 1;
    }
  }

  /** observe on windows as sets: refuse what is below the base or marked; a jump of 64 or more restarts the window. */
  function Observed(w: Window, s: nat): (Window, bool) {
    if s < w.base then (w, false)
    else if s >= w.base + STREAM_WINDOW then (Window(s, {s}), true)
    else if s in w.seen then (w, false)
    else (Window(w.base, w.seen + {s}), true)
  }

  /** The sequence numbers observe reports fresh over a run. */
  ghost function FreshIn(w: Window, run: seq<nat>): seq<nat>
    decreases |run|
  {
    if run == [] then [] else
      var (v, ok) := Observed(w, run[0]);
      (if ok then [run[0]] else []) + FreshIn(v, run[1..])
  }

  /** With jumps or without, observe reports a sequence number fresh at most once on any run, and never one that is
      below the base or marked at the start. */
  lemma {:induction false} ObserveAtMostOnce(w: Window, run: seq<nat>)
    requires Bounded(w, STREAM_WINDOW)
    ensures forall i :: 0 <= i < |FreshIn(w, run)| ==> FreshIn(w, run)[i] >= w.base && FreshIn(w, run)[i] !in w.seen
    ensures forall i, j :: 0 <= i < j < |FreshIn(w, run)| ==> FreshIn(w, run)[i] != FreshIn(w, run)[j]
    decreases |run|
  {
    if run != [] {
      var (v, ok) := Observed(w, run[0]);
      ObserveAtMostOnce(v, run[1..]);
      var rest := FreshIn(v, run[1..]);
      forall i | 0 <= i < |rest| ensures rest[i] >= w.base && rest[i] !in w.seen && (ok ==> rest[i] != run[0]) {
        assert rest[i] >= v.base && rest[i] !in v.seen;
      }
    }
  }
}
