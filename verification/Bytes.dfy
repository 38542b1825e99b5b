/** Bytes, results and the integer encodings shared by every layer of the protocol stack. */
module Bytes {

  type byte = x: int | 0 <= x < 256
  type Bytes = seq<byte>

  datatype Option<+T> = None | Some(value: T)

  /** Why an operation fails. The program reports text; callers only ever test whether there is an error,
      and the proofs only separate a dry random source from everything else. */
  datatype Error =
    | ShortRead     // io.ReadFull ran out of bytes
    | Malformed     // the bytes do not have the declared shape
    | Unsupported   // the layout asks for an encoding the codec does not have
    | TooLarge      // an integer does not fit its field, or a length is implausible
    | NoPayload     // the message does not carry payload
    | Unauthentic   // the AEAD refuses the frame
    | Replayed      // the sequence number was accepted before
    | Rejected      // the call is not allowed in this state

  datatype Result<+T> = Ok(value: T) | Err(error: Error) {
    predicate IsFailure() { Err? }
    function PropagateFailure<U>(): Result<U> requires Err? { Err(error) }
    function Extract(): T requires Ok? { value }
  }

  function Flatten(parts: seq<Bytes>): Bytes {
    if parts == [] then [] else parts[0] + Flatten(parts[1..])
  }

  lemma FlattenNone()
    ensures Flatten([]) == []
  {
  }

  lemma {:induction false} FlattenConcat(a: seq<Bytes>, b: seq<Bytes>)
    ensures Flatten(a + b) == Flatten(a) + Flatten(b)
  {
    if a == [] {
      assert a + b == b;
    } else {
      var ab := a + b;
      assert ab[0] == a[0] && ab[1..] == a[1..] + b;
      FlattenConcat(a[1..], b);
    }
  }

  lemma FlattenAppend(a: seq<Bytes>, x: Bytes)
    ensures Flatten(a + [x]) == Flatten(a) + x
  {
    FlattenConcat(a, [x]);
    assert Flatten([x]) == x + Flatten([]);
  }

  /** Overwriting part i in place, as a splice of the flattened bytes. */
  lemma FlattenUpdate(parts: seq<Bytes>, i: nat, x: Bytes)
    requires i < |parts|
    ensures var off, all := |Flatten(parts[..i])|, Flatten(parts);
      && off + |parts[i]| <= |all|
      && Flatten(parts[i := x]) == all[..off] + x + all[off + |parts[i]|..]
  {
    var a, b := parts[..i], parts[i + 1..];
    assert parts == (a + [parts[i]]) + b && parts[i := x] == (a + [x]) + b;
    FlattenConcat(a + [parts[i]], b);
    FlattenConcat(a + [x], b);
    FlattenAppend(a, parts[i]);
    FlattenAppend(a, x);
  }

  function Pow256(n: nat): nat {
    if n == 0 then 1 else 256 * Pow256(n - 1)
  }

  lemma Pow256Values()
    ensures Pow256(1) == 0x100 && Pow256(2) == 0x1_0000 && Pow256(3) == 0x100_0000 && Pow256(4) == 0x1_0000_0000
    ensures Pow256(8) == 0x1_0000_0000_0000_0000
  {
    assert Pow256(4) == 256 * Pow256(3) && Pow256(3) == 256 * Pow256(2);
    assert Pow256(8) == 256 * Pow256(7) && Pow256(7) == 256 * Pow256(6);
    assert Pow256(6) == 256 * Pow256(5) && Pow256(5) == 256 * Pow256(4);
  }

  /** The n low-order bytes of v, least significant first (binary.LittleEndian). */
  function LittleEndian(v: nat, n: nat): (b: Bytes)
    ensures |b| == n
  {
    if n == 0 then [] else [v % 256] + LittleEndian(v / 256, n - 1)
  }

  function LittleValue(b: Bytes): nat {
    if b == [] then 0 else b[0] + 256 * LittleValue(b[1..])
  }

  /** The n low-order bytes of v, most significant first (binary.BigEndian). */
  function BigEndian(v: nat, n: nat): (b: Bytes)
    ensures |b| == n
  {
    if n == 0 then [] else BigEndian(v / 256, n - 1) + [v % 256]
  }

  function BigValue(b: Bytes): nat {
    if b == [] then 0 else 256 * BigValue(b[..|b| - 1]) + b[|b| - 1]
  }

  /** The value of a byte string by place: byte i counts 256^i, or 256^(|b| - 1 - i) when the most significant comes
      first. */
  function Places(b: Bytes, n: nat, big: bool): nat
    requires n <= |b|
  {
    if n == 0 then 0 else Places(b, n - 1, big) + Pow256(if big then |b| - n else n - 1) * b[n - 1]
  }

  lemma {:induction false} BigPlaces(b: Bytes, low: byte, n: nat)
    requires n <= |b|
    ensures Places(b + [low], n, true) == 256 * Places(b, n, true)
  {
    if n > 0 {
      BigPlaces(b, low, n - 1);
      Shifted(Pow256(|b| - n), b[n - 1]);
    }
  }

  lemma Shifted(p: nat, x: nat)
    ensures 256 * p * x == 256 * (p * x)
  {
  }

  lemma {:induction false} LittlePlaces(low: byte, b: Bytes, n: nat)
    requires n <= |b|
    ensures Places([low] + b, n + 1, false) == low + 256 * Places(b, n, false)
  {
    if n == 0 {
      assert Places([low] + b, 1, false) == Places([low] + b, 0, false) + Pow256(0) * low;
    } else {
      LittlePlaces(low, b, n - 1);
      assert ([low] + b)[n] == b[n - 1];
      Shifted(Pow256(n - 1), b[n - 1]);
    }
  }

  /** Both decoders read positional notation, from their end of the bytes. */
  lemma {:induction false} ValueByPlace(b: Bytes)
    ensures BigValue(b) == Places(b, |b|, true) && LittleValue(b) == Places(b, |b|, false)
  {
    if b != [] {
      var top, low := b[..|b| - 1], b[|b| - 1];
      assert b == top + [low] && b == [b[0]] + b[1..];
      ValueByPlace(top);
      ValueByPlace(b[1..]);
      BigPlaces(top, low, |top|);
      LittlePlaces(b[0], b[1..], |b| - 1);
      assert Pow256(0) == 1;
    }
  }

  /** Decoding inverts encoding on every value that fits n bytes. */
  lemma {:induction false} IntegerRoundTrip(v: nat, n: nat)
    requires v < Pow256(n)
    ensures LittleValue(LittleEndian(v, n)) == v && BigValue(BigEndian(v, n)) == v
  {
    if n > 0 {
      IntegerRoundTrip(v / 256, n - 1);
      assert LittleEndian(v, n)[1..] == LittleEndian(v / 256, n - 1);
      assert BigEndian(v, n)[..n - 1] == BigEndian(v / 256, n - 1);
    }
  }

  /** Encoding inverts decoding on every byte string, so each fitting value has exactly one encoding. */
  lemma {:induction false} LittleUnique(b: Bytes)
    ensures LittleValue(b) < Pow256(|b|) && LittleEndian(LittleValue(b), |b|) == b
  {
    if b != [] {
      LittleUnique(b[1..]);
      assert b == [b[0]] + b[1..];
      assert LittleValue(b) / 256 == LittleValue(b[1..]) && LittleValue(b) % 256 == b[0];
    }
  }

  lemma {:induction false} BigUnique(b: Bytes)
    ensures BigValue(b) < Pow256(|b|) && BigEndian(BigValue(b), |b|) == b
  {
    if b != [] {
      var top, low := b[..|b| - 1], b[|b| - 1];
      BigUnique(top);
      assert b == top + [low];
      assert BigValue(b) / 256 == BigValue(top) && BigValue(b) % 256 == low;
    }
  }

  /** io.Reader over a finite byte source: the network stream, or the random source of an encoder. */
  class Reader {
    var data: Bytes

    constructor (source: Bytes)
      ensures data == source
    {
      data := source;
    }

    /** io.ReadFull of n bytes. */
    method ReadFull(n: nat) returns (r: Result<Bytes>)
      modifies this
      ensures n <= |old(data)| ==> r == Ok(old(data)[..n]) && data == old(data)[n..]
      ensures n > |old(data)| ==> r == Err(ShortRead) && data == []
    {
      if n <= |data| {
        r := Ok(data[..n]);
        data := data[n..];
      } else {
        r := Err(ShortRead);
        data := [];
      }
    }
  }
}
