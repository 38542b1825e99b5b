/** The pool of client addresses: a bitmap of leases over one IPv4 network. Addresses are the 32-bit numbers their
    dotted strings stand for. */
module Pool {
  import opened Bytes
  import opened Words

  const ADDRESSES: nat := 0x1_0000_0000

  type Address = a: nat | a < ADDRESSES

  lemma {:induction false} Pow2Sum(a: nat, b: nat)
    ensures Pow2(a + b) == Pow2(a) * Pow2(b)
  {
    if a > 0 {
      Pow2Sum(a - 1, b);
    }
  }

  /** Clearing the host bits of an address: address & mask. */
  function NetworkOf(address: nat, size: nat): (n: nat)
    requires size > 0
    ensures n <= address < n + size
  {
    address - address % size
  }

  lemma ProductMonotone(a: nat, b: nat, size: nat)
    requires a <= b
    ensures a * size <= b * size
  {
    assert b * size == a * size + (b - a) * size;
  }

  lemma MultipleOf(q: nat, size: nat)
    requires size > 0
    ensures q * size % size == 0
  {
    var k, r := q * size / size, q * size % size;
    assert r == q * size - k * size;
    if q > k {
      ProductMonotone(k + 1, q, size);
      assert false;
    } else if q < k {
      ProductMonotone(q + 1, k, size);
      assert false;
    }
  }

  lemma AddressWidth()
    ensures Pow2(32) == ADDRESSES
  {
    assert Pow2(4) == 16;
    Pow2Sum(4, 4);
    Pow2Sum(8, 8);
    Pow2Sum(16, 16);
  }

  lemma AlignedFits(address: nat, size: nat, rest: nat)
    requires size > 0 && address < rest * size
    ensures NetworkOf(address, size) + size <= rest * size && NetworkOf(address, size) % size == 0
  {
    var q := address / size;
    assert NetworkOf(address, size) == q * size;
    MultipleOf(q, size);
    if q >= rest {
      ProductMonotone(rest, q, size);
      assert false;
    }
    ProductMonotone(q + 1, rest, size);
    assert (q + 1) * size == q * size + size;
  }

  /** A network of 2^hostBits addresses is aligned, so it does not run past the last address. */
  lemma NetworkFits(address: Address, hostBits: nat)
    requires hostBits <= 32
    ensures var size := Pow2(hostBits);
      NetworkOf(address, size) + size <= ADDRESSES && NetworkOf(address, size) % size == 0
  {
    Pow2Sum(32 - hostBits, hostBits);
    AddressWidth();
    hide Pow2, NetworkOf;
    AlignedFits(address, Pow2(hostBits), Pow2(32 - hostBits));
  }

  lemma SmallNetwork(hostBits: nat)
    requires 2 <= hostBits
    ensures Pow2(hostBits) >= 4
  {
    assert Pow2(hostBits) == 2 * Pow2(hostBits - 1) && Pow2(hostBits - 1) == 2 * Pow2(hostBits - 2);
  }

  class AddressPool {
    const ip: nat         // the network address
    const count: nat      // usable addresses: all but network, gateway and broadcast
    const bitset: array<Word>
    var nextHint: nat

    /** Indices below nextHint are leased, and only usable indices ever are. */
    ghost predicate Valid()
      reads this, bitset
    {
      && count > 0 && ip + count + 3 <= ADDRESSES
      && bitset.Length == (count + 63) / 64
      && nextHint < count
      && (forall i :: 0 <= i < nextHint ==> i in Leased())
      && (forall i :: i in Leased() ==> i < count)
    }

    /** The leased indices. */
    ghost function Leased(): set<nat>
      reads bitset
    {
      Marked(bitset[..], 0)
    }

    /** The leased addresses: bit i stands for the address i + 2 above the network's. */
    ghost function Addresses(): set<int>
      reads bitset
    {
      AddressesOf(Leased())
    }

    ghost function AddressesOf(indices: set<nat>): set<int> {
      set i | i in indices :: ip + 2 + i
    }

    lemma ReleaseAddress(addresses: set<int>, leased: set<nat>, idx: nat)
      requires addresses == AddressesOf(leased) && Leased() == leased - {idx}
      ensures Addresses() == addresses - {ip + 2 + idx}
    {
      hide Leased;
      forall a: int ensures a in Addresses() <==> a in addresses && a != ip + 2 + idx {
        AddressLeased(a);
        if a in addresses && a != ip + 2 + idx {
          var i :| i in leased && a == ip + 2 + i;
          assert i in Leased();
        }
      }
    }

    lemma AddressLeased(a: int)
      ensures a in Addresses() <==> ip + 2 <= a && a - ip - 2 in Leased()
    {
      if ip + 2 <= a && a - ip - 2 in Leased() {
        var i: nat := a - ip - 2;
        assert a == ip + 2 + i;
      }
    }

    /** ipString */
    function AddressOf(i: nat): (a: Address)
      requires ip + count + 3 <= ADDRESSES && i < count
      ensures ip + 2 <= a < ip + count + 2
    {
      ip + i + 2
    }

    /** index, for an address that parsed as IPv4 */
    function IndexOf(a: Address): Option<nat> {
      if a < ip + 2 || a >= ip + count + 2 then None else Some(a - ip - 2)
    }

    /** The two are inverse: every index has its own address, and exactly the usable addresses have an index. */
    lemma IndexInvertsAddress(i: nat, a: Address)
      requires ip + count + 3 <= ADDRESSES
      ensures i < count ==> IndexOf(AddressOf(i)) == Some(i)
      ensures IndexOf(a).Some? ==> IndexOf(a).value < count && AddressOf(IndexOf(a).value) == a
      ensures IndexOf(a).None? <==> a <= ip + 1 || a >= ip + count + 2
    {
    }

    /** The empty pool of the network of `address`. */
    constructor (address: Address, ones: nat)
      requires ones <= 30
      ensures Valid() && fresh(bitset) && Leased() == {} && Addresses() == {}
      ensures ip <= address < ip + count + 3 && count + 3 == Pow2(32 - ones) && ip % Pow2(32 - ones) == 0
    {
      var size := Pow2(32 - ones);
      NetworkFits(address, 32 - ones);
      SmallNetwork(32 - ones);
      ip := NetworkOf(address, size);
      count := size - 3;
      bitset := new Word[(size - 3 + 63) / 64](_ => 0);
      nextHint := 0;
      new;
      MarkedZero(bitset[..], 0);
    }

    /** p.bitset[idx/64] & (1 << (idx%64)) != 0 */
    predicate IsLeased(idx: nat)
      requires idx < 64 * bitset.Length
      reads bitset
      ensures IsLeased(idx) <==> idx in Leased()
    {
      assert bitset[..][idx / 64] == bitset[idx / 64];
      assert MarkedAt(bitset[..], 0, idx) <==> BitAt(bitset[..], idx);
      Bit(bitset[idx / 64], idx % 64)
    }

    method Mark(idx: nat)
      requires idx < 64 * bitset.Length
      modifies bitset
      ensures Leased() == old(Leased()) + {idx} && Addresses() == old(Addresses()) + {ip + 2 + idx}
    {
      MarkedSet(bitset[..], 0, idx);
      ghost var before := bitset[..];
      bitset[idx / 64] := SetBit(bitset[idx / 64], idx % 64);
      assert bitset[..] == before[idx / 64 := SetBit(before[idx / 64], idx % 64)];
      assert Leased() == old(Leased()) + {idx};
    }

    /** Lease one free index all of whose predecessors are leased, and move the hint past it. */
    method Take(idx: nat)
      requires Valid() && idx < count && idx !in Leased() && forall j :: 0 <= j < idx ==> j in Leased()
      modifies this`nextHint, bitset
      ensures Valid() && Leased() == old(Leased()) + {idx} && Addresses() == old(Addresses()) + {ip + 2 + idx}
      ensures nextHint == if idx + 1 < count then idx + 1 else 0
    {
      hide Around, Leased;
      Mark(idx);
      nextHint := Around(idx + 1, count);
    }

    /** Allocate: the lowest free address; none exactly when all are leased. What it hands out is never the network,
        gateway or broadcast address. */
    method Allocate() returns (r: Option<Address>)
      requires Valid()
      modifies this`nextHint, bitset
      ensures Valid()
      ensures r.None? <==> forall i :: 0 <= i < count ==> i in old(Leased())
      ensures r.None? ==> Leased() == old(Leased())
      ensures r.Some? ==> IndexOf(r.value).Some? && var idx := IndexOf(r.value).value;
        && idx !in old(Leased()) && Leased() == old(Leased()) + {idx}
        && (forall j :: 0 <= j < idx ==> j in old(Leased()))
      ensures r.None? <==> forall a :: ip + 2 <= a < ip + count + 2 ==> a in old(Addresses())
      ensures r.None? ==> Addresses() == old(Addresses())
      ensures r.Some? ==>
        && ip + 2 <= r.value < ip + count + 2 && r.value !in old(Addresses())
        && Addresses() == old(Addresses()) + {r.value}
        && (forall a :: ip + 2 <= a < r.value ==> a in old(Addresses()))
        && nextHint == if r.value == ip + count + 1 then 0 else r.value - ip - 1
    {
      hide Around, Leased, Addresses;
      forall a: int {
        AddressLeased(a);
      }
      ghost var leased, was := Leased(), Addresses();
      var idx := FindFree();
      assert Leased() == leased && Addresses() == was;
      if idx.None? {
        assert forall i :: 0 <= i < count ==> i in leased;
        forall a | ip + 2 <= a < ip + count + 2 ensures a in Addresses() {
          var i: nat := a - ip - 2;
          assert i in Leased();
        }
        return None;
      }
      Take(idx.value);
      return Some(AddressOf(idx.value));
    }

    /** The loop of Allocate: the first free index from the hint on, once around the pool. */
    method FindFree() returns (r: Option<nat>)
      requires Valid()
      ensures r.None? <==> forall i :: 0 <= i < count ==> i in Leased()
      ensures r.Some? ==> r.value < count && r.value !in Leased() && forall j :: 0 <= j < r.value ==> j in Leased()
    {
      hide Around, Leased;
      for i := 0 to count
        invariant forall j :: nextHint <= j < nextHint + i && j < count ==> j in Leased()
      {
        var idx := Around(nextHint + i, count);
        if !IsLeased(idx) {
          return Some(idx);
        }
      }
      return None;
    }

    method Clear(idx: nat)
      requires idx < 64 * bitset.Length
      modifies bitset
      ensures Leased() == old(Leased()) - {idx}
    {
      MarkedClear(bitset[..], 0, idx);
      ghost var before := bitset[..];
      bitset[idx / 64] := ClearBit(bitset[idx / 64], idx % 64);
      assert bitset[..] == before[idx / 64 := ClearBit(before[idx / 64], idx % 64)];
    }

    /** Release: the lease of this one address ends; an address outside the pool changes nothing. */
    method Release(a: Address)
      requires Valid()
      modifies this`nextHint, bitset
      ensures Valid()
      ensures Leased() == if IndexOf(a).Some? then old(Leased()) - {IndexOf(a).value} else old(Leased())
      ensures Addresses() == old(Addresses()) - {a as int}
      ensures nextHint == if ip + 2 <= a < ip + 2 + old(nextHint) then a - ip - 2 else old(nextHint)
    {
      var found := IndexOf(a);
      ghost var was, leased := Addresses(), Leased();
      assert was == AddressesOf(leased);
      AddressLeased(a);
      hide Leased, Addresses;
      if found.None? {
        return;
      }
      var idx := found.value;
      Clear(idx);
      ReleaseAddress(was, leased, idx);
      if idx < nextHint {
        nextHint := idx;
      }
    }
  }

  /** newAddressPool, for an address and prefix length that parsed as IPv4: any prefix up to 30 leaves a usable
      address. */
  method NewAddressPool(address: Address, ones: nat) returns (r: Option<AddressPool>)
    requires ones <= 32
    ensures r.Some? <==> ones <= 30
    ensures r.Some? ==> var p := r.value;
      && fresh(p) && fresh(p.bitset) && p.Valid() && p.Leased() == {} && p.Addresses() == {}
      && p.ip <= address < p.ip + p.count + 3 && p.count + 3 == Pow2(32 - ones) && p.ip % Pow2(32 - ones) == 0
  {
    if ones > 30 {
      return None;
    }
    var pool := new AddressPool(address, ones);
    return Some(pool);
  }

  /** n % count, for one turn around the pool at most. */
  function Around(n: nat, count: nat): (r: nat)
    requires 0 < count && n < 2 * count
    ensures r == if n < count then n else n - count
  {
    n % count
  }
}
