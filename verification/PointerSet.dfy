/**
 The hash set behind a distinct: it hashes addresses, whatever equality it is given, so that equal elements
 can be in different buckets.
 */
module PointerSets {
  import opened Arithmetic
  import Bits
  import HashMaps
  import HashTables
  import Pointers

  /** Elements are pointers: where each of them points, and the equality that a distinct is given. */
  datatype Identity<!T(!new)> = Identity(address: T -> nat, equals: (T, T) -> bool)

  const INITIAL_CAPACITY := 16

  /** The load factor: three quarters. */
  function Load(): HashMaps.LoadFactor {
    HashMaps.LoadFactor(3, 4)
  }

  // ---------- How large the table is ----------

  /** The buckets of the set when it holds `n` elements. */
  function TableSize(n: nat): (size: nat)
    ensures size >= INITIAL_CAPACITY
  {
    Doubling(INITIAL_CAPACITY, n)
  }

  function Doubling(capacity: nat, n: nat): (size: nat)
    requires capacity > 0
    ensures size >= capacity
    decreases Bits.LARGEST - capacity
  {
    if 4 * n <= 3 * capacity || 2 * capacity > Bits.LARGEST then capacity else Doubling(2 * capacity, n)
  }

  /** Up to three quarters of the largest number of buckets the set can grow. */
  predicate HasRoom(n: nat) {
    4 * n < 3 * Bits.LARGEST
  }

  /** That many elements find a place. */
  predicate FitsTable(n: nat) {
    4 * n <= 3 * Bits.LARGEST
  }

  lemma {:induction false} TableSizeIsPower(capacity: nat, i: nat, n: nat) returns (k: nat)
    requires i <= 30 && (i == 4 ==> capacity == 16) && (i != 4 ==> capacity == Bits.Pow2(i))
    ensures k <= 30 && capacity > 0 && Doubling(capacity, n) == Bits.Pow2(k)
    decreases 30 - i
  {
    Pointers.SmallPowers();
    Bits.LargestIsPower();
    hide Bits.Pow2;
    if 4 * n <= 3 * capacity || 2 * capacity > Bits.LARGEST {
      k := i;
    } else {
      Pointers.EvenPower(i + 1);
      k := TableSizeIsPower(2 * capacity, i + 1, n);
    }
  }

  lemma {:induction false} OneMoreDoubling(q: nat, n: nat) returns (r: nat)
    requires q >= 4
    ensures Doubling(4 * q, n) == 4 * r && r >= q && (n <= 3 * r || 8 * r > Bits.LARGEST)
    ensures Doubling(4 * q, n + 1) == if n < 3 * r || 8 * r > Bits.LARGEST then 4 * r else 8 * r
    decreases Bits.LARGEST - q
  {
    if n <= 3 * q || 8 * q > Bits.LARGEST {
      r := q;
      if n == 3 * q && 8 * q <= Bits.LARGEST {
        assert Doubling(4 * q, n + 1) == Doubling(8 * q, n + 1);
        assert Doubling(8 * q, n + 1) == 8 * q;
      }
    } else {
      r := OneMoreDoubling(2 * q, n);
      assert Doubling(4 * q, n) == Doubling(8 * q, n) && Doubling(4 * q, n + 1) == Doubling(8 * q, n + 1);
    }
  }

  lemma ThreeQuarters(r: nat)
    requires 4 <= r && 4 * r <= Bits.LARGEST
    ensures HashMaps.ComputeThreshold(4 * r, Load()) == 3 * r
  {
    DivBounds(HashMaps.MAX_CAPACITY, 4 * r, 1, HashMaps.MAX_CAPACITY);
    assert 4 * r * 3 == 3 * r * 4;
  }

  lemma TableRange(n: nat)
    ensures TableSize(n) <= Bits.LARGEST && (2 * TableSize(n) > Bits.LARGEST ==> TableSize(n) == Bits.LARGEST)
  {
    var k := TableSizeIsPower(INITIAL_CAPACITY, 4, n);
    hide Bits.Pow2;
    Bits.PowMono(k, 30);
    Bits.LargestIsPower();
    Bits.PowerAround(TableSize(n));
  }

  /** The table is that of the hash tables: it starts with sixteen buckets, and each element makes it grow as there. */
  lemma TableGrows(n: nat)
    ensures TableSize(0) == INITIAL_CAPACITY
    ensures var now := HashMaps.Sizes(n, TableSize(n));
      && (HashMaps.CanGrow(now, Load(), true) <==> HasRoom(n))
      && (HasRoom(n) ==> HashMaps.Grown(now, Load(), true) == TableSize(n + 1))
  {
    TableRange(n);
    hide Doubling, HashMaps.ComputeThreshold;
    var r := OneMoreDoubling(4, n);
    ThreeQuarters(r);
    SmallTable();
  }

  lemma SmallTable()
    ensures TableSize(0) == INITIAL_CAPACITY
  {
  }

  // ---------- What the set knows ----------

  function Index<T(!new)>(id: Identity<T>, x: T, size: nat): (b: nat)
    requires size > 0
    ensures b < size
  {
    HashTables.Bucket(Pointers.PointerHash(id.address(x)), size)
  }

  predicate SameBucket<T(!new)>(id: Identity<T>, a: T, b: T, size: nat)
    requires size > 0
  {
    Index(id, a, size) == Index(id, b, size)
  }

  /** The set of these elements finds one equal to `x`: it looks for it in a single bucket. */
  predicate Known<T(!new)>(id: Identity<T>, seen: seq<T>, x: T) {
    exists i | 0 <= i < |seen| :: SameBucket(id, seen[i], x, TableSize(|seen|)) && id.equals(seen[i], x)
  }

  /** Addresses that agree modulo the number of buckets hash to the same bucket. */
  lemma BucketsByAddress<T(!new)>(id: Identity<T>, a: T, b: T, n: nat)
    ensures SameBucket(id, a, b, TableSize(n)) <==> id.address(a) % TableSize(n) == id.address(b) % TableSize(n)
  {
    hide Bits.And, Bits.Pow2, Pointers.PointerHash;
    var k := TableSizeIsPower(INITIAL_CAPACITY, 4, n);
    Pointers.SameBucketByAddress(id.address(a), id.address(b), k);
  }

  /** Every bucket holds just the members that hash to it. */
  ghost predicate Spread<T(!new)>(id: Identity<T>, buckets: seq<seq<T>>, members: seq<T>) {
    |buckets| > 0
    && forall b, x | 0 <= b < |buckets| :: x in buckets[b] <==> x in members && Index(id, x, |buckets|) == b
  }

  lemma SpreadNothing<T(!new)>(id: Identity<T>, buckets: seq<seq<T>>)
    requires |buckets| > 0 && forall b | 0 <= b < |buckets| :: buckets[b] == []
    ensures Spread(id, buckets, [])
  {
  }

  lemma SpreadOneMore<T(!new)>(id: Identity<T>, buckets: seq<seq<T>>, members: seq<T>, x: T)
    requires Spread(id, buckets, members)
    ensures |buckets| > 0
    ensures var b := Index(id, x, |buckets|); Spread(id, buckets[b := [x] + buckets[b]], members + [x])
  {
    hide Index;
    var i := Index(id, x, |buckets|);
    var buckets' := buckets[i := [x] + buckets[i]];
    forall b, y | 0 <= b < |buckets'|
      ensures y in buckets'[b] <==> y in members + [x] && Index(id, y, |buckets'|) == b
    {
      assert y in buckets[b] <==> y in members && Index(id, y, |buckets|) == b;
    }
  }

  lemma SpreadSame<T(!new)>(id: Identity<T>, buckets: seq<seq<T>>, members: seq<T>, members': seq<T>)
    requires Spread(id, buckets, members) && forall x :: x in members <==> x in members'
    ensures Spread(id, buckets, members')
  {
    hide Index;
  }

  lemma KnownInBucket<T(!new)>(id: Identity<T>, buckets: seq<seq<T>>, members: seq<T>, x: T)
    requires Spread(id, buckets, members) && |buckets| == TableSize(|members|)
    ensures |buckets| > 0
    ensures Known(id, members, x) <==> exists y | y in buckets[Index(id, x, |buckets|)] :: id.equals(y, x)
  {
    hide Index, TableSize;
    var chain := buckets[Index(id, x, |buckets|)];
    if i :| 0 <= i < |members| && SameBucket(id, members[i], x, |buckets|) && id.equals(members[i], x) {
      assert members[i] in members;
      assert members[i] in chain;
    }
    if y :| y in chain && id.equals(y, x) {
      assert y in members;
      var i :| 0 <= i < |members| && members[i] == y;
      assert SameBucket(id, members[i], x, |buckets|);
    }
  }

  // ---------- The set ----------

  class PointerSet<T(!new)> {
    var buckets: array<seq<T>>
    var size: nat
    var threshold: nat
    const id: Identity<T>
    /** The elements in the order in which they were added. */
    ghost var members: seq<T>

    ghost predicate Valid()
      reads this, buckets
    {
      && size == |members| && buckets.Length == TableSize(size)
      && threshold == HashMaps.ComputeThreshold(buckets.Length, Load())
      && Spread(id, buckets[..], members)
    }

    constructor (id: Identity<T>)
      ensures Valid() && members == [] && this.id == id && fresh(buckets)
    {
      this.id := id;
      size, members := 0, [];
      threshold := HashMaps.ComputeThreshold(INITIAL_CAPACITY, Load());
      buckets := new seq<T>[INITIAL_CAPACITY](_ => []);
      new;
      SmallTable();
      SpreadNothing(id, buckets[..]);
    }

    method Contains(x: T) returns (found: bool)
      requires Valid()
      ensures found <==> Known(id, members, x)
    {
      hide Known, Index, TableSize, HashMaps.ComputeThreshold;
      KnownInBucket(id, buckets[..], members, x);
      var chain := buckets[Index(id, x, buckets.Length)];
      var j := 0;
      while j < |chain| && !id.equals(chain[j], x)
        invariant 0 <= j <= |chain| && forall k | 0 <= k < j :: !id.equals(chain[k], x)
      {
        j := j + 1;
      }
      found := j < |chain|;
      if found {
        assert chain[j] in chain;
      }
    }

    /** Moves every element to the bucket of twice as many that it hashes to. */
    method Rehash() returns (grown: array<seq<T>>)
      requires Valid()
      ensures fresh(grown) && grown.Length == 2 * buckets.Length && Spread(id, grown[..], members)
    {
      hide Index, TableSize, HashMaps.ComputeThreshold, Spread;
      grown := new seq<T>[2 * buckets.Length](_ => []);
      ghost var moved: seq<T> := [];
      SpreadNothing(id, grown[..]);
      var i := 0;
      while i < buckets.Length
        invariant 0 <= i <= buckets.Length && Spread(id, grown[..], moved)
        invariant forall x :: x in moved <==> x in members && Index(id, x, buckets.Length) < i
        modifies grown
      {
        BucketMembers(i);
        ghost var before := moved;
        var j := 0;
        while j < |buckets[i]|
          invariant 0 <= j <= |buckets[i]| && Spread(id, grown[..], moved) && moved == before + buckets[i][..j]
          modifies grown
        {
          var x := buckets[i][j];
          SpreadOneMore(id, grown[..], moved, x);
          ghost var all := grown[..];
          var b := Index(id, x, grown.Length);
          grown[b] := [x] + grown[b];
          assert grown[..] == all[b := [x] + all[b]];
          assert buckets[i][..j + 1] == buckets[i][..j] + [x];
          moved := moved + [x];
          j := j + 1;
        }
        assert buckets[i][..j] == buckets[i];
        i := i + 1;
      }
      SpreadSame(id, grown[..], moved, members);
    }

    lemma BucketMembers(i: nat)
      requires Valid() && i < buckets.Length
      ensures forall x :: x in buckets[i] <==> x in members && Index(id, x, buckets.Length) == i
    {
    }

    /** Adds an element unless an equal one is found; `more` and `room` are the memory for buckets and a node. */
    method Add(x: T, more: bool, room: bool) returns (added: bool, ok: bool)
      requires Valid()
      modifies this, buckets
      ensures ok <==> (Known(id, old(members), x) ||
                       (room && HashMaps.CanGrow(HashMaps.Sizes(old(size), old(buckets.Length)), Load(), more)))
      ensures added <==> ok && !Known(id, old(members), x)
      ensures more && room && HasRoom(|old(members)|) ==> ok
      ensures members == if added then old(members) + [x] else old(members)
      ensures ok ==> Valid() && (buckets == old(buckets) || fresh(buckets))
    {
      hide Known, Index, TableSize, HashMaps.ComputeThreshold, Spread;
      var found := Contains(x);
      if found {
        return false, true;
      }
      ghost var n := |members|;
      TableGrows(n);
      TableRange(n);
      CanDouble(buckets.Length, HashMaps.MAX_CAPACITY);
      if size >= threshold {
        if HashMaps.GROWN_FACTOR > HashMaps.MAX_CAPACITY / buckets.Length || !more {
          return false, false;
        }
        var grown := Rehash();
        buckets := grown;
        threshold := HashMaps.ComputeThreshold(buckets.Length, Load());
      }
      if !room {
        return false, false;
      }
      SpreadOneMore(id, buckets[..], members, x);
      ghost var all := buckets[..];
      var b := Index(id, x, buckets.Length);
      buckets[b] := [x] + buckets[b];
      assert buckets[..] == all[b := [x] + all[b]];
      size, members := size + 1, members + [x];
      added, ok := true, true;
    }
  }
}
