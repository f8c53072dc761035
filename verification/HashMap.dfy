/**
 The chained hash map: an array of buckets, each the head of a chain of entries. The ghost field
 `chains` lists the entries of every bucket in order.
 */
module HashMaps {
  import opened Arithmetic
  import opened Bits
  import opened HashTables
  import opened Sequences

  const MIN_CAPACITY := 8
  const MAX_CAPACITY := 1_073_741_824
  const GROWN_FACTOR := 2

  /** A load factor as a fraction, at least one half. */
  datatype LoadFactor = LoadFactor(up: nat, down: nat) {
    predicate Valid() {
      down > 0 && 2 * up >= down
    }
  }

  function ComputeThreshold(capacity: nat, load: LoadFactor): (t: nat)
    requires capacity > 0 && load.Valid()
  {
    if load.up > load.down * (MAX_CAPACITY / capacity) then MAX_CAPACITY else capacity * load.up / load.down
  }

  lemma ThresholdRange(capacity: nat, load: LoadFactor)
    requires MIN_CAPACITY <= capacity <= MAX_CAPACITY && load.Valid()
    ensures 0 < ComputeThreshold(capacity, load) <= MAX_CAPACITY
    ensures load.up <= load.down * (MAX_CAPACITY / capacity) ==>
      ComputeThreshold(capacity, load) == capacity * load.up / load.down
  {
    var up, down, q := load.up, load.down, MAX_CAPACITY / capacity;
    if up <= down * q {
      AtLeastOne(capacity, up, down);
      AtMostMax(capacity, q, up, down);
      DivBounds(capacity * up, down, 1, MAX_CAPACITY);
    }
  }

  lemma AtLeastOne(capacity: nat, up: nat, down: nat)
    requires MIN_CAPACITY <= capacity && 2 * up >= down
    ensures capacity * up >= down
  {
    MulMono(MIN_CAPACITY, capacity, up);
  }

  lemma AtMostMax(capacity: nat, q: nat, up: nat, down: nat)
    requires up <= down * q && q * capacity <= MAX_CAPACITY
    ensures capacity * up <= MAX_CAPACITY * down
  {
    MulMono(up, down * q, capacity);
    MulMono(q * capacity, MAX_CAPACITY, down);
    assert (down * q) * capacity == (q * capacity) * down;
  }

  /** At the largest capacity at least half of it can be filled. */
  lemma LargestThreshold(load: LoadFactor)
    requires load.Valid()
    ensures ComputeThreshold(MAX_CAPACITY, load) >= MAX_CAPACITY / 2
  {
    if load.up <= load.down {
      MulMono(load.down, 2 * load.up, MAX_CAPACITY / 2);
      MulMono(load.up, load.down, MAX_CAPACITY);
      DivBounds(MAX_CAPACITY * load.up, load.down, MAX_CAPACITY / 2, MAX_CAPACITY);
    }
  }

  /** Below a load factor of two the ceiling is out of reach while the capacity can double. */
  lemma BelowCeiling(capacity: nat, load: LoadFactor)
    requires MIN_CAPACITY <= capacity && 2 * capacity <= MAX_CAPACITY && load.Valid() && load.up < 2 * load.down
    ensures ComputeThreshold(capacity, load) < MAX_CAPACITY
  {
    var up, down := load.up, load.down;
    DivBounds(MAX_CAPACITY, capacity, 2, MAX_CAPACITY);
    MulMono(2, MAX_CAPACITY / capacity, down);
    MulMono(up + 1, 2 * down, capacity);
    StrictDiv(capacity * up, down, 2 * capacity);
  }

  lemma TwiceDiv(a: nat, d: nat)
    requires d > 0
    ensures 2 * a / d >= 2 * (a / d)
  {
    var q := a / d;
    assert a == q * d + a % d;
    var p := 2 * a / d;
    assert 2 * a == p * d + 2 * a % d;
    if p < 2 * q {
      MulMono(p + 1, 2 * q, d);
    }
  }

  /** Under the ceiling the threshold at least doubles. */
  lemma UnderCeiling(capacity: nat, load: LoadFactor)
    requires MIN_CAPACITY <= capacity && 2 * capacity <= MAX_CAPACITY && load.Valid()
    requires load.up <= load.down * (MAX_CAPACITY / (2 * capacity))
    ensures ComputeThreshold(2 * capacity, load) >= 2 * ComputeThreshold(capacity, load)
  {
    DivShrinks(MAX_CAPACITY, capacity, 2 * capacity);
    MulMono(MAX_CAPACITY / (2 * capacity), MAX_CAPACITY / capacity, load.down);
    TwiceDiv(capacity * load.up, load.down);
    assert 2 * (capacity * load.up) == 2 * capacity * load.up;
  }

  /** Doubling the capacity raises the threshold exactly when it has not reached its ceiling. */
  lemma ThresholdGrows(capacity: nat, load: LoadFactor)
    requires MIN_CAPACITY <= capacity && 2 * capacity <= MAX_CAPACITY && load.Valid()
    ensures ComputeThreshold(2 * capacity, load) > ComputeThreshold(capacity, load) <==>
      ComputeThreshold(capacity, load) < MAX_CAPACITY
  {
    ThresholdRange(capacity, load);
    ThresholdRange(2 * capacity, load);
    if load.up <= load.down * (MAX_CAPACITY / (2 * capacity)) {
      UnderCeiling(capacity, load);
    }
  }

  /** With a load factor of two the last doubling does not raise the threshold. */
  lemma ThresholdStuck()
    ensures var load, half := LoadFactor(2, 1), MAX_CAPACITY / 2;
      ComputeThreshold(half, load) == ComputeThreshold(2 * half, load) == MAX_CAPACITY
  {
  }

  /** How many entries and buckets there are. */
  datatype Sizes = Sizes(size: int, capacity: nat)

  /** Room for one more entry: below the threshold, or after doubling the buckets, for which `more` is the memory. */
  predicate CanGrow(s: Sizes, load: LoadFactor, more: bool)
    requires s.capacity > 0 && load.Valid()
  {
    s.size < ComputeThreshold(s.capacity, load) || (more && GROWN_FACTOR * s.capacity <= MAX_CAPACITY)
  }

  /** The buckets once there is room for one more entry, or there cannot be. */
  function Grown(s: Sizes, load: LoadFactor, more: bool): (capacity: nat)
    requires s.capacity > 0 && load.Valid()
    ensures capacity >= s.capacity
  {
    if s.size >= ComputeThreshold(s.capacity, load) && CanGrow(s, load, more)
    then GROWN_FACTOR * s.capacity else s.capacity
  }

  // ---------- Chains of entries ----------

  class Entry<K, V> {
    const key: K
    const hash: nat
    var value: V
    var next: Entry?<K, V>

    constructor (key: K, value: V, hash: nat)
      ensures this.key == key && this.value == value && this.hash == hash && next == null
    {
      this.key, this.value, this.hash, next := key, value, hash, null;
    }
  }

  ghost predicate Linked<K, V>(ns: seq<Entry<K, V>>)
    reads ns
  {
    && (forall i, j | 0 <= i < |ns| && j == i + 1 < |ns| :: ns[i].next == ns[j])
    && (ns != [] ==> ns[|ns| - 1].next == null)
  }

  ghost function First<K, V>(ns: seq<Entry<K, V>>): Entry?<K, V> {
    if ns == [] then null else ns[0]
  }

  ghost function View<K, V>(ns: seq<Entry<K, V>>): (c: Chain<K, V>)
    reads ns
    ensures |c| == |ns|
  {
    seq(|ns|, i requires 0 <= i < |ns| reads ns => (ns[i].key, ns[i].value))
  }

  lemma ViewAt<K, V>(ns: seq<Entry<K, V>>)
    ensures forall i | 0 <= i < |ns| :: View(ns)[i] == (ns[i].key, ns[i].value)
  {
  }

  type Chains<K, V> = seq<seq<Entry<K, V>>>

  ghost function Nodes<K, V>(chains: Chains<K, V>): set<Entry<K, V>> {
    set i, j | 0 <= i < |chains| && 0 <= j < |chains[i]| :: chains[i][j]
  }

  lemma NodesAllocated<K, V>(chains: Chains<K, V>)
    ensures forall e | e in Nodes(chains) :: allocated(e)
  {
  }

  ghost function TableOf<K, V>(chains: Chains<K, V>): (t: Table<K, V>)
    reads Nodes(chains)
    ensures |t| == |chains|
  {
    seq(|chains|, i requires 0 <= i < |chains| reads Nodes(chains) => View(chains[i]))
  }

  /** Every bucket holds the head of its chain, the chains are linked, and entries store their key's hash. */
  ghost predicate Bound<K(!new), V>(buckets: seq<Entry?<K, V>>, chains: Chains<K, V>, h: Hashing<K>)
    reads Nodes(chains)
  {
    && |buckets| == |chains|
    && (forall i | 0 <= i < |chains| :: buckets[i] == First(chains[i]) && Linked(chains[i]))
    && (forall i, j | 0 <= i < |chains| && 0 <= j < |chains[i]| :: chains[i][j].hash == h.hash(chains[i][j].key))
  }

  /** An entry occurs at one place only, since its key does. */
  lemma OnePlace<K(!new), V>(h: Hashing<K>, chains: Chains<K, V>, i: nat, j: nat)
    requires Coherent(h) && |chains| > 0 && Placed(h, TableOf(chains)) && i < |chains| && j < |chains[i]|
    ensures forall a, b | 0 <= a < |chains| && 0 <= b < |chains[a]| && (a != i || b != j) ::
      chains[a][b] != chains[i][j]
  {
    var t := TableOf(chains);
    forall a, b | 0 <= a < |chains| && 0 <= b < |chains[a]| && (a != i || b != j) ensures chains[a][b] != chains[i][j] {
      assert Sound(h, t[a], a, |t|) && Sound(h, t[i], i, |t|);
      assert t[a][b].0 == chains[a][b].key && t[i][j].0 == chains[i][j].key;
      EqualsLaws(h, chains[i][j].key, chains[i][j].key, chains[i][j].key);
      if a == i {
        assert !h.equals(t[i][if b < j then b else j].0, t[i][if b < j then j else b].0);
      }
    }
  }

  /** Changing one chain of the table. */
  lemma OneChain<K, V>(chains: Chains<K, V>, t: Table<K, V>, i: nat, ns: seq<Entry<K, V>>)
    requires |t| == |chains| && i < |chains| && forall a | 0 <= a < |chains| && a != i :: View(chains[a]) == t[a]
    ensures TableOf(chains[i := ns]) == t[i := View(ns)]
  {
  }

  lemma PrependedView<K, V>(e: Entry<K, V>, ns: seq<Entry<K, V>>)
    requires Linked(ns) && e.next == First(ns)
    ensures Linked([e] + ns) && View([e] + ns) == [(e.key, e.value)] + View(ns)
  {
    var r := [e] + ns;
    forall i, j | 0 <= i < |r| && j == i + 1 < |r| ensures r[i].next == r[j] {
      if i > 0 {
        assert r[i] == ns[i - 1] && r[j] == ns[j - 1];
      }
    }
  }

  lemma TailView<K, V>(ns: seq<Entry<K, V>>)
    requires Linked(ns) && ns != []
    ensures Linked(ns[1..]) && View(ns[1..]) == View(ns)[1..] && ns[0].next == First(ns[1..])
  {
    var r := ns[1..];
    forall i, j | 0 <= i < |r| && j == i + 1 < |r| ensures r[i].next == r[j] {
      assert r[i] == ns[i + 1] && r[j] == ns[j + 1];
    }
  }

  /** Puts a loose entry in front of bucket `i`. */
  method PushFront<K(!new), V>(buckets: array<Entry?<K, V>>, i: nat, entry: Entry<K, V>, ghost chains: Chains<K, V>,
                               ghost h: Hashing<K>)
    requires i < buckets.Length && Bound(buckets[..], chains, h) && entry.next == null
      && entry.hash == h.hash(entry.key)
    requires forall a, b | 0 <= a < |chains| && 0 <= b < |chains[a]| :: chains[a][b] != entry
    modifies buckets, entry`next
    ensures Bound(buckets[..], chains[i := [entry] + chains[i]], h)
    ensures TableOf(chains[i := [entry] + chains[i]])
      == old(TableOf(chains))[i := [(entry.key, entry.value)] + old(TableOf(chains))[i]]
  {
    hide View, Linked;
    ghost var t := TableOf(chains);
    var current := buckets[i];
    if current != null {
      entry.next := current;
    }
    buckets[i] := entry;
    assert forall a | 0 <= a < |chains| :: Linked(chains[a]) && View(chains[a]) == t[a];
    PrependedView(entry, chains[i]);
    OneChain(chains, t, i, [entry] + chains[i]);
  }

  // ---------- Rehashing ----------

  /** In the middle of a rehash: the chains still to be moved, and the grown buckets with what has been moved. */
  ghost predicate Rehashing<K(!new), V>(h: Hashing<K>, table: Table<K, V>, to: seq<Entry?<K, V>>, all: set<Entry<K, V>>,
                                        moved: Chains<K, V>, rest: Chains<K, V>)
    reads Nodes(moved), Nodes(rest)
  {
    && |table| > 0 && Placed(h, TableOf(moved)) && Placed(h, TableOf(rest))
    && Splits(h, table, TableOf(moved), TableOf(rest))
    && Bound(to, moved, h)
    && (forall i | 0 <= i < |rest| :: Linked(rest[i]))
    && (forall i, j | 0 <= i < |rest| && 0 <= j < |rest[i]| ::
      rest[i][j].hash == h.hash(rest[i][j].key) && rest[i][j] in all)
    && (forall i, j | 0 <= i < |moved| && 0 <= j < |moved[i]| :: moved[i][j] in all)
  }

  lemma NotMoved<K(!new), V>(h: Hashing<K>, table: Table<K, V>, moved: Chains<K, V>, rest: Chains<K, V>, i: nat)
    requires Coherent(h) && |table| > 0 && Placed(h, TableOf(moved)) && Placed(h, TableOf(rest))
    requires Splits(h, table, TableOf(moved), TableOf(rest)) && i < |rest| && rest[i] != []
    ensures forall a, b | 0 <= a < |moved| && 0 <= b < |moved[a]| :: moved[a][b] != rest[i][0]
  {
    hide Lookup, Count;
    PairFound(h, TableOf(rest), i, 0);
    forall a, b | 0 <= a < |moved| && 0 <= b < |moved[a]| ensures moved[a][b] != rest[i][0] {
      PairFound(h, TableOf(moved), a, b);
      assert TableOf(moved)[a][b].0 == moved[a][b].key;
      assert TableOf(rest)[i][0].0 == rest[i][0].key;
    }
  }

  /** Takes the head of chain `i` over to the grown buckets. */
  method MoveEntry<K(!new), V>(to: array<Entry?<K, V>>, entry: Entry<K, V>, ghost i: nat, ghost h: Hashing<K>,
                               ghost table: Table<K, V>, ghost all: set<Entry<K, V>>,
                               ghost moved: Chains<K, V>, ghost rest: Chains<K, V>)
    returns (next: Entry?<K, V>, ghost moved': Chains<K, V>)
    requires Coherent(h) && Rehashing(h, table, to[..], all, moved, rest)
    requires i < |rest| && rest[i] != [] && entry == rest[i][0]
    modifies to, entry`next
    ensures Rehashing(h, table, to[..], all, moved', rest[i := rest[i][1..]]) && next == First(rest[i][1..])
    ensures |moved'| == |moved|
  {
    hide Coherent, Placed, Splits, Linked, View, First;
    ghost var t, m := TableOf(rest), TableOf(moved);
    NotMoved(h, table, moved, rest, i);
    OnePlace(h, rest, i, 0);
    TailView(rest[i]);
    ViewAt(rest[i]);
    MoveHead(h, table, m, t, i);
    ghost var tail := rest[i][1..];
    assert forall a | 0 <= a < |tail| :: tail[a] == rest[i][a + 1] && tail[a] != entry;
    var index := Bucket(entry.hash, to.Length);
    next := entry.next;
    entry.next := null;
    assert forall a | 0 <= a < |rest| && a != i :: Linked(rest[a]) && View(rest[a]) == t[a];
    assert Linked(tail) && View(tail) == t[i][1..];
    OneChain(rest, t, i, tail);
    assert entry !in Nodes(moved) && TableOf(moved) == m && t[i][0] == (entry.key, entry.value);
    PushFront(to, index, entry, moved, h);
    moved' := moved[index := [entry] + moved[index]];
    assert forall a, b | 0 <= a < |moved'| && 0 <= b < |moved'[a]| :: moved'[a][b] in all;
    ghost var rest' := rest[i := tail];
    assert TableOf(moved') == m[index := [t[i][0]] + m[index]];
    assert TableOf(rest') == t[i := t[i][1..]];
    assert Bound(to[..], moved', h);
    assert forall a | 0 <= a < |rest'| :: Linked(rest'[a]);
    assert forall i, j | 0 <= i < |rest'| && 0 <= j < |rest'[i]| ::
      rest'[i][j].hash == h.hash(rest'[i][j].key) && rest'[i][j] in all;
  }

  /** Moves a whole chain. */
  method MoveChain<K(!new), V>(to: array<Entry?<K, V>>, head: Entry?<K, V>, ghost i: nat, ghost h: Hashing<K>,
                               ghost table: Table<K, V>, ghost all: set<Entry<K, V>>,
                               ghost moved: Chains<K, V>, ghost rest: Chains<K, V>)
    returns (ghost moved': Chains<K, V>)
    requires Coherent(h) && Rehashing(h, table, to[..], all, moved, rest) && i < |rest| && head == First(rest[i])
    modifies to, all`next
    ensures Rehashing(h, table, to[..], all, moved', rest[i := []]) && |moved'| == |moved|
  {
    hide Coherent, Placed, Splits, Linked, View, Bound;
    moved' := moved;
    ghost var now := rest;
    var entry := head;
    while entry != null
      invariant |now| == |rest| && now == rest[i := now[i]] && |moved'| == |moved| && entry == First(now[i])
      invariant Rehashing(h, table, to[..], all, moved', now)
      decreases |now[i]|
    {
      ghost var tail := now[i][1..];
      entry, moved' := MoveEntry(to, entry, i, h, table, all, moved', now);
      now := now[i := tail];
    }
  }

  /** Relinks every entry of the old buckets into the grown ones. */
  method Rehash<K(!new), V>(from: array<Entry?<K, V>>, to: array<Entry?<K, V>>, ghost chains: Chains<K, V>,
                            ghost h: Hashing<K>)
    returns (ghost moved: Chains<K, V>)
    requires Coherent(h) && Bound(from[..], chains, h) && from.Length > 0 && Placed(h, TableOf(chains)) && from != to
    requires to.Length > 0 && IsPowerOfTwo(to.Length) && forall i | 0 <= i < to.Length :: to[i] == null
    modifies to, Nodes(chains)`next
    ensures |moved| == to.Length && Bound(to[..], moved, h) && Nodes(moved) <= Nodes(chains)
    ensures Placed(h, TableOf(moved)) && Same(h, old(TableOf(chains)), TableOf(moved))
  {
    hide Coherent, Placed, Splits, Rehashing, Same, Bound, First;
    ghost var all, table, rest := Nodes(chains), TableOf(chains), chains;
    moved := NoChains(to.Length);
    RehashStarts(h, from[..], to[..], chains);
    var i := 0;
    while i < from.Length
      invariant 0 <= i <= from.Length == |rest| && |moved| == to.Length
      invariant Rehashing(h, table, to[..], all, moved, rest)
      invariant forall a | 0 <= a < i :: rest[a] == []
      invariant forall a | i <= a < |rest| :: rest[a] == chains[a]
    {
      moved := MoveChain(to, from[i], i, h, table, all, moved, rest);
      rest := rest[i := []];
      i := i + 1;
    }
    RehashEnds(h, table, to[..], all, moved, rest);
  }

  ghost function NoChains<K, V>(n: nat): (chains: Chains<K, V>)
    ensures |chains| == n && forall i | 0 <= i < n :: chains[i] == []
  {
    seq(n, _ => [])
  }

  lemma RehashStarts<K(!new), V>(h: Hashing<K>, from: seq<Entry?<K, V>>, to: seq<Entry?<K, V>>, chains: Chains<K, V>)
    requires Bound(from, chains, h) && Placed(h, TableOf(chains)) && |to| > 0 && IsPowerOfTwo(|to|)
    requires forall i | 0 <= i < |to| :: to[i] == null
    ensures |from| == |chains| && forall a | 0 <= a < |from| :: from[a] == First(chains[a])
    ensures Rehashing(h, TableOf(chains), to, Nodes(chains), NoChains(|to|), chains)
  {
    FromPower(h, TableOf(chains));
    hide Placed, Splits;
    assert TableOf(NoChains<K, V>(|to|)) == Empty<K, V>(|to|);
    SplitEnds(h, TableOf(chains), |to|);
  }

  lemma RehashEnds<K(!new), V>(h: Hashing<K>, table: Table<K, V>, to: seq<Entry?<K, V>>, all: set<Entry<K, V>>,
                               moved: Chains<K, V>, rest: Chains<K, V>)
    requires Rehashing(h, table, to, all, moved, rest) && forall a | 0 <= a < |rest| :: rest[a] == []
    ensures |table| > 0 && |moved| > 0 && Bound(to, moved, h) && Nodes(moved) <= all
    ensures Placed(h, TableOf(moved)) && Same(h, table, TableOf(moved))
  {
    NothingRests(rest);
    FromPower(h, TableOf(moved));
    FromPower(h, TableOf(rest));
    hide Placed, Splits, Same;
    AllMoved(h, table, TableOf(moved), |rest|);
  }

  lemma NothingRests<K, V>(rest: Chains<K, V>)
    requires forall a | 0 <= a < |rest| :: rest[a] == []
    ensures TableOf(rest) == Empty<K, V>(|rest|)
  {
  }

  lemma FromPower<K(!new), V>(h: Hashing<K>, t: Table<K, V>)
    requires Placed(h, t)
    ensures |t| > 0 && IsPowerOfTwo(|t|)
  {
  }

  // ---------- The map ----------

  class HashMap<K(!new), V(==)> {
    var buckets: array<Entry?<K, V>>
    var size: nat
    var threshold: nat
    var modificationCount: nat
    const load: LoadFactor
    const h: Hashing<K>
    ghost var chains: Chains<K, V>

    ghost predicate Valid()
      reads this, buckets, Nodes(chains)
    {
      && Coherent(h) && Bound(buckets[..], chains, h) && Placed(h, Table()) && size == Count(Table())
      && load.Valid() && MIN_CAPACITY <= buckets.Length <= MAX_CAPACITY
      && threshold == ComputeThreshold(buckets.Length, load)
    }

    ghost function Table(): (t: Table<K, V>)
      reads this, Nodes(chains)
      ensures |t| == |chains|
    {
      TableOf(chains)
    }

    /** The value stored for a key. */
    ghost function Find(k: K): Option<V>
      requires |chains| > 0
      reads this, Nodes(chains)
    {
      Lookup(h, Table(), k)
    }

    constructor (initialCapacity: nat, load: LoadFactor, h: Hashing<K>)
      requires Coherent(h) && load.Valid() && MIN_CAPACITY <= initialCapacity <= MAX_CAPACITY
      ensures Valid() && size == 0 && forall k :: Find(k) == None
      ensures this.load == load && this.h == h && fresh(buckets) && chains == NoChains(buckets.Length)
      ensures initialCapacity <= buckets.Length < 2 * initialCapacity
    {
      var capacity := NextPowerOfTwo(initialCapacity);
      PowerAround(capacity);
      this.load, this.h := load, h;
      size, modificationCount := 0, 0;
      threshold := ComputeThreshold(capacity, load);
      buckets := new Entry?<K, V>[capacity](_ => null);
      chains := NoChains(capacity);
      new;
      assert TableOf(chains) == Empty<K, V>(capacity);
      EmptyTable<K, V>(h, capacity);
    }

    lemma Basics()
      requires Valid()
      ensures buckets.Length == |chains| > 0 && Coherent(h) && Placed(h, Table())
      ensures forall i | 0 <= i < |chains| :: buckets[i] == First(chains[i]) && Linked(chains[i])
      ensures forall i | 0 <= i < |chains| :: Table()[i] == View(chains[i])
      ensures forall i, j | 0 <= i < |chains| && 0 <= j < |chains[i]| ::
        chains[i][j].hash == h.hash(chains[i][j].key) && chains[i][j] in Nodes(chains)
    {
    }

    /** What a lookup returns: the value, or the null pointer for an absent key. */
    ghost function ValueOr(k: K, nil: V): V
      requires |chains| > 0
      reads this, Nodes(chains)
    {
      if Find(k) == None then nil else Find(k).value
    }

    lemma ThresholdFacts()
      requires Valid()
      ensures 0 < threshold <= MAX_CAPACITY && size == Count(Table())
      ensures load.Valid() && buckets.Length > 0 && threshold == ComputeThreshold(buckets.Length, load)
      ensures GROWN_FACTOR * buckets.Length <= MAX_CAPACITY ==>
        && (ComputeThreshold(GROWN_FACTOR * buckets.Length, load) > threshold <==> threshold < MAX_CAPACITY)
        && (load.up < 2 * load.down ==> threshold < MAX_CAPACITY)
    {
      ThresholdRange(buckets.Length, load);
      if GROWN_FACTOR * buckets.Length <= MAX_CAPACITY {
        ThresholdGrows(buckets.Length, load);
        if load.up < 2 * load.down {
          BelowCeiling(buckets.Length, load);
        }
      }
    }

    lemma PowerOfTwo()
      requires Valid()
      ensures IsPowerOfTwo(buckets.Length)
    {
      FromPower(h, Table());
    }

    /** Buckets that cannot be doubled any more have room for half the largest capacity. */
    lemma FullThreshold()
      requires Valid()
      ensures GROWN_FACTOR * buckets.Length > MAX_CAPACITY ==> threshold >= MAX_CAPACITY / 2
    {
      FromPower(h, Table());
      PowerAround(buckets.Length);
      LargestThreshold(load);
    }

    /** Whether an entry can be had for the key: it is there, or there is memory and room for a new one. */
    ghost predicate HasPlace(key: K, more: bool, room: bool)
      requires Valid()
      reads this, buckets, Nodes(chains)
    {
      Find(key) != None || (room && CanGrow(Sizes(size, buckets.Length), load, more))
    }

    /** What a walk along the chain of the key's bucket finds at place `j`. */
    ghost predicate FoundAt(key: K, entry: Entry?<K, V>, j: nat)
      reads this, Nodes(chains)
    {
      && |chains| > 0
      && var c := chains[Bucket(h.hash(key), |chains|)];
      && j <= |c|
      && (j < |c| ==> entry == c[j] && h.equals(c[j].key, key) && Find(key) == Some(c[j].value))
      && (j == |c| ==> entry == null && Find(key) == None)
    }

    lemma FoundThere(key: K, c: seq<Entry<K, V>>, j: nat)
      requires |chains| > 0 && c == chains[Bucket(h.hash(key), |chains|)] && j <= |c|
      requires forall l | 0 <= l < j :: !h.equals(c[l].key, key)
      requires j < |c| ==> h.equals(c[j].key, key)
      ensures FoundAt(key, if j < |c| then c[j] else null, j)
    {
      ViewAt(c);
      PositionIs(h, View(c), key, j);
    }

    method GetEntry(key: K) returns (entry: Entry?<K, V>, ghost j: nat)
      requires Valid()
      ensures FoundAt(key, entry, j) && (entry == null <==> Find(key) == None)
      ensures entry != null ==> h.equals(entry.key, key) && Find(key) == Some(entry.value)
    {
      hide HashMap.Valid, FoundAt, Linked, Coherent, Placed, Nodes;
      Basics();
      ghost var i := Bucket(h.hash(key), |chains|);
      ghost var c := chains[i];
      entry, j := buckets[Bucket(h.hash(key), buckets.Length)], 0;
      while entry != null && !h.equals(entry.key, key)
        invariant j <= |c| && (j < |c| ==> entry == c[j]) && (j == |c| ==> entry == null)
        invariant forall l | 0 <= l < j :: !h.equals(c[l].key, key)
        decreases |c| - j
        modifies {}
      {
        LinkAt(c, j);
        entry := entry.next;
        j := j + 1;
      }
      FoundThere(key, c, j);
      FoundWhat(key, entry, j);
    }

    method Get(key: K) returns (value: Option<V>)
      requires Valid()
      ensures |chains| > 0 && value == Find(key)
    {
      var entry, j := GetEntry(key);
      value := if entry == null then None else Some(entry.value);
    }

    /** Makes room for one more entry, doubling the buckets when the threshold is reached. */
    method EnsureCapacity(available: bool) returns (ok: bool)
      requires Valid()
      modifies this`buckets, this`threshold, this`chains, Nodes(chains)`next
      ensures Valid() && |old(chains)| > 0 && |chains| > 0 && Same(h, old(Table()), Table())
        && Nodes(chains) <= old(Nodes(chains))
      ensures buckets == old(buckets) || fresh(buckets)
      ensures ok <==> size < old(threshold) || (available && 2 * old(buckets.Length) <= MAX_CAPACITY)
      ensures buckets.Length == if ok && size >= old(threshold) then 2 * old(buckets.Length) else old(buckets.Length)
      ensures ok <==> CanGrow(Sizes(size, old(buckets.Length)), load, available)
      ensures buckets.Length == Grown(Sizes(size, old(buckets.Length)), load, available)
      ensures buckets.Length == old(buckets.Length) ==> buckets == old(buckets)
      ensures threshold == ComputeThreshold(buckets.Length, load)
    {
      hide Coherent, Placed, Count, Bound, Lookup, Same;
      SameTable(h, Table());
      if size < threshold {
        return true;
      }
      CanDouble(buckets.Length, MAX_CAPACITY);
      if GROWN_FACTOR > MAX_CAPACITY / buckets.Length {
        return false;
      }
      if !available {
        return false;
      }
      Grow();
      ok := true;
    }

    method Grow()
      requires Valid() && GROWN_FACTOR * buckets.Length <= MAX_CAPACITY
      modifies this`buckets, this`threshold, this`chains, Nodes(chains)`next
      ensures Valid() && |old(chains)| > 0 && |chains| > 0 && Same(h, old(Table()), Table())
        && Nodes(chains) <= old(Nodes(chains))
      ensures fresh(buckets) && buckets.Length == GROWN_FACTOR * old(buckets.Length)
      ensures threshold == ComputeThreshold(buckets.Length, load)
    {
      hide Coherent, Placed, Count, Bound, Lookup, ComputeThreshold, LoadFactor.Valid, IsPowerOfTwo, TableOf, Nodes;
      NodesAllocated(chains);
      label before:
      var grown := new Entry?<K, V>[GROWN_FACTOR * buckets.Length](_ => null);
      assert forall e | e in Nodes(chains) :: unchanged@before(e);
      assert TableOf(chains) == old@before(TableOf(chains));
      FromPower(h, Table());
      Basics();
      Doubled(buckets.Length);
      ghost var moved := Rehash(buckets, grown, chains, h);
      label after:
      chains := moved;
      buckets := grown;
      threshold := ComputeThreshold(buckets.Length, load);
      assert forall e | e in Nodes(moved) :: unchanged@after(e);
      assert Bound(grown[..], moved, h) && TableOf(moved) == old@after(TableOf(moved));
    }

    /** Overwrites the value of an entry that is there. */
    method SetValue(entry: Entry<K, V>, key: K, value: V, ghost j: nat)
      requires Valid() && FoundAt(key, entry, j)
      modifies entry`value
      ensures Valid() && Changed(h, old(Table()), Table(), key, Some(value))
    {
      hide Coherent, Count, Nodes, Placed, Changed, Lookup, ComputeThreshold, LoadFactor.Valid;
      ghost var i, t := Bucket(h.hash(key), |chains|), Table();
      ghost var c := chains[i];
      OnePlace(h, chains, i, j);
      ViewAt(c);
      PutExisting(h, t, key, j, value);
      entry.value := value;
      assert forall a | 0 <= a < |chains| && a != i :: Linked(chains[a]) && View(chains[a]) == t[a];
      assert forall l | 0 <= l < |c| && l != j :: c[l] != entry;
      ViewIs(c, t[i][j := (entry.key, value)]);
      OneChain(chains, t, i, c);
      assert chains[i := c] == chains;
    }

    /** Puts a new entry in front of its bucket. */
    method InsertNew(key: K, value: V)
      requires Valid() && |chains| > 0 && Find(key) == None
      modifies this`size, this`modificationCount, this`chains, buckets
      ensures modificationCount == old(modificationCount) + 1
      ensures Valid() && |chains| > 0 && Changed(h, old(Table()), Table(), key, Some(value)) && size == old(size) + 1
      ensures forall e | e in Nodes(chains) :: e in old(Nodes(chains)) || fresh(e)
    {
      hide Coherent, Count, Nodes, Placed, Changed, Lookup, Bound, TableOf, ComputeThreshold, LoadFactor.Valid;
      ghost var i, t := Bucket(h.hash(key), |chains|), Table();
      Basics();
      PutNew(h, t, key, value);
      NodesAllocated(chains);
      label before:
      var entry := new Entry(key, value, h.hash(key));
      assert forall e | e in Nodes(chains) :: unchanged@before(e);
      NotAmong(chains, entry);
      var index := Bucket(entry.hash, buckets.Length);
      PushFront(buckets, index, entry, chains, h);
      label after:
      ghost var chains' := chains[index := [entry] + chains[index]];
      NodesPushed(chains, index, entry);
      size := size + 1;
      modificationCount := modificationCount + 1;
      chains := chains';
      assert forall e | e in Nodes(chains') :: unchanged@after(e);
    }

    /**
       Stores a value. `more` and `room` say whether memory for grown buckets and for an entry can be
       had; without them a new key is refused and the map stays what it was.
     */
    method Put(key: K, value: V, more: bool, room: bool) returns (previous: Option<V>, ok: bool)
      requires Valid()
      modifies this, buckets, Nodes(chains)
      ensures Valid() && |old(chains)| > 0 && |chains| > 0
      ensures previous == old(Find(key))
      ensures if ok then Changed(h, old(Table()), Table(), key, Some(value)) else Same(h, old(Table()), Table())
      ensures var added := if ok && previous == None then 1 else 0;
        size == old(size) + added && modificationCount == old(modificationCount) + added
      ensures ok <==>
        old(Find(key)) != None || (room && (old(size < threshold) || (more && 2 * old(buckets.Length) <= MAX_CAPACITY)))
      ensures previous == None && more && old(size >= threshold) && 2 * old(buckets.Length) <= MAX_CAPACITY
        <==> buckets.Length != old(buckets.Length)
      ensures buckets.Length != old(buckets.Length) ==> buckets.Length == 2 * old(buckets.Length)
      ensures ok <==> old(HasPlace(key, more, room))
      ensures !ok && more && room ==> old(size) >= MAX_CAPACITY / 2
      ensures ok && previous == None && old(size <= threshold) ==> (size <= threshold <==> old(size) < MAX_CAPACITY)
      ensures old(size <= threshold) && load.up < 2 * load.down ==> size <= threshold
      ensures buckets.Length ==
        if old(Find(key)) != None then old(buckets.Length) else Grown(Sizes(old(size), old(buckets.Length)), load, more)
      ensures buckets == old(buckets) || fresh(buckets)
      ensures forall e | e in Nodes(chains) :: e in old(Nodes(chains)) || fresh(e)
    {
      hide HashMap.Valid, Coherent, Count, Nodes, Placed, Bound, TableOf, Lookup, LoadFactor.Valid, ComputeThreshold;
      NodesAllocated(chains);
      Basics();
      var current, j := GetEntry(key);
      if current != null {
        previous := Some(current.value);
        SetValue(current, key, value, j);
        return previous, true;
      }
      previous := None;
      ThresholdFacts();
      FullThreshold();
      ok := EnsureCapacity(more);
      if !ok {
        return;
      }
      if !room {
        return previous, false;
      }
      InsertNew(key, value);
    }

    /** Takes the entry at place `j` of bucket `i` out; `prev` is its predecessor in the chain, if any. */
    method RemoveNode(prev: Entry?<K, V>, entry: Entry<K, V>, i: nat, ghost j: nat)
      requires Valid() && i < |chains| && j < |chains[i]| && entry == chains[i][j]
      requires j > 0 ==> prev == chains[i][j - 1]
      requires j == 0 ==> prev == null
      modifies this`size, this`modificationCount, this`chains, buckets, Nodes(chains)`next
      ensures Valid() && |chains| > 0 && Changed(h, old(Table()), Table(), entry.key, None) && size == old(size) - 1
      ensures chains == old(chains)[i := Without(old(chains)[i], j)] && modificationCount == old(modificationCount) + 1
    {
      hide Coherent, Count, Nodes, Placed, Changed, Lookup, TableOf, Bound, Without, ComputeThreshold, LoadFactor.Valid;
      ghost var t := Table();
      Basics();
      InItsBucket(h, chains, i, j);
      RemoveExisting(h, t, entry.key, j);
      NodesAllocated(chains);
      Unlink(buckets, prev, entry, i, chains, h, j);
      label after:
      ghost var chains' := chains[i := Without(chains[i], j)];
      NodesAllocated(chains');
      size := size - 1;
      modificationCount := modificationCount + 1;
      chains := chains';
      assert forall e | e in Nodes(chains') :: unchanged@after(e);
    }

    method Remove(key: K) returns (value: Option<V>)
      requires Valid()
      modifies this`size, this`modificationCount, this`chains, buckets, Nodes(chains)`next
      ensures Valid() && |old(chains)| > 0 && |chains| > 0
      ensures value == old(Find(key)) && Changed(h, old(Table()), Table(), key, None)
      ensures var removed := if value == None then 0 else 1;
        size == old(size) - removed && modificationCount == old(modificationCount) + removed
      ensures Nodes(chains) <= old(Nodes(chains))
    {
      hide HashMap.Valid, FoundAt, Linked, Coherent, Placed, Changed, Nodes, Without, Lookup;
      NodesAllocated(chains);
      Basics();
      ghost var t := Table();
      var i := Bucket(h.hash(key), buckets.Length);
      ghost var c, j := chains[i], 0;
      var prev: Entry?<K, V> := null;
      var entry := buckets[i];
      while entry != null && !h.equals(entry.key, key)
        invariant j <= |c| && (j < |c| ==> entry == c[j]) && (j == |c| ==> entry == null)
        invariant (j > 0 ==> prev == c[j - 1]) && (j == 0 ==> prev == null)
        invariant forall l | 0 <= l < j :: !h.equals(c[l].key, key)
        decreases |c| - j
        modifies {}
      {
        LinkAt(c, j);
        prev := entry;
        entry := entry.next;
        j := j + 1;
      }
      FoundThere(key, c, j);
      FoundWhat(key, entry, j);
      if entry == null {
        AbsentUnchanged(h, t, key);
        return None;
      }
      value := Some(entry.value);
      RemoveNode(prev, entry, i, j);
      NodesWithout(old(chains), i, j);
      EqualChange(h, t, Table(), entry.key, key, None);
    }

    lemma FoundWhat(key: K, entry: Entry?<K, V>, j: nat)
      requires FoundAt(key, entry, j)
      ensures |chains| > 0 && (entry == null ==> Find(key) == None)
      ensures entry != null ==> Find(key) == Some(entry.value) && h.equals(entry.key, key)
    {
    }

    /**
       Replaces the value of a key by what the function makes of it; `nil` stands for the null
       pointer, which is passed for an absent key and, as a result, removes the key.
     */
    method Compute(key: K, remapper: (K, V) -> V, nil: V, more: bool, room: bool) returns (r: V, ok: bool)
      requires Valid()
      modifies this, buckets, Nodes(chains)
      ensures Valid() && |old(chains)| > 0 && |chains| > 0
      ensures r == remapper(key, old(ValueOr(key, nil)))
      ensures if ok then Changed(h, old(Table()), Table(), key, if r == nil then None else Some(r))
        else Same(h, old(Table()), Table())
      ensures ok <==> r == nil || old(HasPlace(key, more, room))
      ensures !ok && more && room ==> old(size) >= MAX_CAPACITY / 2
      ensures size == old(size) + (if ok && r != nil && old(Find(key)) == None then 1 else 0)
                      - (if r == nil && old(Find(key)) != None then 1 else 0)
      ensures old(size <= threshold) && load.up < 2 * load.down ==> size <= threshold
      ensures buckets.Length == if r == nil || old(Find(key)) != None then old(buckets.Length)
                                else Grown(Sizes(old(size), old(buckets.Length)), load, more)
      ensures buckets == old(buckets) || fresh(buckets)
      ensures forall e | e in Nodes(chains) :: e in old(Nodes(chains)) || fresh(e)
    {
      hide HashMap.Valid, Coherent, Placed, Changed, Nodes, Lookup, Same, TableOf;
      NodesAllocated(chains);
      Basics();
      var found := Get(key);
      r := remapper(key, if found == None then nil else found.value);
      ok := true;
      if r != nil {
        var _, done := Put(key, r, more, room);
        ok := done;
      } else if found != None {
        var _ := Remove(key);
      } else {
        AbsentUnchanged(h, Table(), key);
      }
    }

    /** Combines a value with the stored one; a stored null pointer counts as absent, a null result removes the key. */
    method Merge(key: K, value: V, remapper: (V, V) -> V, nil: V, more: bool, room: bool) returns (r: V, ok: bool)
      requires Valid()
      modifies this, buckets, Nodes(chains)
      ensures Valid() && |old(chains)| > 0 && |chains| > 0
      ensures r == if old(ValueOr(key, nil)) == nil then value else remapper(old(ValueOr(key, nil)), value)
      ensures if ok then Changed(h, old(Table()), Table(), key, if r == nil then None else Some(r))
        else Same(h, old(Table()), Table())
      ensures ok <==> r == nil || old(HasPlace(key, more, room))
      ensures !ok && more && room ==> old(size) >= MAX_CAPACITY / 2
      ensures size == old(size) + (if ok && r != nil && old(Find(key)) == None then 1 else 0)
                      - (if r == nil && old(Find(key)) != None then 1 else 0)
      ensures old(size <= threshold) && load.up < 2 * load.down ==> size <= threshold
      ensures buckets.Length == if r == nil || old(Find(key)) != None then old(buckets.Length)
                                else Grown(Sizes(old(size), old(buckets.Length)), load, more)
      ensures buckets == old(buckets) || fresh(buckets)
      ensures forall e | e in Nodes(chains) :: e in old(Nodes(chains)) || fresh(e)
    {
      hide HashMap.Valid, Coherent, Placed, Changed, Nodes, Lookup, Same, TableOf;
      NodesAllocated(chains);
      Basics();
      var found := Get(key);
      var previous := if found == None then nil else found.value;
      r := if previous == nil then value else remapper(previous, value);
      ok := true;
      if r == nil {
        var _ := Remove(key);
      } else {
        var _, done := Put(key, r, more, room);
        ok := done;
      }
    }
  }

  method Unlink<K(!new), V>(buckets: array<Entry?<K, V>>, prev: Entry?<K, V>, entry: Entry<K, V>, i: nat,
                            ghost chains: Chains<K, V>, ghost h: Hashing<K>, ghost j: nat)
    requires Coherent(h) && Bound(buckets[..], chains, h) && Placed(h, TableOf(chains))
    requires i < |chains| && j < |chains[i]| && entry == chains[i][j]
    requires j > 0 ==> prev == chains[i][j - 1]
    requires j == 0 ==> prev == null
    modifies buckets, Nodes(chains)`next
    ensures Bound(buckets[..], chains[i := Without(chains[i], j)], h)
    ensures TableOf(chains[i := Without(chains[i], j)])
      == old(TableOf(chains))[i := Without(old(TableOf(chains))[i], j)]
  {
    hide Coherent, Placed, View, Linked;
    ghost var t, c := TableOf(chains), chains[i];
    ViewAt(c);
    if j > 0 {
      OnePlace(h, chains, i, j - 1);
    }
    Parted(c, j);
    if prev != null {
      prev.next := entry.next;
    } else {
      buckets[i] := entry.next;
    }
    assert forall a | 0 <= a < |chains| && a != i :: Linked(chains[a]) && View(chains[a]) == t[a];
    Rejoined(c, j, t[i]);
    OneChain(chains, t, i, Without(c, j));
  }

  /** The links and pairs of a chain except the link out of position `j - 1`. */
  ghost predicate LinkedBut<K, V>(ns: seq<Entry<K, V>>, j: nat, c: Chain<K, V>)
    reads ns
  {
    && |c| == |ns| && (forall l | 0 <= l < |ns| :: c[l] == (ns[l].key, ns[l].value))
    && (forall a, b | 0 <= a < |ns| && b == a + 1 < |ns| && b != j :: ns[a].next == ns[b])
    && (j != |ns| - 1 && ns != [] ==> ns[|ns| - 1].next == null)
  }

  lemma InItsBucket<K(!new), V>(h: Hashing<K>, chains: Chains<K, V>, i: nat, j: nat)
    requires Coherent(h) && Placed(h, TableOf(chains)) && i < |chains| && j < |chains[i]|
    ensures Bucket(h.hash(chains[i][j].key), |chains|) == i && |TableOf(chains)[i]| == |chains[i]|
    ensures h.equals(TableOf(chains)[i][j].0, chains[i][j].key)
  {
    var t := TableOf(chains);
    assert Sound(h, t[i], i, |t|) && t[i][j].0 == chains[i][j].key;
    EqualsLaws(h, t[i][j].0, t[i][j].0, t[i][j].0);
  }

  lemma Parted<K, V>(c: seq<Entry<K, V>>, j: nat)
    requires Linked(c) && j < |c|
    ensures LinkedBut(c, j, View(c))
    ensures j + 1 < |c| ==> c[j].next == c[j + 1]
    ensures j + 1 == |c| ==> c[j].next == null
  {
  }

  lemma Rejoined<K, V>(c: seq<Entry<K, V>>, j: nat, view: Chain<K, V>)
    requires j < |c| && LinkedBut(c, j, view)
    requires j > 0 && j + 1 < |c| ==> c[j - 1].next == c[j + 1]
    requires j > 0 && j + 1 == |c| ==> c[j - 1].next == null
    ensures Linked(Without(c, j)) && View(Without(c, j)) == Without(view, j)
    ensures First(Without(c, j)) == if j > 0 then First(c) else First(c[1..])
  {
    var r := Without(c, j);
    forall a, b | 0 <= a < |r| && b == a + 1 < |r| ensures r[a].next == r[b] {
      if b < j {
        assert r[a] == c[a] && r[b] == c[b];
      } else if a >= j {
        assert r[a] == c[a + 1] && r[b] == c[b + 1];
      }
    }
  }

  lemma ViewIs<K, V>(ns: seq<Entry<K, V>>, c: Chain<K, V>)
    requires |c| == |ns| && forall l | 0 <= l < |ns| :: c[l] == (ns[l].key, ns[l].value)
    ensures View(ns) == c
  {
  }

  lemma NotAmong<K, V>(chains: Chains<K, V>, entry: Entry<K, V>)
    requires entry !in Nodes(chains)
    ensures forall a, b | 0 <= a < |chains| && 0 <= b < |chains[a]| :: chains[a][b] != entry
  {
  }

  lemma NodesWithout<K, V>(chains: Chains<K, V>, i: nat, j: nat)
    requires i < |chains| && j < |chains[i]|
    ensures Nodes(chains[i := Without(chains[i], j)]) <= Nodes(chains)
  {
    var chains' := chains[i := Without(chains[i], j)];
    forall a, b | 0 <= a < |chains'| && 0 <= b < |chains'[a]| ensures chains'[a][b] in Nodes(chains) {
      assert chains'[a][b] == chains[a][if a == i && b >= j then b + 1 else b];
    }
  }

  lemma NodesPushed<K, V>(chains: Chains<K, V>, i: nat, entry: Entry<K, V>)
    requires i < |chains|
    ensures Nodes(chains[i := [entry] + chains[i]]) == Nodes(chains) + {entry}
  {
    var chains' := chains[i := [entry] + chains[i]];
    forall a, b | 0 <= a < |chains| && 0 <= b < |chains[a]| ensures chains[a][b] in Nodes(chains') {
      assert chains[a][b] == chains'[a][if a == i then b + 1 else b];
    }
    assert chains'[i][0] == entry;
  }

  lemma LinkAt<K, V>(ns: seq<Entry<K, V>>, j: nat)
    requires Linked(ns) && j < |ns|
    ensures j + 1 < |ns| ==> ns[j].next == ns[j + 1]
    ensures j + 1 == |ns| ==> ns[j].next == null
  {
  }

  // ---------- Runs ----------

  datatype Command<!K, !V> =
    | Store(key: K, value: V)
    | Drop(key: K)
    | Update(key: K, compute: (K, V) -> V)
    | Combine(key: K, value: V, merge: (V, V) -> V)

  /** What a command leaves under its key when `stored` is there; `nil` stands for the null pointer. */
  ghost function Effect<K, V>(c: Command<K, V>, stored: Option<V>, nil: V): Option<V> {
    var current := if stored == None then nil else stored.value;
    match c
    case Store(_, value) => Some(value)
    case Drop(_) => None
    case Update(key, compute) => NotNull(compute(key, current), nil)
    case Combine(_, value, merge) => NotNull(if current == nil then value else merge(current, value), nil)
  }

  ghost function NotNull<V>(v: V, nil: V): Option<V> {
    if v == nil then None else Some(v)
  }

  /** The mathematical map after the commands of a run that were done, given what it is before. */
  ghost function AfterRun<K(!new), V>(h: Hashing<K>, nil: V, before: K -> Option<V>, commands: seq<Command<K, V>>,
                                      done: seq<bool>, k: K)
      : Option<V>
    requires |done| == |commands|
  {
    if commands == [] then before(k)
    else
      var n := |commands| - 1;
      if done[n] && h.equals(commands[n].key, k) then
        Effect(commands[n], AfterRun(h, nil, before, commands[..n], done[..n], commands[n].key), nil)
      else AfterRun(h, nil, before, commands[..n], done[..n], k)
  }

  ghost function Answers<K(!new), V>(h: Hashing<K>, t: Table<K, V>): K -> Option<V> {
    k => if |t| > 0 then Lookup(h, t, k) else None
  }

  /** The table answers as the mathematical map does. */
  ghost predicate AnswersAs<K(!new), V>(h: Hashing<K>, t: Table<K, V>, nil: V, before: K -> Option<V>,
                                        commands: seq<Command<K, V>>, done: seq<bool>)
    requires |t| > 0 && |done| == |commands|
  {
    forall k :: Lookup(h, t, k) == AfterRun(h, nil, before, commands, done, k)
  }

  /** How a command that finds `stored` under its key changes the numbers, and whether it is done. */
  ghost function Counted<K, V>(c: Command<K, V>, stored: Option<V>, nil: V, s: Sizes, load: LoadFactor,
                               memory: (bool, bool)): (r: (Sizes, bool))
    requires s.capacity > 0 && load.Valid()
    ensures r.0.capacity > 0
  {
    if Effect(c, stored, nil) == None then (if stored == None then s else s.(size := s.size - 1), true)
    else if stored != None then (s, true)
    else
      var done := memory.1 && CanGrow(s, load, memory.0);
      (Sizes(if done then s.size + 1 else s.size, Grown(s, load, memory.0)), done)
  }

  method Execute<K(!new), V(==)>(m: HashMap<K, V>, command: Command<K, V>, nil: V, memory: (bool, bool))
    returns (ok: bool)
    requires m.Valid()
    modifies m, m.buckets, Nodes(m.chains)
    ensures m.Valid() && |old(m.chains)| > 0 && |m.chains| > 0 && m.load.Valid() && old(m.buckets.Length) > 0
    ensures if ok
            then Changed(m.h, old(m.Table()), m.Table(), command.key, Effect(command, old(m.Find(command.key)), nil))
            else Same(m.h, old(m.Table()), m.Table())
    ensures (Sizes(m.size, m.buckets.Length), ok)
      == Counted(command, old(m.Find(command.key)), nil, Sizes(old(m.size), old(m.buckets.Length)), m.load, memory)
    ensures !ok && memory == (true, true) ==> old(m.size) >= MAX_CAPACITY / 2
    ensures old(m.size <= m.threshold) && m.load.up < 2 * m.load.down ==> m.size <= m.threshold
    ensures m.buckets == old(m.buckets) || fresh(m.buckets)
    ensures forall e | e in Nodes(m.chains) :: e in old(Nodes(m.chains)) || fresh(e)
  {
    hide HashMap.Valid, Nodes, Coherent, Placed, TableOf, Lookup, Changed, Same, CanGrow, Grown, LoadFactor.Valid;
    m.Basics();
    m.ThresholdFacts();
    ok := true;
    match command {
      case Store(key, value) =>
        var _, done := m.Put(key, value, memory.0, memory.1);
        ok := done;
      case Drop(key) =>
        var _ := m.Remove(key);
      case Update(key, compute) =>
        var _, done := m.Compute(key, compute, nil, memory.0, memory.1);
        ok := done;
      case Combine(key, value, merge) =>
        var _, done := m.Merge(key, value, merge, nil, memory.0, memory.1);
        ok := done;
    }
  }

  /** The numbers after a run, and which of its commands are done, given the memory each of them finds. */
  ghost function Replayed<K(!new), V>(h: Hashing<K>, nil: V, load: LoadFactor, before: K -> Option<V>, start: Sizes,
                                      commands: seq<Command<K, V>>, memory: seq<(bool, bool)>)
      : (r: (Sizes, seq<bool>))
    requires |memory| == |commands| && start.capacity > 0 && load.Valid()
    ensures |r.1| == |commands| && r.0.capacity > 0
    decreases |commands|
  {
    if commands == [] then (start, [])
    else
      var n := |commands| - 1;
      var (s, done) := Replayed(h, nil, load, before, start, commands[..n], memory[..n]);
      var stored := AfterRun(h, nil, before, commands[..n], done, commands[n].key);
      var (s', ok) := Counted(commands[n], stored, nil, s, load, memory[n]);
      (s', done + [ok])
  }

  lemma {:induction false} ReplayedPrefix<K(!new), V>(h: Hashing<K>, nil: V, load: LoadFactor, before: K -> Option<V>,
                                                      start: Sizes, commands: seq<Command<K, V>>,
                                                      memory: seq<(bool, bool)>, i: nat)
    requires |memory| == |commands| && start.capacity > 0 && load.Valid() && i <= |commands|
    ensures Replayed(h, nil, load, before, start, commands[..i], memory[..i]).1
      == Replayed(h, nil, load, before, start, commands, memory).1[..i]
    decreases |commands|
  {
    hide Counted, AfterRun;
    var n := |commands| - 1;
    if i == |commands| {
      assert commands[..i] == commands && memory[..i] == memory;
    } else {
      ReplayedPrefix(h, nil, load, before, start, commands[..n], memory[..n], i);
      assert commands[..n][..i] == commands[..i] && memory[..n][..i] == memory[..i];
    }
  }

  /**
     A command is done when it leaves nothing under its key or finds it there; a new key is stored exactly
     when there is memory for an entry and, at the threshold, for buckets that can still be doubled.
   */
  lemma WhatIsDone<K(!new), V>(h: Hashing<K>, nil: V, load: LoadFactor, before: K -> Option<V>, start: Sizes,
                               commands: seq<Command<K, V>>, memory: seq<(bool, bool)>, i: nat)
    requires |memory| == |commands| && start.capacity > 0 && load.Valid() && i < |commands|
    ensures var done := Replayed(h, nil, load, before, start, commands, memory).1;
      var stored := AfterRun(h, nil, before, commands[..i], done[..i], commands[i].key);
      var numbers := Replayed(h, nil, load, before, start, commands[..i], memory[..i]).0;
      done[i] <==>
        || Effect(commands[i], stored, nil) == None || stored != None
        || (memory[i].1 && CanGrow(numbers, load, memory[i].0))
  {
    ReplayedPrefix(h, nil, load, before, start, commands, memory, i);
    ReplayedPrefix(h, nil, load, before, start, commands, memory, i + 1);
    hide Effect, AfterRun, CanGrow, Grown;
    assert commands[..i + 1][..i] == commands[..i] && memory[..i + 1][..i] == memory[..i];
    var done := Replayed(h, nil, load, before, start, commands, memory).1;
    assert done[i] == done[..i + 1][i];
  }

  /**
     Over any run of puts, removals, computes and merges, whatever memory each of them finds, the table
     answers as the mathematical map does after those that were done, the numbers and what is done are as
     counted, and with a load factor below two the size never exceeds the threshold. With memory all is done
     while the map is half empty.
   */
  method RunAll<K(!new), V(==)>(m: HashMap<K, V>, commands: seq<Command<K, V>>, nil: V, memory: seq<(bool, bool)>)
    returns (done: seq<bool>)
    requires m.Valid() && |memory| == |commands|
    modifies m, m.buckets, Nodes(m.chains)
    ensures m.Valid() && |old(m.chains)| > 0 && |m.chains| > 0 && |done| == |commands|
    ensures AnswersAs(m.h, m.Table(), nil, Answers(m.h, old(m.Table())), commands, done)
    ensures old(m.buckets.Length) > 0 && m.load.Valid()
    ensures (Sizes(m.size, m.buckets.Length), done)
      == Replayed(m.h, nil, m.load, Answers(m.h, old(m.Table())), Sizes(old(m.size), old(m.buckets.Length)),
                  commands, memory)
    ensures forall i | 0 <= i < |commands| && memory[i] == (true, true) && old(m.size) + i < MAX_CAPACITY / 2 :: done[i]
    ensures old(m.size <= m.threshold) && m.load.up < 2 * m.load.down ==> m.size <= m.threshold
  {
    hide HashMap.Valid, Nodes, Coherent, Placed, TableOf, Lookup, Changed, Same, AnswersAs, Effect, Counted;
    hide Replayed, LoadFactor.Valid, CanGrow, Grown, AfterRun, ComputeThreshold;
    m.Basics();
    m.ThresholdFacts();
    ghost var before, start := Answers(m.h, m.Table()), Sizes(m.size, m.buckets.Length);
    done := [];
    StartAnswers(m.h, m.Table(), nil, m.load, start, commands[..0], memory[..0]);
    var i := 0;
    while i < |commands|
      invariant 0 <= i <= |commands| && |done| == i && m.Valid() && |m.chains| > 0
      invariant m.buckets == old(m.buckets) || fresh(m.buckets)
      invariant forall e | e in Nodes(m.chains) :: e in old(Nodes(m.chains)) || fresh(e)
      invariant AnswersAs(m.h, m.Table(), nil, before, commands[..i], done)
      invariant (Sizes(m.size, m.buckets.Length), done)
        == Replayed(m.h, nil, m.load, before, start, commands[..i], memory[..i])
      invariant m.size <= old(m.size) + i
      invariant forall j | 0 <= j < i && memory[j] == (true, true) && old(m.size) + j < MAX_CAPACITY / 2 :: done[j]
      invariant old(m.size <= m.threshold) && m.load.up < 2 * m.load.down ==> m.size <= m.threshold
    {
      ghost var t := m.Table();
      m.Basics();
      m.ThresholdFacts();
      ReplayedNext(m.h, nil, m.load, before, start, commands, memory, i, t);
      CountedOne(commands[i], m.Find(commands[i].key), nil, Sizes(m.size, m.buckets.Length), m.load, memory[i]);
      var ok := Execute(m, commands[i], nil, memory[i]);
      RunStep(m.h, nil, before, commands, done, ok, t, m.Table());
      done := done + [ok];
      i := i + 1;
    }
    assert commands[..i] == commands && memory[..i] == memory;
  }

  lemma CountedOne<K, V>(c: Command<K, V>, stored: Option<V>, nil: V, s: Sizes, load: LoadFactor, memory: (bool, bool))
    requires s.capacity > 0 && load.Valid()
    ensures Counted(c, stored, nil, s, load, memory).0.size <= s.size + 1
  {
    hide Effect, CanGrow, Grown;
  }

  lemma ReplayedNext<K(!new), V>(h: Hashing<K>, nil: V, load: LoadFactor, before: K -> Option<V>, start: Sizes,
                                 commands: seq<Command<K, V>>, memory: seq<(bool, bool)>, i: nat, t: Table<K, V>)
    requires |memory| == |commands| && start.capacity > 0 && load.Valid() && i < |commands| && |t| > 0
    ensures var (s, done) := Replayed(h, nil, load, before, start, commands[..i], memory[..i]);
      AnswersAs(h, t, nil, before, commands[..i], done) ==>
      var (s', ok) := Counted(commands[i], Lookup(h, t, commands[i].key), nil, s, load, memory[i]);
      Replayed(h, nil, load, before, start, commands[..i + 1], memory[..i + 1]) == (s', done + [ok])
  {
    hide Counted, AfterRun, Lookup;
    assert commands[..i + 1][..i] == commands[..i] && memory[..i + 1][..i] == memory[..i];
  }

  lemma StartAnswers<K(!new), V>(h: Hashing<K>, t: Table<K, V>, nil: V, load: LoadFactor, start: Sizes,
                                 commands: seq<Command<K, V>>, memory: seq<(bool, bool)>)
    requires |t| > 0 && commands == [] && memory == [] && start.capacity > 0 && load.Valid()
    ensures AnswersAs(h, t, nil, Answers(h, t), commands, [])
    ensures Replayed(h, nil, load, Answers(h, t), start, commands, memory) == (start, [])
  {
  }

  lemma RunStep<K(!new), V>(h: Hashing<K>, nil: V, before: K -> Option<V>, commands: seq<Command<K, V>>,
                            done: seq<bool>, ok: bool, t: Table<K, V>, t': Table<K, V>)
    requires |done| < |commands| && |t| > 0 && |t'| > 0 && AnswersAs(h, t, nil, before, commands[..|done|], done)
    requires var c := commands[|done|];
      if ok then Changed(h, t, t', c.key, Effect(c, Lookup(h, t, c.key), nil)) else Same(h, t, t')
    ensures AnswersAs(h, t', nil, before, commands[..|done| + 1], done + [ok])
  {
    hide Lookup, Effect, Count;
    var i := |done|;
    assert commands[..i + 1][..i] == commands[..i] && (done + [ok])[..i] == done;
  }

  lemma NoNodes<K, V>(n: nat)
    ensures Nodes(NoChains<K, V>(n)) == {}
  {
  }

  // ---------- Above the threshold ----------

  /** With a load factor of two the buckets are doubled the last time when the largest capacity is reached. */
  lemma DoubledTooLate(s: Sizes)
    requires 0 < s.capacity <= MAX_CAPACITY / 2 && IsPowerOfTwo(s.capacity) && s.size < MAX_CAPACITY
    ensures Grown(s, LoadFactor(2, 1), true) <= MAX_CAPACITY / 2
  {
    DivBounds(MAX_CAPACITY, s.capacity, 2, MAX_CAPACITY);
    Doubled(s.capacity);
    PowerAround(2 * s.capacity);
  }

  lemma StillDoubles(s: Sizes)
    requires 0 < s.capacity <= MAX_CAPACITY / 2
    ensures CanGrow(s, LoadFactor(2, 1), true)
  {
  }

  function Numbers(): Hashing<int> {
    Hashing((k: int) => if k >= 0 then k else 0, (a: int, b: int) => a == b)
  }

  lemma NumbersCoherent()
    ensures Coherent(Numbers())
  {
  }

  ghost predicate OnlyBelow<V>(t: Table<int, V>, i: int)
    requires |t| > 0
  {
    forall k :: Lookup(Numbers(), t, k) != None ==> k < i
  }

  lemma OneMoreBelow<V>(t: Table<int, V>, t': Table<int, V>, i: int, v: V)
    requires |t| > 0 && |t'| > 0
    ensures OnlyBelow(t, i) ==> Lookup(Numbers(), t, i) == None
    ensures OnlyBelow(t, i) && Changed(Numbers(), t, t', i, Some(v)) ==> OnlyBelow(t', i + 1)
  {
    hide Lookup;
    assert forall k :: Numbers().equals(i, k) <==> i == k;
  }

  lemma NothingBelow<V>(t: Table<int, V>, i: int)
    requires |t| > 0 && forall k :: Lookup(Numbers(), t, k) == None
    ensures OnlyBelow(t, i)
  {
  }

  /** Storing the numbers up to the largest capacity, that one included, fills a map beyond its threshold. */
  method OverfullMap() returns (m: HashMap<int, int>)
    ensures m.Valid() && m.load == LoadFactor(2, 1)
    ensures m.size == MAX_CAPACITY + 1 && m.size > m.threshold
  {
    hide HashMap.Valid, Nodes, Coherent, Placed, TableOf, Lookup, ComputeThreshold, IsPowerOfTwo, CanGrow, Grown;
    hide Numbers, OnlyBelow, Changed;
    NumbersCoherent();
    m := new HashMap<int, int>(MIN_CAPACITY, LoadFactor(2, 1), Numbers());
    m.Basics();
    m.ThresholdFacts();
    NoNodes<int, int>(m.buckets.Length);
    forall k ensures Lookup(Numbers(), m.Table(), k) == None {
      assert m.Find(k) == None;
    }
    NothingBelow(m.Table(), 0);
    var i := 0;
    while i <= MAX_CAPACITY
      invariant 0 <= i <= MAX_CAPACITY + 1 && m.Valid() && |m.chains| > 0 && m.size == i
      invariant fresh(m.buckets) && forall e | e in Nodes(m.chains) :: fresh(e)
      invariant OnlyBelow(m.Table(), i)
      invariant if i <= MAX_CAPACITY then m.size <= m.threshold && m.buckets.Length <= MAX_CAPACITY / 2
        else m.size > m.threshold
    {
      ghost var t := m.Table();
      m.Basics();
      m.ThresholdFacts();
      m.PowerOfTwo();
      StillDoubles(Sizes(m.size, m.buckets.Length));
      if i < MAX_CAPACITY {
        DoubledTooLate(Sizes(m.size, m.buckets.Length));
      }
      OneMoreBelow(t, t, i, i);
      var previous, ok := m.Put(i, i, true, true);
      OneMoreBelow(t, m.Table(), i, i);
      i := i + 1;
    }
  }
}
