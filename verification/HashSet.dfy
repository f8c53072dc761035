/** The hash set: the same table with elements as keys, its deleting sweeps and the algebra of sets. */
module HashSets {
  import opened HashMaps
  import opened HashTables
  import opened Ordering
  import opened Sequences
  import opened SetAlgebra

  type HashSet<!K(!new)> = HashMap<K, ()>

  ghost predicate Contains<K(!new)>(s: HashSet<K>, k: K)
    requires |s.chains| > 0
    reads s, Nodes(s.chains)
  {
    s.Find(k) != None
  }

  /** A test of elements, as a test of their nodes. */
  ghost function ByKey<K>(doomed: K -> bool): Entry<K, ()> -> bool {
    (n: Entry<K, ()>) => doomed(n.key)
  }

  /** The pointers of the sweep: `node` on place `k` of the old chain, `prev` on the last node kept. */
  ghost predicate Standing<K>(all: seq<Entry<K, ()>>, k: nat, node: Entry?<K, ()>, now: seq<Entry<K, ()>>, j: nat,
                              prev: Entry?<K, ()>) {
    && k <= |all| && (k < |all| ==> node == all[k]) && (k == |all| ==> node == null)
    && j <= |now| && (j > 0 ==> prev == now[j - 1]) && (j == 0 ==> prev == null)
  }

  /** The other set, if there is one, shares nothing with this one. */
  ghost predicate Separate<K(!new)>(s: HashSet<K>, other: HashMap?<K, ()>)
    reads s, if other == null then {} else {other}
  {
    other != null ==> other != s && other.buckets != s.buckets && Nodes(other.chains) !! Nodes(s.chains)
  }

  /** `doomed` is what the sweep goes by. */
  ghost predicate Decides<K(!new)>(doomed: K -> bool, test: K -> bool, other: HashMap?<K, ()>, retain: bool)
    reads if other == null then {} else {other} + Nodes(other.chains)
  {
    && (other != null ==> |other.chains| > 0)
    && forall k :: doomed(k) == (retain != if other == null then test(k) else other.Find(k) != None)
  }

  ghost predicate Apart<K(!new)>(s: HashSet<K>, other: HashMap?<K, ()>, doomed: K -> bool, test: K -> bool,
                                 retain: bool)
    reads s, if other == null then {} else {other, other.buckets} + Nodes(other.chains)
  {
    Separate(s, other) && (other != null ==> other.Valid()) && Decides(doomed, test, other, retain)
  }

  method Decide<K(!new)>(element: K, test: K -> bool, other: HashMap?<K, ()>, retain: bool, ghost doomed: K -> bool)
    returns (b: bool)
    requires (other != null ==> other.Valid()) && Decides(doomed, test, other, retain)
    ensures b == doomed(element)
  {
    if other == null {
      b := retain != test(element);
    } else {
      var found := other.Get(element);
      b := retain != (found != None);
    }
  }

  /** Deletes a node if it is doomed; the other set does not notice. */
  method Visit<K(!new)>(s: HashSet<K>, prev: Entry?<K, ()>, node: Entry<K, ()>, i: nat, ghost j: nat,
                        test: K -> bool, other: HashMap?<K, ()>, retain: bool, ghost doomed: K -> bool)
    returns (gone: bool)
    requires s.Valid() && i < |s.chains| && j < |s.chains[i]| && node == s.chains[i][j]
    requires j > 0 ==> prev == s.chains[i][j - 1]
    requires j == 0 ==> prev == null
    requires Apart(s, other, doomed, test, retain)
    modifies s`size, s`modificationCount, s`chains, s.buckets, Nodes(s.chains)`next
    ensures s.Valid() && Apart(s, other, doomed, test, retain) && gone == doomed(node.key)
    ensures gone ==> s.size == old(s.size) - 1 && s.chains == old(s.chains)[i := Without(old(s.chains)[i], j)]
    ensures !gone ==> s.size == old(s.size) && s.chains == old(s.chains)
    ensures Nodes(s.chains) <= old(Nodes(s.chains))
  {
    hide HashMap.Valid, Nodes, Without, Decides;
    NodesWithout(s.chains, i, j);
    NodesAllocated(s.chains);
    if other != null {
      NodesAllocated(other.chains);
    }
    gone := Decide(node.key, test, other, retain, doomed);
    label before:
    if gone {
      s.RemoveNode(prev, node, i, j);
      if other != null {
        assert forall e | e in Nodes(other.chains) :: unchanged@before(e);
      }
    }
  }

  /** One round of the sweep; the next node is fetched before this one may be deleted. */
  method SweepNext<K(!new)>(s: HashSet<K>, i: nat, node: Entry<K, ()>, prev: Entry?<K, ()>, test: K -> bool,
                            other: HashMap?<K, ()>, retain: bool, ghost doomed: K -> bool,
                            ghost all: seq<Entry<K, ()>>, ghost k: nat, ghost j: nat)
    returns (next: Entry?<K, ()>, kept: Entry?<K, ()>, gone: bool, ghost j': nat)
    requires s.Valid() && i < |s.chains| && Apart(s, other, doomed, test, retain)
    requires Swept(all, k, j, ByKey(doomed), s.chains[i]) && Standing(all, k, node, s.chains[i], j, prev)
    modifies s`size, s`modificationCount, s`chains, s.buckets, Nodes(s.chains)`next
    ensures s.Valid() && Apart(s, other, doomed, test, retain) && Nodes(s.chains) <= old(Nodes(s.chains))
    ensures k < |all| && |s.chains| == |old(s.chains)| && s.chains == old(s.chains)[i := s.chains[i]]
    ensures Swept(all, k + 1, j', ByKey(doomed), s.chains[i]) && Standing(all, k + 1, next, s.chains[i], j', kept)
    ensures s.size == old(s.size) - (if gone then 1 else 0)
    ensures |s.chains[i]| == |old(s.chains)[i]| - if gone then 1 else 0
  {
    hide HashMap.Valid, Linked, Coherent, Placed, Nodes, Without, Lookup, Swept, Kept, Changed, TableOf, Apart;
    ghost var now := s.chains[i];
    s.Basics();
    SweepStep(all, k, j, ByKey(doomed), now);
    LinkAt(now, j);
    next := node.next;
    gone := Visit(s, prev, node, i, j, test, other, retain, doomed);
    if gone {
      kept, j' := prev, j;
    } else {
      kept, j' := node, j + 1;
    }
  }

  /** Deletes the doomed nodes of one bucket, `prev` trailing behind on the last node kept. */
  method SweepBucket<K(!new)>(s: HashSet<K>, i: nat, test: K -> bool, other: HashMap?<K, ()>, retain: bool,
                              ghost doomed: K -> bool)
    returns (count: nat)
    requires s.Valid() && i < |s.chains| && Apart(s, other, doomed, test, retain)
    modifies s`size, s`modificationCount, s`chains, s.buckets, Nodes(s.chains)`next
    ensures s.Valid() && s.chains == old(s.chains)[i := Kept(old(s.chains)[i], ByKey(doomed))]
    ensures count == |old(s.chains)[i]| - |s.chains[i]| && s.size + count == old(s.size)
    ensures Nodes(s.chains) <= old(Nodes(s.chains))
    ensures Apart(s, other, doomed, test, retain)
  {
    hide HashMap.Valid, Linked, Coherent, Placed, Nodes, Swept, Kept, TableOf, Apart;
    ghost var all, k, j := s.chains[i], 0, 0;
    ghost var chains, nodes := s.chains, Nodes(s.chains);
    s.Basics();
    SweepStarts(all, ByKey(doomed));
    count := 0;
    var prev: Entry?<K, ()> := null;
    var node := s.buckets[i];
    while node != null
      invariant s.Valid() && |s.chains| == |chains| && s.chains == chains[i := s.chains[i]] && Nodes(s.chains) <= nodes
      invariant Swept(all, k, j, ByKey(doomed), s.chains[i]) && Standing(all, k, node, s.chains[i], j, prev)
      invariant Apart(s, other, doomed, test, retain)
      invariant count == |all| - |s.chains[i]| && s.size + count == old(s.size)
      decreases |all| - k
    {
      var gone;
      node, prev, gone, j := SweepNext(s, i, node, prev, test, other, retain, doomed, all, k, j);
      if gone {
        count := count + 1;
      }
      k := k + 1;
    }
    SweepEnds(all, j, ByKey(doomed), s.chains[i]);
  }

  // ---------- Whole sets ----------

  lemma ChainHas<K(!new)>(h: Hashing<K>, ns: seq<Entry<K, ()>>, k: K)
    ensures InChain(h, View(ns), k) != None <==> exists n | n in ns :: h.equals(n.key, k)
  {
    ViewAt(ns);
    var j := Position(h, View(ns), k);
    if j < |ns| {
      assert ns[j] in ns;
    }
  }

  /** Keeping the nodes that are not doomed keeps the elements that are not doomed. */
  lemma KeptContains<K(!new)>(h: Hashing<K>, ns: seq<Entry<K, ()>>, doomed: K -> bool, k: K)
    requires Respects(h.equals, doomed)
    ensures InChain(h, View(Kept(ns, ByKey(doomed))), k) != None <==> InChain(h, View(ns), k) != None && !doomed(k)
  {
    hide InChain, View, Kept;
    var kept := Kept(ns, ByKey(doomed));
    ChainHas(h, ns, k);
    ChainHas(h, kept, k);
    KeptMembers(ns, ByKey(doomed));
    if n :| n in ns && h.equals(n.key, k) && !doomed(k) {
      assert !doomed(n.key);
      assert n in kept;
    }
    if n :| n in kept && h.equals(n.key, k) {
      assert n in ns && doomed(n.key) == doomed(k);
    }
  }

  /** The three deleting sweeps: `remove_if` by a test, `remove_all` and `retain_all` by membership. */
  method Sweep<K(!new)>(s: HashSet<K>, test: K -> bool, other: HashMap?<K, ()>, retain: bool, ghost doomed: K -> bool)
    returns (count: nat)
    requires s.Valid() && Apart(s, other, doomed, test, retain) && Respects(s.h.equals, doomed)
    modifies s`size, s`modificationCount, s`chains, s.buckets, Nodes(s.chains)`next
    ensures s.Valid() && |old(s.chains)| > 0 && |s.chains| > 0 && s.size + count == old(s.size)
    ensures forall k :: Contains(s, k) <==> old(Contains(s, k)) && !doomed(k)
    ensures Apart(s, other, doomed, test, retain) && Nodes(s.chains) <= old(Nodes(s.chains))
  {
    hide HashMap.Valid, Nodes, Kept, Apart, TableOf;
    ghost var chains, nodes, t := s.chains, Nodes(s.chains), s.Table();
    s.Basics();
    KeysOf(chains);
    count := 0;
    var i := 0;
    while i < s.buckets.Length
      invariant 0 <= i <= s.buckets.Length == |chains| == |s.chains|
      invariant s.Valid() && Apart(s, other, doomed, test, retain) && Nodes(s.chains) <= nodes
      invariant forall a | 0 <= a < i :: s.chains[a] == Kept(chains[a], ByKey(doomed))
      invariant forall a | i <= a < |chains| :: s.chains[a] == chains[a]
      invariant s.size + count == old(s.size)
    {
      var removed := SweepBucket(s, i, test, other, retain, doomed);
      count := count + removed;
      i := i + 1;
    }
    s.Basics();
    SweptTable(s.h, chains, s.chains, t, doomed);
  }

  /** A table of a set is determined by the keys of its nodes, which never change. */
  ghost predicate SameKeys<K(!new)>(chains: Chains<K, ()>, t: Table<K, ()>) {
    && |t| == |chains| && (forall i | 0 <= i < |t| :: |t[i]| == |chains[i]|)
    && forall i, j | 0 <= i < |t| && 0 <= j < |t[i]| :: t[i][j].0 == chains[i][j].key
  }

  lemma KeysOf<K(!new)>(chains: Chains<K, ()>)
    ensures SameKeys(chains, TableOf(chains))
  {
    forall i | 0 <= i < |chains| ensures |TableOf(chains)[i]| == |chains[i]|
      && forall j | 0 <= j < |chains[i]| :: TableOf(chains)[i][j].0 == chains[i][j].key {
      ViewAt(chains[i]);
    }
  }

  lemma SweptTable<K(!new)>(h: Hashing<K>, chains: Chains<K, ()>, chains': Chains<K, ()>, t: Table<K, ()>,
                            doomed: K -> bool)
    requires SameKeys(chains, t) && |t| > 0 && Respects(h.equals, doomed) && |chains'| == |chains|
    requires forall a | 0 <= a < |chains| :: chains'[a] == Kept(chains[a], ByKey(doomed))
    ensures forall k :: Lookup(h, TableOf(chains'), k) != None <==> Lookup(h, t, k) != None && !doomed(k)
  {
    forall k ensures Lookup(h, TableOf(chains'), k) != None <==> Lookup(h, t, k) != None && !doomed(k) {
      var i := Bucket(h.hash(k), |t|);
      ViewAt(chains[i]);
      PositionIs(h, View(chains[i]), k, Position(h, t[i], k));
      KeptContains(h, chains[i], doomed, k);
    }
  }

  // ---------- The algebra ----------

  lemma CoherentEquals<K(!new)>(h: Hashing<K>)
    requires Coherent(h)
    ensures Equivalence(h.equals)
  {
  }

  /** That many more elements leave the set at most half full, so that growing always mends a shortage. */
  ghost predicate HalfEmpty<K(!new)>(s: HashSet<K>, more: nat)
    reads s
  {
    s.size + more <= HashMaps.MAX_CAPACITY / 2
  }

  /**
     Adds the elements one by one. `changed` tells whether any was new; `ok` is false when some could not
     be added for want of memory, which does not happen in a set that stays half empty when there is plenty.
   */
  method AddAll<K(!new)>(s: HashSet<K>, elements: seq<K>, plenty: bool) returns (changed: bool, ok: bool)
    requires s.Valid()
    modifies s, s.buckets, Nodes(s.chains)
    ensures s.Valid() && |old(s.chains)| > 0 && |s.chains| > 0
    ensures ok ==> forall k :: Contains(s, k) <==> old(Contains(s, k)) || In(s.h.equals, elements, k)
    ensures plenty && old(HalfEmpty(s, |elements|)) ==> ok
    ensures old(s.size) <= s.size <= old(s.size) + |elements| && (changed <==> s.size > old(s.size))
    ensures !changed ==> forall k :: Contains(s, k) <==> old(Contains(s, k))
    ensures s.buckets == old(s.buckets) || fresh(s.buckets)
    ensures forall e | e in Nodes(s.chains) :: e in old(Nodes(s.chains)) || fresh(e)
  {
    hide HashMap.Valid, Nodes, Coherent, Placed, TableOf, Lookup, In, Changed, Same, Added;
    changed, ok := false, true;
    s.Basics();
    ghost var t := s.Table();
    AddedNothing(s.h, t);
    var i := 0;
    while i < |elements|
      invariant 0 <= i <= |elements| && s.Valid() && |s.chains| > 0 && |t| > 0
      invariant s.buckets == old(s.buckets) || fresh(s.buckets)
      invariant forall e | e in Nodes(s.chains) :: e in old(Nodes(s.chains)) || fresh(e)
      invariant ok ==> Added(s.h, t, s.Table(), elements[..i])
      invariant !changed ==> Added(s.h, t, s.Table(), [])
      invariant old(s.size) <= s.size <= old(s.size) + i && (changed <==> s.size > old(s.size))
      invariant plenty && old(HalfEmpty(s, |elements|)) ==> ok
    {
      var more: bool, room: bool := *, *;
      ghost var before := s.Table();
      s.Basics();
      var previous, done := s.Put(elements[i], (), plenty || more, plenty || room);
      assert elements[..i + 1] == elements[..i] + [elements[i]];
      if ok && done {
        AddedStep(s.h, t, before, s.Table(), elements[..i], elements[i]);
      }
      if !changed {
        NothingAdded(s.h, t, before, s.Table(), elements[i], done);
      }
      ok := ok && done;
      changed := changed || (previous == None && done);
      i := i + 1;
    }
    assert elements[..i] == elements;
    AddedMeans(s.h, t, s.Table());
  }

  ghost predicate Added<K(!new)>(h: Hashing<K>, t: Table<K, ()>, t': Table<K, ()>, xs: seq<K>)
    requires |t| > 0 && |t'| > 0
  {
    forall k :: Lookup(h, t', k) != None <==> Lookup(h, t, k) != None || In(h.equals, xs, k)
  }

  lemma AddedNothing<K(!new)>(h: Hashing<K>, t: Table<K, ()>)
    requires |t| > 0
    ensures Added(h, t, t, [])
  {
  }

  lemma AddedMeans<K(!new)>(h: Hashing<K>, t: Table<K, ()>, t': Table<K, ()>)
    requires |t| > 0 && |t'| > 0
    ensures Added(h, t, t', []) ==> forall k :: Lookup(h, t', k) != None <==> Lookup(h, t, k) != None
    ensures forall xs :: Added(h, t, t', xs) ==>
      forall k :: Lookup(h, t', k) != None <==> Lookup(h, t, k) != None || In(h.equals, xs, k)
  {
    hide Lookup;
    assert forall k :: !In(h.equals, [], k);
  }

  /** Putting what is there already, or failing to put it, adds nothing. */
  lemma NothingAdded<K(!new)>(h: Hashing<K>, t: Table<K, ()>, u: Table<K, ()>, v: Table<K, ()>, x: K, done: bool)
    requires Coherent(h) && |t| > 0 && |u| > 0 && |v| > 0 && Added(h, t, u, [])
    requires if done then Changed(h, u, v, x, Some(())) else Same(h, u, v)
    ensures Lookup(h, u, x) != None || !done ==> Added(h, t, v, [])
  {
    hide Lookup, Coherent, Count;
    forall k ensures h.equals(x, k) ==> Lookup(h, u, k) == Lookup(h, u, x) {
      if h.equals(x, k) {
        LookupEqual(h, u, x, k);
      }
    }
  }

  lemma AddedStep<K(!new)>(h: Hashing<K>, t: Table<K, ()>, u: Table<K, ()>, v: Table<K, ()>, xs: seq<K>, x: K)
    requires |t| > 0 && |u| > 0 && |v| > 0 && Added(h, t, u, xs) && Changed(h, u, v, x, Some(()))
    ensures Added(h, t, v, xs + [x])
  {
    hide Lookup;
    forall k ensures In(h.equals, xs + [x], k) <==> In(h.equals, xs, k) || h.equals(x, k) {
      if h.equals(x, k) {
        assert x in xs + [x];
      }
    }
  }

  method Union<K(!new)>(a: Collection<K>, b: Collection<K>, result: HashSet<K>, plenty: bool) returns (ok: bool)
    requires result.Valid()
    modifies result, result.buckets, Nodes(result.chains)
    ensures result.Valid() && |old(result.chains)| > 0 && |result.chains| > 0
    ensures ok ==> forall k :: Contains(result, k) <==>
      old(Contains(result, k)) || In(result.h.equals, a.elements, k) || In(result.h.equals, b.elements, k)
    ensures plenty && old(HalfEmpty(result, |a.elements| + |b.elements|)) ==> ok
    ensures result.buckets == old(result.buckets) || fresh(result.buckets)
    ensures forall e | e in Nodes(result.chains) :: e in old(Nodes(result.chains)) || fresh(e)
  {
    hide HashMap.Valid, Nodes, In;
    var _, okA := AddAll(result, a.elements, plenty);
    var _, okB := AddAll(result, b.elements, plenty);
    ok := okA && okB;
  }

  method Intersection<K(!new)>(a: Collection<K>, b: Collection<K>, result: HashSet<K>, plenty: bool) returns (ok: bool)
    requires result.Valid() && Faithful(b, result.h.equals)
    modifies result, result.buckets, Nodes(result.chains)
    ensures result.Valid() && |old(result.chains)| > 0 && |result.chains| > 0
    ensures ok ==> forall k :: Contains(result, k) <==>
      (old(Contains(result, k)) || In(result.h.equals, a.elements, k)) && In(result.h.equals, b.elements, k)
    ensures plenty && old(HalfEmpty(result, |a.elements|)) ==> ok
    ensures result.buckets == old(result.buckets) || fresh(result.buckets)
    ensures forall e | e in Nodes(result.chains) :: e in old(Nodes(result.chains)) || fresh(e)
  {
    hide HashMap.Valid, Nodes, In;
    result.Basics();
    CoherentEquals(result.h);
    FaithfulRespects(b, result.h.equals);
    var added;
    added, ok := AddAll(result, a.elements, plenty);
    var _ := Sweep(result, b.contains, null, true, k => !b.contains(k));
  }

  method Difference<K(!new)>(a: Collection<K>, b: Collection<K>, result: HashSet<K>, plenty: bool) returns (ok: bool)
    requires result.Valid() && Faithful(b, result.h.equals)
    modifies result, result.buckets, Nodes(result.chains)
    ensures result.Valid() && |old(result.chains)| > 0 && |result.chains| > 0
    ensures ok ==> forall k :: Contains(result, k) <==>
      (old(Contains(result, k)) || In(result.h.equals, a.elements, k)) && !In(result.h.equals, b.elements, k)
    ensures plenty && old(HalfEmpty(result, |a.elements|)) ==> ok
    ensures result.buckets == old(result.buckets) || fresh(result.buckets)
    ensures forall e | e in Nodes(result.chains) :: e in old(Nodes(result.chains)) || fresh(e)
  {
    hide HashMap.Valid, Nodes, In;
    result.Basics();
    CoherentEquals(result.h);
    FaithfulRespects(b, result.h.equals);
    var added;
    added, ok := AddAll(result, a.elements, plenty);
    var _ := Sweep(result, b.contains, null, false, b.contains);
  }

  lemma Options<K(!new)>(s: HashSet<K>)
    requires s.Valid()
    ensures Coherent(s.h) && s.load.Valid() && HashMaps.MIN_CAPACITY <= s.buckets.Length <= HashMaps.MAX_CAPACITY
  {
  }

  lemma TableRespects<K(!new)>(h: Hashing<K>, t: Table<K, ()>, doomed: K -> bool)
    requires Coherent(h) && |t| > 0 && forall k :: doomed(k) == (Lookup(h, t, k) != None)
    ensures Respects(h.equals, doomed)
  {
    forall a, b | h.equals(a, b) ensures doomed(a) == doomed(b) {
      LookupEqual(h, t, a, b);
    }
  }

  /** Two sets that share no memory. */
  ghost predicate Strangers<K(!new)>(s: HashSet<K>, t: HashSet<K>)
    reads s, t
  {
    s != t && s.buckets != t.buckets && Nodes(s.chains) !! Nodes(t.chains)
  }

  /** Adding to one set leaves a stranger alone. */
  method AddBeside<K(!new)>(s: HashSet<K>, elements: seq<K>, plenty: bool, ghost t: HashSet<K>) returns (ok: bool)
    requires s.Valid() && t.Valid() && Strangers(s, t)
    modifies s, s.buckets, Nodes(s.chains)
    ensures s.Valid() && t.Valid() && Strangers(s, t) && |old(s.chains)| > 0 && |s.chains| > 0
    ensures t.Table() == old(t.Table())
    ensures ok ==> forall k :: Contains(s, k) <==> old(Contains(s, k)) || In(s.h.equals, elements, k)
    ensures plenty && old(HalfEmpty(s, |elements|)) ==> ok
    ensures s.size <= old(s.size) + |elements|
    ensures s.buckets == old(s.buckets) || fresh(s.buckets)
    ensures forall e | e in Nodes(s.chains) :: e in old(Nodes(s.chains)) || fresh(e)
  {
    hide HashMap.Valid, Nodes, In, TableOf;
    NodesAllocated(t.chains);
    NodesAllocated(s.chains);
    label before:
    var changed;
    changed, ok := AddAll(s, elements, plenty);
    assert forall e | e in Nodes(t.chains) :: unchanged@before(e);
  }

  /** Retaining in one set leaves a stranger alone. */
  method RetainBeside<K(!new)>(s: HashSet<K>, c: Collection<K>, ghost t: HashSet<K>)
    requires s.Valid() && t.Valid() && Strangers(s, t) && Faithful(c, s.h.equals)
    modifies s, s.buckets, Nodes(s.chains)
    ensures s.Valid() && t.Valid() && Strangers(s, t) && |old(s.chains)| > 0 && |s.chains| > 0
    ensures t.Table() == old(t.Table())
    ensures forall k :: Contains(s, k) <==> old(Contains(s, k)) && In(s.h.equals, c.elements, k)
    ensures s.buckets == old(s.buckets) && Nodes(s.chains) <= old(Nodes(s.chains))
  {
    hide HashMap.Valid, Nodes, In, TableOf;
    s.Basics();
    CoherentEquals(s.h);
    FaithfulRespects(c, s.h.equals);
    NodesAllocated(t.chains);
    label before:
    var _ := Sweep(s, c.contains, null, true, k => !c.contains(k));
    assert forall e | e in Nodes(t.chains) :: unchanged@before(e);
  }

  /** Removes the elements of a stranger. */
  method RemoveMembers<K(!new)>(s: HashSet<K>, t: HashSet<K>)
    requires s.Valid() && t.Valid() && Strangers(s, t) && |t.chains| > 0 && t.h == s.h
    modifies s, s.buckets, Nodes(s.chains)
    ensures s.Valid() && |old(s.chains)| > 0 && |s.chains| > 0
    ensures forall k :: Contains(s, k) <==> old(Contains(s, k)) && !old(Contains(t, k))
    ensures s.buckets == old(s.buckets) && Nodes(s.chains) <= old(Nodes(s.chains))
  {
    hide HashMap.Valid, Nodes, TableOf, Lookup, Coherent;
    s.Basics();
    ghost var table, h := t.Table(), t.h;
    ghost var doomed: K -> bool := k => |table| > 0 && Lookup(h, table, k) != None;
    TableRespects(h, table, doomed);
    var _ := Sweep(s, k => false, t, false, doomed);
  }

  /** The elements bucket by bucket, as the iterator and the copying loop meet them. */
  ghost function Keys<K>(chains: Chains<K, ()>): seq<K> {
    if chains == [] then [] else Keys(chains[..|chains| - 1]) + KeysIn(chains[|chains| - 1])
  }

  ghost function KeysIn<K>(ns: seq<Entry<K, ()>>): (r: seq<K>)
    ensures |r| == |ns| && forall i | 0 <= i < |ns| :: r[i] == ns[i].key
  {
    seq(|ns|, i requires 0 <= i < |ns| => ns[i].key)
  }

  lemma {:induction false} KeysCount<K>(chains: Chains<K, ()>)
    ensures |Keys(chains)| == Count(TableOf(chains))
  {
    if chains != [] {
      var n := |chains| - 1;
      KeysCount(chains[..n]);
      assert TableOf(chains)[..n] == TableOf(chains[..n]);
      ViewAt(chains[n]);
    }
  }

  lemma {:induction false} KeysMembers<K>(chains: Chains<K, ()>, k: K)
    ensures k in Keys(chains) <==> exists i, j :: 0 <= i < |chains| && 0 <= j < |chains[i]| && chains[i][j].key == k
  {
    if chains != [] {
      var n := |chains| - 1;
      KeysMembers(chains[..n], k);
      if k in KeysIn(chains[n]) {
        var j :| 0 <= j < |chains[n]| && KeysIn(chains[n])[j] == k;
        assert chains[n][j].key == k;
      }
      if i, j :| 0 <= i < |chains| && 0 <= j < |chains[i]| && chains[i][j].key == k {
        if i < n {
          assert chains[..n][i][j].key == k;
        } else {
          assert KeysIn(chains[n])[j] == k;
        }
      }
    }
  }

  /** The keys are what a lookup finds. */
  lemma KeysFound<K(!new)>(s: HashSet<K>, k: K)
    requires s.Valid()
    ensures |s.chains| > 0 && (Contains(s, k) <==> In(s.h.equals, Keys(s.chains), k)) && |Keys(s.chains)| == s.size
  {
    hide Nodes, Keys, Coherent;
    s.Basics();
    KeysCount(s.chains);
    var i := Bucket(s.h.hash(k), |s.chains|);
    var c := s.chains[i];
    ViewAt(c);
    ChainHas(s.h, c, k);
    if n :| n in c && s.h.equals(n.key, k) {
      var j :| 0 <= j < |c| && c[j] == n;
      assert s.chains[i][j].key == n.key;
      KeysMembers(s.chains, n.key);
    }
    if x :| x in Keys(s.chains) && s.h.equals(x, k) {
      KeysMembers(s.chains, x);
      var a, b :| 0 <= a < |s.chains| && 0 <= b < |s.chains[a]| && s.chains[a][b].key == x;
      InItsBucket(s.h, s.chains, a, b);
      EqualsLaws(s.h, x, k, k);
      assert s.chains[a][b] in c;
    }
  }

  lemma {:induction false} KeysGrow<K>(chains: Chains<K, ()>, i: nat)
    requires i < |chains|
    ensures Keys(chains[..i + 1]) == Keys(chains[..i]) + KeysIn(chains[i])
    ensures |Keys(chains[..i])| + |chains[i]| <= |Keys(chains)|
    decreases |chains|
  {
    assert chains[..i + 1][..i] == chains[..i];
    var n := |chains| - 1;
    if i < n {
      KeysGrow(chains[..n], i);
      assert chains[..n][..i] == chains[..i];
    } else {
      assert chains[..n + 1] == chains;
    }
  }

  lemma KeysSoFar<K>(ns: seq<Entry<K, ()>>, j: nat)
    requires j <= |ns|
    ensures j < |ns| ==> KeysIn(ns[..j + 1]) == KeysIn(ns[..j]) + [ns[j].key]
    ensures j == |ns| ==> ns[..j] == ns
  {
  }

  lemma AddedMore<K(!new)>(h: Hashing<K>, t: Table<K, ()>, u: Table<K, ()>, v: Table<K, ()>, xs: seq<K>, ys: seq<K>)
    requires |t| > 0 && |u| > 0 && |v| > 0 && Added(h, t, u, xs) && Added(h, u, v, ys)
    ensures Added(h, t, v, xs + ys)
  {
    hide Lookup, In;
    InJoined(h.equals, xs, ys);
  }

  /** Adds the elements of one bucket of `s` to the copy. */
  method CopyBucket<K(!new)>(copy: HashSet<K>, s: HashSet<K>, i: nat, plenty: bool) returns (ok: bool)
    requires copy.Valid() && s.Valid() && Strangers(copy, s) && i < |s.chains| && i < s.buckets.Length && copy.h == s.h
    modifies copy, copy.buckets, Nodes(copy.chains)
    ensures copy.Valid() && s.Valid() && Strangers(copy, s) && |old(copy.chains)| > 0 && |copy.chains| > 0
    ensures ok ==> forall k :: Contains(copy, k) <==> old(Contains(copy, k)) || In(s.h.equals, KeysIn(s.chains[i]), k)
    ensures plenty && old(HalfEmpty(copy, |s.chains[i]|)) ==> ok
    ensures copy.size <= old(copy.size) + |s.chains[i]|
    ensures copy.buckets == old(copy.buckets) || fresh(copy.buckets)
    ensures forall e | e in Nodes(copy.chains) :: e in old(Nodes(copy.chains)) || fresh(e)
  {
    hide HashMap.Valid, Nodes, In, TableOf, Lookup, KeysIn, Linked, Coherent, Placed;
    copy.Basics();
    s.Basics();
    ghost var c, j := s.chains[i], 0;
    ghost var t := copy.Table();
    AddedNothing(s.h, t);
    ok := true;
    KeysSoFar(c, 0);
    var node := s.buckets[i];
    while node != null
      invariant copy.Valid() && s.Valid() && Strangers(copy, s) && |copy.chains| > 0
      invariant j <= |c| && (j < |c| ==> node == c[j]) && (j == |c| ==> node == null)
      invariant ok ==> Added(s.h, t, copy.Table(), KeysIn(c[..j]))
      invariant plenty && old(HalfEmpty(copy, |s.chains[i]|)) ==> ok
      invariant copy.size <= old(copy.size) + j
      invariant copy.buckets == old(copy.buckets) || fresh(copy.buckets)
      invariant forall e | e in Nodes(copy.chains) :: e in old(Nodes(copy.chains)) || fresh(e)
      decreases |c| - j
    {
      s.Basics();
      LinkAt(c, j);
      KeysSoFar(c, j);
      ghost var before := copy.Table();
      var added := AddBeside(copy, [node.key], plenty, s);
      if ok && added {
        forall k ensures Lookup(s.h, copy.Table(), k) != None <==>
          Lookup(s.h, before, k) != None || In(s.h.equals, [node.key], k) {
          assert Contains(copy, k) <==> Lookup(s.h, copy.Table(), k) != None;
        }
        AddedMore(s.h, t, before, copy.Table(), KeysIn(c[..j]), [node.key]);
      }
      ok := ok && added;
      node := node.next;
      j := j + 1;
    }
    KeysSoFar(c, j);
  }

  /** A set with the same options and elements; `available` says whether there is memory for the empty set. */
  method Clone<K(!new)>(s: HashSet<K>, available: bool, plenty: bool) returns (copy: HashMap?<K, ()>, ok: bool)
    requires s.Valid()
    ensures !available ==> copy == null && !ok
    ensures available ==>
      && copy != null && fresh(copy) && fresh(copy.buckets) && (forall e | e in Nodes(copy.chains) :: fresh(e))
      && s.Valid() && copy.Valid() && Strangers(copy, s) && copy.h == s.h && copy.size <= s.size
      && |copy.chains| > 0 && |s.chains| > 0
    ensures ok ==> forall k :: Contains(copy, k) <==> Contains(s, k)
    ensures available && plenty && HalfEmpty(s, 0) ==> ok
  {
    hide HashMap.Valid, Nodes, In, TableOf, Lookup, Keys, KeysIn, Coherent, Placed, Linked;
    if !available {
      return null, false;
    }
    NodesAllocated(s.chains);
    Options(s);
    s.Basics();
    var made := new HashMap<K, ()>(s.buckets.Length, s.load, s.h);
    NoNodes<K, ()>(made.buckets.Length);
    NoKeys<K>(s.h, s.chains[..0]);
    made.Basics();
    ok := true;
    var i := 0;
    while i < s.buckets.Length
      invariant 0 <= i <= s.buckets.Length == |s.chains|
      invariant made.Valid() && s.Valid() && Strangers(made, s) && |made.chains| > 0
      invariant fresh(made.buckets) && forall e | e in Nodes(made.chains) :: fresh(e)
      invariant ok ==> forall k :: Contains(made, k) <==> In(s.h.equals, Keys(s.chains[..i]), k)
      invariant plenty && HalfEmpty(s, 0) ==> ok
      invariant made.size <= |Keys(s.chains[..i])|
    {
      KeysGrow(s.chains, i);
      InJoined(s.h.equals, Keys(s.chains[..i]), KeysIn(s.chains[i]));
      KeysTotal(s);
      var copied := CopyBucket(made, s, i, plenty);
      ok := ok && copied;
      i := i + 1;
    }
    assert s.chains[..i] == s.chains;
    KeysTotal(s);
    copy := made;
  }

  lemma NoKeys<K(!new)>(h: Hashing<K>, chains: Chains<K, ()>)
    requires chains == []
    ensures Keys(chains) == [] && forall k :: !In(h.equals, Keys(chains), k)
  {
  }

  lemma KeysTotal<K(!new)>(s: HashSet<K>)
    requires s.Valid()
    ensures |s.chains| > 0 && |Keys(s.chains)| == s.size
    ensures forall k :: Contains(s, k) <==> In(s.h.equals, Keys(s.chains), k)
  {
    hide HashMap.Valid, Nodes, Keys, In, Lookup, TableOf;
    s.Basics();
    forall k ensures Contains(s, k) <==> In(s.h.equals, Keys(s.chains), k) {
      KeysFound(s, k);
    }
    KeysSize(s);
  }

  lemma KeysSize<K(!new)>(s: HashSet<K>)
    requires s.Valid()
    ensures |Keys(s.chains)| == s.size
  {
    KeysCount(s.chains);
  }

  /**
     Builds the intersection in a copy of the result and takes it away from the union. From an empty
     result this is the symmetric difference of the two; otherwise what was there counts as part of the first.
     Without a complete copy there is no result, and what was there stays.
   */
  method SymmetricDifference<K(!new)>(a: Collection<K>, b: Collection<K>, result: HashSet<K>, available: bool,
                                      plenty: bool)
    returns (returned: bool, ok: bool)
    requires result.Valid() && Faithful(b, result.h.equals)
    modifies result, result.buckets, Nodes(result.chains)
    ensures result.Valid() && |old(result.chains)| > 0 && |result.chains| > 0 && (ok ==> returned)
    ensures ok ==> forall k :: Contains(result, k) <==>
      (old(Contains(result, k)) || In(result.h.equals, a.elements, k)) != In(result.h.equals, b.elements, k)
    ensures available && plenty && old(HalfEmpty(result, |a.elements| + |b.elements|)) ==> ok
    ensures !available ==> !returned
    ensures !returned ==> result.chains == old(result.chains) && result.Table() == old(result.Table())
    ensures result.buckets == old(result.buckets) || fresh(result.buckets)
    ensures forall e | e in Nodes(result.chains) :: e in old(Nodes(result.chains)) || fresh(e)
  {
    hide HashMap.Valid, Nodes, In, TableOf, Lookup;
    NodesAllocated(result.chains);
    result.Basics();
    label before:
    var temporary, complete := Clone(result, available, plenty);
    if temporary == null || !complete {
      assert forall e | e in Nodes(result.chains) :: unchanged@before(e);
      return false, false;
    }
    var ok1 := AddBeside(result, a.elements, plenty, temporary);
    var ok2 := AddBeside(result, b.elements, plenty, temporary);
    var ok3 := AddBeside(temporary, a.elements, plenty, result);
    RetainBeside(temporary, b, result);
    returned, ok := true, ok1 && ok2 && ok3;
    RemoveMembers(result, temporary);
  }
}
