/** The tree set: the same red-black tree, with elements as keys. */
module TreeSets {
  import opened Ordering
  import opened RedBlackTrees
  import opened SortedItems
  import opened Sequences
  import opened SetAlgebra
  import TreeMaps

  type TreeSet<!K(!new, 0)> = RedBlackTree<K, ()>

  /** A test of elements, as a test of their entries. */
  ghost function ByKey<K(0)>(doomed: K -> bool): Entry<K, ()> -> bool {
    (e: Entry<K, ()>) => doomed(e.key)
  }

  ghost predicate Contains<K(!new, 0)>(s: TreeSet<K>, k: K)
    reads s, s.order
  {
    Has(s.Items(), k, s.compare)
  }

  /** Two sets that share no memory. */
  ghost predicate Strangers<K(!new, 0)>(s: TreeSet<K>, t: TreeSet<K>)
    reads s, t
  {
    s != t && {s.sentinel} + s.repr !! {t.sentinel} + t.repr
  }

  /**
     `doomed` is what a sweep goes by: a test, or membership in a set that shares nothing with the swept
     one; or the opposite.
   */
  ghost predicate Decides<K(!new, 0)>(s: TreeSet<K>, other: RedBlackTree?<K, ()>, doomed: K -> bool, test: K -> bool,
                                      retain: bool)
    reads s, if other == null then {} else {other, other.sentinel} + other.repr + set e | e in other.order
  {
    && (other != null ==> other.Valid() && Strangers(s, other))
    && forall k :: doomed(k) == (retain != if other == null then test(k) else Contains(other, k))
  }

  method Decide<K(!new, 0)>(element: K, test: K -> bool, other: RedBlackTree?<K, ()>, retain: bool, ghost s: TreeSet<K>,
                            ghost doomed: K -> bool)
    returns (b: bool)
    requires Decides(s, other, doomed, test, retain)
    ensures b == doomed(element)
  {
    hide RedBlackTree.Valid, RedBlackTree.Items, IsComparator;
    if other == null {
      b := retain != test(element);
    } else {
      var entry;
      ghost var steps;
      entry, steps := other.GetEntry(element);
      b := retain != (entry != null);
    }
  }

  /** One round of the sweep: the successor is fetched before the node is deleted. The other set does not notice. */
  method Visit<K(!new, 0)>(s: TreeSet<K>, node: Entry<K, ()>, test: K -> bool, other: RedBlackTree?<K, ()>,
                           retain: bool, ghost doomed: K -> bool, ghost i: nat)
    returns (next: Entry<K, ()>, removed: bool)
    requires s.Valid() && i < |s.order| && node == s.order[i] && Decides(s, other, doomed, test, retain)
    modifies s, s.repr, s.sentinel
    ensures s.Valid() && s.repr <= old(s.repr) && removed == doomed(node.key) && Decides(s, other, doomed, test, retain)
    ensures removed ==> s.order == Without(old(s.order), i)
    ensures !removed ==> s.order == old(s.order)
    ensures i + 1 < |old(s.order)| ==> next == old(s.order)[i + 1]
    ensures i + 1 == |old(s.order)| ==> next == s.sentinel
  {
    hide RedBlackTree.Valid, RedBlackTree.Items, IsComparator, ItemsOf, Without, Has;
    if other != null {
      other.Basics();
    }
    next := s.GetSuccessorEntry(node, i);
    removed := Decide(node.key, test, other, retain, s, doomed);
    if removed {
      var _ := s.RemoveEntry(node, i);
    }
  }

  /** What deciding about place `k` makes of a sweep. */
  lemma SweepVisit<K(0)>(all: seq<Entry<K, ()>>, k: nat, i: nat, doomed: K -> bool, now: seq<Entry<K, ()>>)
    requires Swept(all, k, i, ByKey(doomed), now) && k < |all|
    ensures i < |now| && now[i] == all[k] && |now| - i == |all| - k
    ensures k + 1 < |all| ==> now[i + 1] == all[k + 1]
    ensures doomed(all[k].key) ==> Swept(all, k + 1, i, ByKey(doomed), Without(now, i))
    ensures !doomed(all[k].key) ==> Swept(all, k + 1, i + 1, ByKey(doomed), now)
  {
    hide Swept, Without;
    SweepStep(all, k, i, ByKey(doomed), now);
  }

  /** The three deleting sweeps: `remove_if` by a test, `remove_all` and `retain_all` by membership. */
  method Sweep<K(!new, 0)>(s: TreeSet<K>, test: K -> bool, other: RedBlackTree?<K, ()>, retain: bool,
                           ghost doomed: K -> bool)
    returns (count: int)
    requires s.Valid() && Decides(s, other, doomed, test, retain)
    modifies s, s.repr, s.sentinel
    ensures s.Valid() && s.repr <= old(s.repr) && Decides(s, other, doomed, test, retain)
    ensures s.order == Kept(old(s.order), ByKey(doomed)) && count == |old(s.order)| - |s.order|
  {
    hide RedBlackTree.Valid, RedBlackTree.Items, IsComparator, ItemsOf, Kept, Without, Swept, Decides, ByKey;
    count := 0;
    ghost var all, k, i := s.order, 0, 0;
    s.Basics();
    var node := s.GetFirstEntry();
    SweepStarts(all, ByKey(doomed));
    while node != s.sentinel
      invariant s.Valid() && s.repr <= old(s.repr) && Decides(s, other, doomed, test, retain)
      invariant 0 <= k <= |all| && Swept(all, k, i, ByKey(doomed), s.order)
      invariant k < |all| ==> node == all[k] && node != s.sentinel
      invariant k == |all| ==> node == s.sentinel
      invariant count == k - i
      decreases |all| - k
    {
      SweepVisit(all, k, i, doomed, s.order);
      ghost var now := s.order;
      assert k + 1 < |all| ==> all[k + 1] in all;
      var next, removed := Visit(s, node, test, other, retain, doomed, i);
      assert k + 1 < |all| ==> next == now[i + 1] == all[k + 1];
      if removed {
        count := count + 1;
      } else {
        i := i + 1;
      }
      k := k + 1;
      node := next;
    }
    SweepEnds(all, i, ByKey(doomed), s.order);
  }

  // ---------- The algebra ----------

  /** A key is present when some entry's element is equal to it. */
  lemma HasEntry<K(!new, 0)>(items: seq<(K, ())>, order: seq<Entry<K, ()>>, k: K, cmp: Comparator<K>)
    requires Ascending(items, cmp) && |items| == |order| && forall i | 0 <= i < |items| :: items[i].0 == order[i].key
    ensures Has(items, k, cmp) <==> exists e | e in order :: cmp(e.key, k) == 0
  {
    hide IsComparator;
    var r := Rank(items, k, cmp);
    if Has(items, k, cmp) {
      assert order[r] in order;
    }
    if e :| e in order && cmp(e.key, k) == 0 {
      var i :| 0 <= i < |order| && order[i] == e;
      FindSome(items, k, cmp, i);
    }
  }

  /** Keeping the entries that are not doomed keeps the elements that are not doomed. */
  lemma KeptContains<K(!new, 0)>(items: seq<(K, ())>, order: seq<Entry<K, ()>>, items': seq<(K, ())>, doomed: K -> bool,
                                 k: K, cmp: Comparator<K>)
    requires Ascending(items, cmp) && |items| == |order| && forall i | 0 <= i < |items| :: items[i].0 == order[i].key
    requires var kept := Kept(order, ByKey(doomed));
      Ascending(items', cmp) && |items'| == |kept| && forall i | 0 <= i < |items'| :: items'[i].0 == kept[i].key
    requires Respects(Ties(cmp), doomed)
    ensures Has(items', k, cmp) <==> Has(items, k, cmp) && !doomed(k)
  {
    hide IsComparator, Kept, Has, Ascending;
    var kept := Kept(order, ByKey(doomed));
    HasEntry(items, order, k, cmp);
    HasEntry(items', kept, k, cmp);
    KeptMembers(order, ByKey(doomed));
    if e :| e in order && cmp(e.key, k) == 0 && !doomed(k) {
      assert !doomed(e.key);
      assert e in kept;
    }
    if e :| e in kept && cmp(e.key, k) == 0 {
      assert e in order && doomed(e.key) == doomed(k);
    }
  }

  /**
     Adds the elements one by one. `changed` tells whether any was new; `ok` is false when some could not
     be added for want of memory.
   */
  method AddAll<K(!new, 0)>(s: TreeSet<K>, elements: seq<K>, plenty: bool) returns (changed: bool, ok: bool)
    requires s.Valid()
    modifies s, s.repr
    ensures s.Valid() && fresh(s.repr - old(s.repr)) && (plenty ==> ok)
    ensures ok ==> forall k :: Contains(s, k) <==> old(Contains(s, k)) || In(Ties(s.compare), elements, k)
    ensures if changed then |s.Items()| > old(|s.Items()|) else s.Items() == old(s.Items())
  {
    hide RedBlackTree.Valid, RedBlackTree.Items, IsComparator, ItemsOf, Put, Has, In;
    changed, ok := false, true;
    ghost var items := s.Items();
    InNothing(Ties(s.compare));
    var i := 0;
    while i < |elements|
      invariant 0 <= i <= |elements| && s.Valid() && fresh(s.repr - old(s.repr)) && (plenty ==> ok)
      invariant ok ==> Added(items, s.Items(), elements[..i], s.compare)
      invariant |s.Items()| >= |items| && if changed then |s.Items()| > |items| else s.Items() == items
    {
      ghost var before := s.Items();
      s.Basics();
      var memory: bool := *;
      var previous, failed := s.Put(elements[i], (), plenty || memory);
      PutElement(before, elements[i], s.compare);
      ok := ok && !failed;
      changed := changed || (previous == None && !failed);
      assert elements[..i + 1] == elements[..i] + [elements[i]];
      if ok {
        AddedStep(items, before, s.Items(), elements[..i], elements[i], s.compare);
      }
      i := i + 1;
    }
    assert elements[..i] == elements;
  }

  lemma PutElement<K(!new)>(items: seq<(K, ())>, k: K, cmp: Comparator<K>)
    ensures if Find(items, k, cmp) == None then |Put(items, k, (), cmp)| == |items| + 1
      else Put(items, k, (), cmp) == items
  {
    hide IsComparator, Rank;
    if Has(items, k, cmp) {
      var x := items[Rank(items, k, cmp)];
      assert x.1 == ();
      assert x == (x.0, ());
    }
  }

  ghost predicate Added<K(!new)>(items: seq<(K, ())>, items': seq<(K, ())>, xs: seq<K>, cmp: Comparator<K>) {
    forall k :: Has(items', k, cmp) <==> Has(items, k, cmp) || In(Ties(cmp), xs, k)
  }

  lemma AddedStep<K(!new)>(items: seq<(K, ())>, before: seq<(K, ())>, after: seq<(K, ())>, xs: seq<K>, x: K,
                           cmp: Comparator<K>)
    requires Ascending(before, cmp) && Added(items, before, xs, cmp) && after == Put(before, x, (), cmp)
    ensures Added(items, after, xs + [x], cmp)
  {
    hide IsComparator, Put, Ascending;
    forall k ensures Has(after, k, cmp) <==> Has(items, k, cmp) || In(Ties(cmp), xs + [x], k) {
      FindPut(before, x, (), k, cmp);
      hide Has;
      assert Find(after, k, cmp) != None <==> Has(after, k, cmp);
      assert Find(before, k, cmp) != None <==> Has(before, k, cmp);
      assert In(Ties(cmp), xs + [x], k) <==> In(Ties(cmp), xs, k) || cmp(x, k) == 0 by {
        assert x in xs + [x];
      }
    }
  }

  /** A sweep, in terms of membership. */
  method SweepMembers<K(!new, 0)>(s: TreeSet<K>, test: K -> bool, other: RedBlackTree?<K, ()>, retain: bool,
                                  ghost doomed: K -> bool)
    requires s.Valid() && Decides(s, other, doomed, test, retain) && Respects(Ties(s.compare), doomed)
    modifies s, s.repr, s.sentinel
    ensures s.Valid() && s.repr <= old(s.repr) && Decides(s, other, doomed, test, retain)
    ensures forall k :: Contains(s, k) <==> old(Contains(s, k)) && !doomed(k)
  {
    hide RedBlackTree.Valid, RedBlackTree.Items, IsComparator, ItemsOf, Has, Kept, Decides;
    ghost var items, order := s.Items(), s.order;
    s.Basics();
    var _ := Sweep(s, test, other, retain, doomed);
    s.Basics();
    forall k ensures Contains(s, k) <==> Has(items, k, s.compare) && !doomed(k) {
      KeptContains(items, order, s.Items(), doomed, k, s.compare);
    }
  }

  method Union<K(!new, 0)>(a: Collection<K>, b: Collection<K>, result: TreeSet<K>, plenty: bool) returns (ok: bool)
    requires result.Valid()
    modifies result, result.repr
    ensures result.Valid() && fresh(result.repr - old(result.repr)) && (plenty ==> ok)
    ensures ok ==> forall k :: Contains(result, k) <==>
      old(Contains(result, k)) || In(Ties(result.compare), a.elements, k) || In(Ties(result.compare), b.elements, k)
  {
    hide RedBlackTree.Valid, RedBlackTree.Items, IsComparator, Has, In;
    var _, okA := AddAll(result, a.elements, plenty);
    var _, okB := AddAll(result, b.elements, plenty);
    ok := okA && okB;
  }

  method Intersection<K(!new, 0)>(a: Collection<K>, b: Collection<K>, result: TreeSet<K>, plenty: bool)
    returns (ok: bool)
    requires result.Valid() && Faithful(b, Ties(result.compare))
    modifies result, result.repr, result.sentinel
    ensures result.Valid() && fresh(result.repr - old(result.repr)) && (plenty ==> ok)
    ensures ok ==> forall k :: Contains(result, k) <==>
      (old(Contains(result, k)) || In(Ties(result.compare), a.elements, k)) && In(Ties(result.compare), b.elements, k)
  {
    hide RedBlackTree.Valid, RedBlackTree.Items, IsComparator, Has, In;
    TiesAreEquivalence(result.compare);
    FaithfulRespects(b, Ties(result.compare));
    var added;
    added, ok := AddAll(result, a.elements, plenty);
    SweepMembers(result, b.contains, null, true, k => !b.contains(k));
  }

  method Difference<K(!new, 0)>(a: Collection<K>, b: Collection<K>, result: TreeSet<K>, plenty: bool) returns (ok: bool)
    requires result.Valid() && Faithful(b, Ties(result.compare))
    modifies result, result.repr, result.sentinel
    ensures result.Valid() && fresh(result.repr - old(result.repr)) && (plenty ==> ok)
    ensures ok ==> forall k :: Contains(result, k) <==>
      (old(Contains(result, k)) || In(Ties(result.compare), a.elements, k)) && !In(Ties(result.compare), b.elements, k)
  {
    hide RedBlackTree.Valid, RedBlackTree.Items, IsComparator, Has, In;
    TiesAreEquivalence(result.compare);
    FaithfulRespects(b, Ties(result.compare));
    var added;
    added, ok := AddAll(result, a.elements, plenty);
    SweepMembers(result, b.contains, null, false, b.contains);
  }

  /** Adding to one set leaves a stranger alone. */
  method AddBeside<K(!new, 0)>(s: TreeSet<K>, elements: seq<K>, plenty: bool, ghost t: TreeSet<K>) returns (ok: bool)
    requires s.Valid() && t.Valid() && Strangers(s, t)
    modifies s, s.repr
    ensures s.Valid() && t.Valid() && Strangers(s, t) && fresh(s.repr - old(s.repr)) && (plenty ==> ok)
    ensures t.Items() == old(t.Items())
    ensures ok ==> forall k :: Contains(s, k) <==> old(Contains(s, k)) || In(Ties(s.compare), elements, k)
  {
    hide RedBlackTree.Valid, RedBlackTree.Items, IsComparator, ItemsOf, Has, In;
    t.Basics();
    var added;
    added, ok := AddAll(s, elements, plenty);
  }

  /** Retaining in one set leaves a stranger alone. */
  method RetainBeside<K(!new, 0)>(s: TreeSet<K>, c: Collection<K>, ghost t: TreeSet<K>)
    requires s.Valid() && t.Valid() && Strangers(s, t) && Faithful(c, Ties(s.compare))
    modifies s, s.repr, s.sentinel
    ensures s.Valid() && t.Valid() && Strangers(s, t) && s.repr <= old(s.repr)
    ensures t.Items() == old(t.Items())
    ensures forall k :: Contains(s, k) <==> old(Contains(s, k)) && In(Ties(s.compare), c.elements, k)
  {
    hide RedBlackTree.Valid, RedBlackTree.Items, IsComparator, ItemsOf, Has, In;
    t.Basics();
    TiesAreEquivalence(s.compare);
    FaithfulRespects(c, Ties(s.compare));
    SweepMembers(s, c.contains, null, true, k => !c.contains(k));
  }

  lemma ItemsRespect<K(!new)>(items: seq<(K, ())>, cmp: Comparator<K>, doomed: K -> bool)
    requires Ascending(items, cmp) && forall k :: doomed(k) == Has(items, k, cmp)
    ensures Respects(Ties(cmp), doomed)
  {
    hide IsComparator;
    forall a, b | cmp(a, b) == 0 ensures doomed(a) == doomed(b) {
      Laws(cmp, a, b, a);
      RankMono(items, a, b, cmp);
      RankMono(items, b, a, cmp);
      var r := Rank(items, a, cmp);
      if r < |items| {
        Laws(cmp, a, b, items[r].0);
        Laws(cmp, items[r].0, a, items[r].0);
        Laws(cmp, items[r].0, b, items[r].0);
      }
    }
  }

  /** Removes the elements of a stranger. */
  method RemoveMembers<K(!new, 0)>(s: TreeSet<K>, t: TreeSet<K>)
    requires s.Valid() && t.Valid() && Strangers(s, t) && t.compare == s.compare
    modifies s, s.repr, s.sentinel
    ensures s.Valid() && s.repr <= old(s.repr)
    ensures forall k :: Contains(s, k) <==> old(Contains(s, k)) && !old(Contains(t, k))
  {
    hide RedBlackTree.Valid, RedBlackTree.Items, IsComparator, ItemsOf, Has;
    t.Basics();
    ghost var items, cmp := t.Items(), t.compare;
    ghost var doomed: K -> bool := k => Has(items, k, cmp);
    ItemsRespect(items, cmp, doomed);
    SweepMembers(s, k => false, t, false, doomed);
  }

  /**
     Builds the intersection in a copy of the result and takes it away from the union. From an empty
     result this is the symmetric difference of the two; otherwise what was there counts as part of the first.
     Without a complete copy, for which `room` tells the elements that find memory, there is no result, and
     what was there stays.
   */
  method SymmetricDifference<K(!new, 0)>(a: Collection<K>, b: Collection<K>, result: TreeSet<K>,
                                         available: bool, room: int -> bool, plenty: bool)
    returns (returned: bool, ok: bool)
    requires result.Valid() && Faithful(b, Ties(result.compare))
    modifies result, result.repr, result.sentinel
    ensures result.Valid() && fresh(result.repr - old(result.repr))
    ensures returned <==> available && forall i | 0 <= i < old(|result.Items()|) :: room(i)
    ensures if plenty then ok == returned else ok ==> returned
    ensures ok ==> forall k :: Contains(result, k) <==>
      (old(Contains(result, k)) || In(Ties(result.compare), a.elements, k)) != In(Ties(result.compare), b.elements, k)
    ensures !returned ==> result.Items() == old(result.Items())
  {
    hide RedBlackTree.Valid, RedBlackTree.Items, IsComparator, ItemsOf, In, Has, Granted;
    result.Basics();
    var temporary, complete := TreeMaps.Clone(result, available, room);
    if temporary == null || !complete {
      return false, false;
    }
    var ok1 := AddBeside(result, a.elements, plenty, temporary);
    var ok2 := AddBeside(result, b.elements, plenty, temporary);
    var ok3 := AddBeside(temporary, a.elements, plenty, result);
    RetainBeside(temporary, b, result);
    returned, ok := true, ok1 && ok2 && ok3;
    RemoveMembers(result, temporary);
  }
}
