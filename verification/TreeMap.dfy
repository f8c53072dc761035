/** The operations of the tree map on top of the red-black tree. */
module TreeMaps {
  import opened Ordering
  import opened RedBlackShape
  import opened RedBlackRules
  import opened RedBlackTrees
  import opened SortedItems
  import opened Sequences

  method Get<K(!new, 0), V(0)>(m: RedBlackTree<K, V>, key: K) returns (value: Option<V>)
    requires m.Valid()
    ensures value == Find(m.Items(), key, m.compare)
  {
    hide RedBlackTree.Valid, IsComparator, Rank, ItemsOf;
    var entry, _ := m.GetEntry(key);
    if entry == null {
      return None;
    }
    return Some(entry.value);
  }

  method Remove<K(!new, 0), V(0)>(m: RedBlackTree<K, V>, key: K) returns (value: Option<V>)
    requires m.Valid()
    modifies m, m.repr, m.sentinel
    ensures m.Valid() && m.repr <= old(m.repr)
    ensures value == Find(old(m.Items()), key, m.compare)
    ensures m.Items() == SortedItems.Remove(old(m.Items()), key, m.compare)
  {
    hide RedBlackTree.Valid, IsComparator, Rank, ItemsOf;
    var entry, _ := m.GetEntry(key);
    if entry == null {
      return None;
    }
    var view := m.RemoveEntry(entry, Rank(m.Items(), key, m.compare));
    return Some(view.1);
  }

  method RemoveFirst<K(!new, 0), V(0)>(m: RedBlackTree<K, V>) returns (view: Option<(K, V)>)
    requires m.Valid()
    modifies m, m.repr, m.sentinel
    ensures m.Valid() && m.repr <= old(m.repr)
    ensures view == Nth(old(m.Items()), 0)
    ensures m.Items() == if view == None then old(m.Items()) else old(m.Items()[1..])
  {
    hide RedBlackTree.Valid, IsComparator, Rank, ItemsOf;
    var entry := m.GetFirstEntry();
    if entry == m.sentinel {
      return None;
    }
    var pair := m.RemoveEntry(entry, 0);
    return Some(pair);
  }

  method RemoveLast<K(!new, 0), V(0)>(m: RedBlackTree<K, V>) returns (view: Option<(K, V)>)
    requires m.Valid()
    modifies m, m.repr, m.sentinel
    ensures m.Valid() && m.repr <= old(m.repr)
    ensures view == Nth(old(m.Items()), |old(m.Items())| - 1)
    ensures m.Items() == if view == None then old(m.Items()) else old(m.Items()[..|m.Items()| - 1])
  {
    hide RedBlackTree.Valid, IsComparator, Rank, ItemsOf;
    var entry := m.GetLastEntry();
    if entry == m.sentinel {
      return None;
    }
    var pair := m.RemoveEntry(entry, |m.order| - 1);
    return Some(pair);
  }

  /** The item with the least key greater than `key`. */
  method Higher<K(!new, 0), V(0)>(m: RedBlackTree<K, V>, key: K) returns (view: Option<(K, V)>)
    requires m.Valid()
    ensures view == Nth(m.Items(), CutPoint(m.Items(), key, Low, m.compare))
  {
    hide RedBlackTree.Valid, RedBlackTree.Holds, IsComparator, ItemsOf, Cut, CutPoint, Before, Inorder, Plug;
    var current, candidate := m.root, m.sentinel;
    ghost var t, p := m.tree, Path<Entry?<K, V>>.Top;
    m.CutStart(key, Low);
    while current != m.sentinel
      invariant m.Holds(t, p) && m.CutAt(t, p, key, Low) && current == Ptr(t, m.sentinel)
      invariant candidate == m.EntryAt(|Before(p)| + |Inorder(t)|)
      decreases Height(t)
    {
      m.CutDown(t, p, key, Low);
      var result := m.compare(key, current.key);
      if result < 0 {
        candidate := current;
        t, p := t.left, Frame(L, t.color, t.entry, t.right, p);
        current := current.left;
      } else {
        t, p := t.right, Frame(R, t.color, t.entry, t.left, p);
        current := current.right;
      }
    }
    m.CutEnd(t, p, key, Low);
    view := if candidate == m.sentinel then None else Some((candidate.key, candidate.value));
  }

  /** The item with the least key not smaller than `key`. */
  method Ceiling<K(!new, 0), V(0)>(m: RedBlackTree<K, V>, key: K) returns (view: Option<(K, V)>)
    requires m.Valid()
    ensures view == Nth(m.Items(), CutPoint(m.Items(), key, High, m.compare))
  {
    hide RedBlackTree.Valid, RedBlackTree.Holds, IsComparator, ItemsOf, Cut, CutPoint, Before, Inorder, Plug;
    var current, candidate := m.root, m.sentinel;
    ghost var t, p := m.tree, Path<Entry?<K, V>>.Top;
    m.CutStart(key, High);
    while current != m.sentinel
      invariant m.Holds(t, p) && m.CutAt(t, p, key, High) && current == Ptr(t, m.sentinel)
      invariant candidate == m.EntryAt(|Before(p)| + |Inorder(t)|)
      decreases Height(t)
    {
      m.CutDown(t, p, key, High);
      var result := m.compare(key, current.key);
      if result <= 0 {
        candidate := current;
        t, p := t.left, Frame(L, t.color, t.entry, t.right, p);
        current := current.left;
      } else {
        t, p := t.right, Frame(R, t.color, t.entry, t.left, p);
        current := current.right;
      }
    }
    m.CutEnd(t, p, key, High);
    view := if candidate == m.sentinel then None else Some((candidate.key, candidate.value));
  }

  /** The item with the greatest key not greater than `key`. */
  method Floor<K(!new, 0), V(0)>(m: RedBlackTree<K, V>, key: K) returns (view: Option<(K, V)>)
    requires m.Valid()
    ensures view == Nth(m.Items(), CutPoint(m.Items(), key, Low, m.compare) - 1)
  {
    hide RedBlackTree.Valid, RedBlackTree.Holds, IsComparator, ItemsOf, Cut, CutPoint, Before, Inorder, Plug;
    var current, candidate := m.root, m.sentinel;
    ghost var t, p := m.tree, Path<Entry?<K, V>>.Top;
    m.CutStart(key, Low);
    while current != m.sentinel
      invariant m.Holds(t, p) && m.CutAt(t, p, key, Low) && current == Ptr(t, m.sentinel)
      invariant candidate == m.EntryAt(|Before(p)| - 1)
      decreases Height(t)
    {
      m.CutDown(t, p, key, Low);
      var result := m.compare(key, current.key);
      if result >= 0 {
        candidate := current;
        t, p := t.right, Frame(R, t.color, t.entry, t.left, p);
        current := current.right;
      } else {
        t, p := t.left, Frame(L, t.color, t.entry, t.right, p);
        current := current.left;
      }
    }
    m.CutEnd(t, p, key, Low);
    view := if candidate == m.sentinel then None else Some((candidate.key, candidate.value));
  }

  /** The item with the greatest key smaller than `key`. */
  method Lower<K(!new, 0), V(0)>(m: RedBlackTree<K, V>, key: K) returns (view: Option<(K, V)>)
    requires m.Valid()
    ensures view == Nth(m.Items(), CutPoint(m.Items(), key, High, m.compare) - 1)
  {
    hide RedBlackTree.Valid, RedBlackTree.Holds, IsComparator, ItemsOf, Cut, CutPoint, Before, Inorder, Plug;
    var current, candidate := m.root, m.sentinel;
    ghost var t, p := m.tree, Path<Entry?<K, V>>.Top;
    m.CutStart(key, High);
    while current != m.sentinel
      invariant m.Holds(t, p) && m.CutAt(t, p, key, High) && current == Ptr(t, m.sentinel)
      invariant candidate == m.EntryAt(|Before(p)| - 1)
      decreases Height(t)
    {
      m.CutDown(t, p, key, High);
      var result := m.compare(key, current.key);
      if result > 0 {
        candidate := current;
        t, p := t.right, Frame(R, t.color, t.entry, t.left, p);
        current := current.right;
      } else {
        t, p := t.left, Frame(L, t.color, t.entry, t.right, p);
        current := current.left;
      }
    }
    m.CutEnd(t, p, key, High);
    view := if candidate == m.sentinel then None else Some((candidate.key, candidate.value));
  }

  /** The maps share no objects. */
  ghost predicate Parted<K(!new, 0), V(0)>(m: RedBlackTree<K, V>, created: RedBlackTree<K, V>)
    reads m, created
  {
    {m, m.sentinel} + m.repr !! {created} + created.repr
  }

  /** Puts one entry into the map and goes on to the next; without memory the entry is left out. */
  method CopyNext<K(!new, 0), V(0)>(m: RedBlackTree<K, V>, created: RedBlackTree<K, V>, entry: Entry<K, V>,
                                    available: bool, ghost room: int -> bool, ghost i: nat, ghost k: nat)
    returns (next: Entry<K, V>)
    requires m.Valid() && created.Valid() && created.compare == m.compare && Parted(m, created)
    requires i <= k < |m.order| && entry == m.order[k] && k < |m.Items()|
      && created.Items() == Granted(Slice(m.Items(), i, k), room)
    requires available == room(k - i)
    modifies created, created.repr
    ensures m.Valid() && m.Items() == old(m.Items()) && next == if k + 1 < |m.order| then m.order[k + 1] else m.sentinel
    ensures created.Valid() && fresh(created.repr - old(created.repr)) && Parted(m, created)
    ensures k + 1 <= |m.Items()|
    ensures created.Items() == Granted(Slice(m.Items(), i, k + 1), room)
  {
    hide RedBlackTree.Valid, RedBlackTree.Items, IsComparator, ItemsOf, Rank, Slice, Granted, Put, Find, Ascending;
    m.Basics();
    PutNext(m.Items(), i, k, room, m.compare);
    next := m.GetSuccessorEntry(entry, k);
    var _, _ := created.Put(entry.key, entry.value, available);
  }

  /** Puts the items from position `i` up to the key `end` at position `j` into an empty map. */
  method CopyRange<K(!new, 0), V(0)>(m: RedBlackTree<K, V>, created: RedBlackTree<K, V>, first: Entry<K, V>, end: K,
                                     room: int -> bool, ghost i: nat, ghost j: nat)
    requires m.Valid() && created.Valid() && created.Items() == [] && created.compare == m.compare
    requires Parted(m, created)
    requires i <= j < |m.order| && first == m.order[i] && m.compare(m.order[j].key, end) == 0
    modifies created, created.repr
    ensures created.Valid() && fresh(created.repr - old(created.repr))
    ensures created.Items() == Granted(Slice(m.Items(), i, j), room)
  {
    hide RedBlackTree.Valid, RedBlackTree.Items, IsComparator, ItemsOf, Rank, Slice, Granted, Put, Find, Ascending;
    hide Parted;
    var entry, count := first, 0;
    ghost var k, items := i, m.Items();
    m.Basics();
    PutNext(items, i, i, room, m.compare);
    BelowEnd(items, i, j, end, m.compare);
    while entry != m.sentinel && m.compare(entry.key, end) != 0
      invariant k < j ==> m.compare(entry.key, end) != 0
      invariant m.Valid() && m.Items() == items && i <= k <= j && count == k - i && entry == m.order[k]
      invariant created.Valid() && fresh(created.repr - old(created.repr)) && Parted(m, created)
      invariant j < |items| && created.Items() == Granted(Slice(items, i, k), room)
      decreases j - k
    {
      entry := CopyNext(m, created, entry, room(count), room, i, k);
      k, count := k + 1, count + 1;
      BelowEnd(items, k, j, end, m.compare);
    }
  }

  lemma BelowEnd<K(!new), V>(items: seq<(K, V)>, k: nat, j: nat, end: K, cmp: Comparator<K>)
    requires Ascending(items, cmp) && k <= j < |items| && cmp(items[j].0, end) == 0
    ensures k < j ==> cmp(items[k].0, end) < 0
  {
    hide IsComparator;
    if k < j {
      Laws(cmp, items[k].0, items[j].0, end);
    }
  }

  /**
     The items from `start` (included) to `end` (excluded); both keys must be present and in order. `memory`
     says whether there is memory for the map and `room` for which of its entries; the others are left out.
   */
  method SubMap<K(!new, 0), V(0)>(m: RedBlackTree<K, V>, start: K, end: K, memory: bool, room: int -> bool)
    returns (result: RedBlackTree?<K, V>)
    requires m.Valid()
    ensures result != null <==>
      Has(m.Items(), start, m.compare) && Has(m.Items(), end, m.compare) && m.compare(start, end) <= 0 && memory
    ensures result != null ==>
      && fresh(result) && fresh(result.repr) && result.Valid() && result.compare == m.compare
      && Rank(m.Items(), start, m.compare) <= Rank(m.Items(), end, m.compare)
      && var slice := Slice(m.Items(), Rank(m.Items(), start, m.compare), Rank(m.Items(), end, m.compare));
      result.Items() == Granted(slice, room) && ((forall i | 0 <= i < |slice| :: room(i)) ==> result.Items() == slice)
  {
    hide RedBlackTree.Valid, RedBlackTree.Items, IsComparator, ItemsOf, Rank, Slice, Granted, Ascending;
    result := null;
    var entry, _ := m.GetEntry(start);
    var last, _ := m.GetEntry(end);
    if entry == null || last == null || m.compare(start, end) > 0 || !memory {
      return;
    }
    var created := new RedBlackTree(m.compare);
    m.Basics();
    ghost var i, j := Rank(m.Items(), start, m.compare), Rank(m.Items(), end, m.compare);
    RankMono(m.Items(), start, end, m.compare);
    SliceAscending(m.Items(), i, j, m.compare);
    GrantedAscending(Slice(m.Items(), i, j), room, m.compare);
    CopyRange(m, created, entry, end, room, i, j);
    result := created;
  }

  /** A copy of the map, but for the entries that find no memory. */
  method Clone<K(!new, 0), V(0)>(m: RedBlackTree<K, V>, memory: bool, room: int -> bool)
    returns (result: RedBlackTree?<K, V>, complete: bool)
    requires m.Valid()
    ensures result != null <==> memory
    ensures complete <==> memory && forall i | 0 <= i < |m.Items()| :: room(i)
    ensures result != null ==>
      && fresh(result) && fresh(result.sentinel) && fresh(result.repr) && result.Valid() && result.compare == m.compare
      && result.Items() == Granted(m.Items(), room) && (complete ==> result.Items() == m.Items())
  {
    hide RedBlackTree.Valid, RedBlackTree.Items, IsComparator, ItemsOf, Rank, Slice, Granted, Put, Find, Ascending;
    if !memory {
      return null, false;
    }
    var created := new RedBlackTree(m.compare);
    m.Basics();
    var entry := m.GetFirstEntry();
    var count := 0;
    complete := true;
    SliceAll(m.Items(), room);
    while entry != m.sentinel
      invariant 0 <= count <= |m.order| && m.Valid()
        && entry == if count < |m.order| then m.order[count] else m.sentinel
      invariant created.Valid() && fresh(created.sentinel) && fresh(created.repr) && created.compare == m.compare
      invariant Parted(m, created) && created.Items() == Granted(Slice(m.Items(), 0, count), room)
      invariant complete <==> forall i | 0 <= i < count :: room(i)
      decreases |m.order| - count
    {
      entry := CopyNext(m, created, entry, room(count), room, 0, count);
      complete := complete && room(count);
      count := count + 1;
    }
    GrantedAscending(m.Items(), room, m.compare);
    result := created;
  }

  lemma SliceAll<T>(s: seq<T>, room: int -> bool)
    ensures Slice(s, 0, |s|) == s && Granted(Slice(s, 0, 0), room) == []
  {
  }

  /** Lookups once the key's value is `v`, a null pointer removing it, in terms of the lookups before. */
  lemma FindRewritten<K(!new), V>(items: seq<(K, V)>, key: K, v: V, nil: V, cmp: Comparator<K>)
    requires Ascending(items, cmp)
    ensures var after := if v == nil then SortedItems.Remove(items, key, cmp) else Put(items, key, v, cmp);
      var given := if v == nil then None else Some(v);
      forall k :: Find(after, k, cmp) == if cmp(key, k) == 0 then given else Find(items, k, cmp)
  {
    hide IsComparator, Find, Put, Ascending;
    var after := if v == nil then SortedItems.Remove(items, key, cmp) else Put(items, key, v, cmp);
    var given := if v == nil then None else Some(v);
    forall k ensures Find(after, k, cmp) == if cmp(key, k) == 0 then given else Find(items, k, cmp) {
      if v == nil {
        FindRemove(items, key, k, cmp);
      } else {
        FindPut(items, key, v, k, cmp);
      }
    }
  }

  /**
     Replaces the value of a key by what the function makes of it; `nil` stands for the null
     pointer, which is passed for an absent key and, as a result, removes the key.
   */
  method Compute<K(!new, 0), V(0, ==)>(m: RedBlackTree<K, V>, key: K, remapper: (K, V) -> V, nil: V, memory: bool)
    returns (r: V, ok: bool)
    requires m.Valid()
    modifies m, m.repr, m.sentinel
    ensures m.Valid() && fresh(m.repr - old(m.repr))
    ensures ok <==> memory || r == nil || Find(old(m.Items()), key, m.compare) != None
    ensures r == remapper(key, match Find(old(m.Items()), key, m.compare) case None => nil case Some(value) => value)
    ensures m.Items() == if !ok then old(m.Items())
                         else if r == nil then SortedItems.Remove(old(m.Items()), key, m.compare)
                         else Put(old(m.Items()), key, r, m.compare)
    ensures var given := if r == nil then None else Some(r);
      forall k :: Find(m.Items(), k, m.compare)
                  == if ok && m.compare(key, k) == 0 then given else Find(old(m.Items()), k, m.compare)
  {
    hide RedBlackTree.Valid, RedBlackTree.Items, IsComparator, ItemsOf, Put, Rank, Ascending;
    ok := true;
    m.Basics();
    ghost var items := m.Items();
    var found := Get(m, key);
    r := remapper(key, if found == None then nil else found.value);
    FindRewritten(items, key, r, nil, m.compare);
    if r != nil {
      var _, failed := m.Put(key, r, memory);
      ok := !failed;
    } else if found != None {
      var _ := Remove(m, key);
    }
  }

  /** Combines a value with the stored one; a stored null pointer counts as absent, a null result removes the key. */
  method Merge<K(!new, 0), V(0, ==)>(m: RedBlackTree<K, V>, key: K, value: V, remapper: (V, V) -> V, nil: V,
                                     memory: bool)
    returns (r: V, ok: bool)
    requires m.Valid()
    modifies m, m.repr, m.sentinel
    ensures m.Valid() && fresh(m.repr - old(m.repr))
    ensures ok <==> memory || r == nil || Find(old(m.Items()), key, m.compare) != None
    ensures match Find(old(m.Items()), key, m.compare)
      case None => r == value
      case Some(previous) => r == if previous == nil then value else remapper(previous, value)
    ensures m.Items() == if !ok then old(m.Items())
                         else if r == nil then SortedItems.Remove(old(m.Items()), key, m.compare)
                         else Put(old(m.Items()), key, r, m.compare)
    ensures var given := if r == nil then None else Some(r);
      forall k :: Find(m.Items(), k, m.compare)
                  == if ok && m.compare(key, k) == 0 then given else Find(old(m.Items()), k, m.compare)
  {
    hide RedBlackTree.Valid, RedBlackTree.Items, IsComparator, ItemsOf, Put, Rank, Find, SortedItems.Remove, Ascending;
    ok := true;
    m.Basics();
    ghost var items := m.Items();
    var found := Get(m, key);
    var previous := if found == None then nil else found.value;
    r := if previous == nil then value else remapper(previous, value);
    FindRewritten(items, key, r, nil, m.compare);
    if r == nil {
      var _ := Remove(m, key);
    } else {
      var _, failed := m.Put(key, r, memory);
      ok := !failed;
    }
  }
}
