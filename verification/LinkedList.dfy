/**
 The linked list: nodes joined by `next` and `prev`. The ghost sequence `nodes` lists them in
 order; the merge sort relinks nodes without touching their elements.
 */
module LinkedLists {
  import opened Arithmetic
  import opened ArraySorting
  import opened Lists
  import opened Ordering
  import opened Sequences
  import opened Sorting

  class Node<T> {
    var element: T
    var next: Node?<T>
    var prev: Node?<T>

    constructor (element: T)
      ensures this.element == element && next == null && prev == null
    {
      this.element, next, prev := element, null, null;
    }
  }

  ghost predicate Distinct<T>(ns: seq<Node<T>>) {
    forall i, j | 0 <= i < j < |ns| :: ns[i] != ns[j]
  }

  /** Distinct nodes joined in both directions; what precedes the first one is left open. */
  ghost predicate Chain<T>(ns: seq<Node<T>>)
    reads ns
  {
    && Distinct(ns)
    && (forall i, j | 0 <= i < |ns| && j == i + 1 < |ns| :: ns[i].next == ns[j] && ns[j].prev == ns[i])
    && (ns != [] ==> ns[|ns| - 1].next == null)
  }

  lemma ChainAt<T>(ns: seq<Node<T>>, i: nat)
    requires Chain(ns) && i < |ns|
    ensures i + 1 < |ns| ==> ns[i].next == ns[i + 1] && ns[i + 1].prev == ns[i]
    ensures i + 1 == |ns| ==> ns[i].next == null
    ensures Distinct(ns)
  {
  }

  /** The links of a chain except those between positions `k - 1` and `k`. */
  ghost predicate JoinedBut<T>(ns: seq<Node<T>>, k: nat)
    reads ns
  {
    forall i, j | 0 <= i < |ns| && j == i + 1 < |ns| && j != k :: ns[i].next == ns[j] && ns[j].prev == ns[i]
  }

  lemma CutChain<T>(ns: seq<Node<T>>, k: nat)
    requires 0 < k < |ns| && Distinct(ns) && JoinedBut(ns, k) && ns[k - 1].next == null && ns[|ns| - 1].next == null
    ensures Chain(ns[..k]) && Chain(ns[k..])
  {
    var l, r := ns[..k], ns[k..];
    forall i, j | 0 <= i < |r| && j == i + 1 < |r| ensures r[i].next == r[j] && r[j].prev == r[i] {
      assert r[i] == ns[k + i] && r[j] == ns[k + j];
    }
  }

  ghost function First<T>(ns: seq<Node<T>>): Node?<T> {
    if ns == [] then null else ns[0]
  }

  ghost function Elements<T>(ns: seq<Node<T>>): (s: seq<T>)
    reads ns
    ensures |s| == |ns|
  {
    seq(|ns|, i requires 0 <= i < |ns| reads ns => ns[i].element)
  }

  // ---------- Merge sort ----------

  /** Cuts a chain of at least two nodes behind its middle, which a second pointer at double speed finds. */
  method SplitChain<T>(head: Node<T>, ghost ns: seq<Node<T>>) returns (second: Node<T>, ghost k: nat)
    requires Chain(ns) && |ns| >= 2 && head == ns[0]
    modifies ns`next, ns`prev
    ensures 0 < k < |ns| && second == ns[k] && Chain(ns[..k]) && Chain(ns[k..]) && second.prev == null
    ensures Elements(ns) == old(Elements(ns))
  {
    var slow, fast := head, head;
    ghost var i := 0;
    while fast.next != null && fast.next.next != null
      modifies {}
      invariant 2 * i < |ns| && slow == ns[i] && fast == ns[2 * i] && i + 1 < |ns|
      decreases |ns| - i
    {
      ChainAt(ns, i);
      ChainAt(ns, 2 * i);
      ChainAt(ns, 2 * i + 1);
      slow := slow.next;
      fast := fast.next.next;
      i := i + 1;
    }
    k := i + 1;
    ChainAt(ns, i);
    second := slow.next;
    slow.next := null;
    second.prev := null;
    CutChain(ns, k);
  }

  /** The two sequences hold the same nodes. */
  ghost predicate SameNodes<T>(a: seq<Node<T>>, b: seq<Node<T>>) {
    |a| == |b| && (forall n | n in a :: n in b) && (forall n | n in b :: n in a)
  }

  ghost predicate Apart<T>(a: seq<Node<T>>, b: seq<Node<T>>) {
    forall i, j | 0 <= i < |a| && 0 <= j < |b| :: a[i] != b[j]
  }

  lemma NoNodes<T>(fs: seq<Node<T>>, ss: seq<Node<T>>)
    ensures fs == [] ==> SameNodes(ss, fs + ss)
    ensures ss == [] ==> SameNodes(fs, fs + ss)
  {
    if fs == [] {
      assert fs + ss == ss;
    }
    if ss == [] {
      assert fs + ss == fs;
    }
  }

  /** What remains when `i` nodes of one chain and `j` of the other are taken away. */
  lemma RestNodes<T>(rest: seq<Node<T>>, fs: seq<Node<T>>, ss: seq<Node<T>>, i: nat, j: nat)
    requires i <= |fs| && j <= |ss| && i + j == 1 && Distinct(fs) && Distinct(ss) && Apart(fs, ss)
    requires SameNodes(rest, fs[i..] + ss[j..])
    ensures forall k | 0 <= k < |rest| :: rest[k] in fs || rest[k] in ss
    ensures var n := if i == 1 then fs[0] else ss[0]; n !in rest && SameNodes([n] + rest, fs + ss)
  {
    assert forall k | 0 <= k < |rest| :: rest[k] in fs[i..] + ss[j..];
    var n, r := if i == 1 then fs[0] else ss[0], [if i == 1 then fs[0] else ss[0]] + rest;
    assert fs == fs[..i] + fs[i..] && ss == ss[..j] + ss[j..];
    forall m | m in fs + ss ensures m in r {
      if m != n {
        assert m in fs[i..] + ss[j..];
      }
    }
  }

  lemma Prepended<T>(n: Node<T>, ns: seq<Node<T>>)
    requires Chain(ns) && n !in ns && n.next == First(ns) && (ns != [] ==> ns[0].prev == n)
    ensures Chain([n] + ns) && Elements([n] + ns) == [n.element] + Elements(ns)
  {
    var r := [n] + ns;
    forall i, j | 0 <= i < |r| && j == i + 1 < |r| ensures r[i].next == r[j] && r[j].prev == r[i] {
      if i > 0 {
        assert r[i] == ns[i - 1] && r[j] == ns[j - 1];
      }
    }
  }

  lemma ChainTail<T>(ns: seq<Node<T>>)
    requires Chain(ns) && ns != []
    ensures Chain(ns[1..]) && ns[0].next == First(ns[1..]) && ns[0] !in ns[1..] && Distinct(ns)
    ensures Elements(ns) == [ns[0].element] + Elements(ns[1..])
  {
    var r := ns[1..];
    forall i, j | 0 <= i < |r| && j == i + 1 < |r| ensures r[i].next == r[j] && r[j].prev == r[i] {
      assert r[i] == ns[i + 1] && r[j] == ns[j + 1];
    }
  }

  lemma MergeEmpty<T(!new)>(l: seq<T>, r: seq<T>, cmp: Comparator<T>)
    ensures l == [] ==> Sorting.Merge(l, r, cmp) == r
    ensures r == [] ==> Sorting.Merge(l, r, cmp) == l
  {
  }

  lemma MergeHeads<T(!new)>(x: T, l: seq<T>, y: T, r: seq<T>, cmp: Comparator<T>)
    ensures cmp(x, y) <= 0 ==> Sorting.Merge([x] + l, [y] + r, cmp) == [x] + Sorting.Merge(l, [y] + r, cmp)
    ensures cmp(x, y) > 0 ==> Sorting.Merge([x] + l, [y] + r, cmp) == [y] + Sorting.Merge([x] + l, r, cmp)
  {
    hide IsComparator;
    assert ([x] + l)[1..] == l && ([y] + r)[1..] == r;
  }

  /** Merges two chains by relinking; of equal heads the first chain's goes first. */
  method MergeChains<T(!new)>(first: Node?<T>, second: Node?<T>, cmp: Comparator<T>, ghost fs: seq<Node<T>>,
                              ghost ss: seq<Node<T>>)
    returns (head: Node?<T>, ghost r: seq<Node<T>>)
    requires Chain(fs) && Chain(ss) && first == First(fs) && second == First(ss) && Apart(fs, ss)
    modifies fs`next, fs`prev, ss`next, ss`prev
    ensures Chain(r) && head == First(r) && SameNodes(r, fs + ss)
    ensures Elements(r) == Sorting.Merge(old(Elements(fs)), old(Elements(ss)), cmp)
    ensures fs != [] && ss != [] ==> head.prev == null
    decreases |fs| + |ss|
  {
    hide IsComparator, Chain, Elements, Sorting.Merge, SameNodes;
    MergeEmpty(Elements(fs), Elements(ss), cmp);
    NoNodes(fs, ss);
    if first == null {
      return second, ss;
    }
    if second == null {
      return first, fs;
    }
    ghost var rest;
    assert first in fs && second in ss && fs[0..] == fs && ss[0..] == ss && Apart(fs[1..], ss) && Apart(fs, ss[1..]);
    ChainTail(fs);
    ChainTail(ss);
    if cmp(first.element, second.element) <= 0 {
      var next;
      next, rest := MergeChains(first.next, second, cmp, fs[1..], ss);
      RestNodes(rest, fs, ss, 1, 0);
      Link(first, next, rest);
      MergeHeads(first.element, old(Elements(fs[1..])), second.element, old(Elements(ss[1..])), cmp);
      head := first;
    } else {
      var next;
      next, rest := MergeChains(first, second.next, cmp, fs, ss[1..]);
      RestNodes(rest, fs, ss, 0, 1);
      Link(second, next, rest);
      MergeHeads(first.element, old(Elements(fs[1..])), second.element, old(Elements(ss[1..])), cmp);
      head := second;
    }
    r := [head] + rest;
  }

  /** Puts a node before a chain. */
  method Link<T>(n: Node<T>, next: Node?<T>, ghost ns: seq<Node<T>>)
    requires Chain(ns) && n !in ns && next == First(ns)
    modifies n`next, n`prev, ns`prev
    ensures Chain([n] + ns) && n.prev == null
    ensures Elements([n] + ns) == [n.element] + old(Elements(ns))
  {
    n.next := next;
    if next != null {
      next.prev := n;
    }
    n.prev := null;
    Prepended(n, ns);
  }

  /** Sorts a chain by splitting, sorting the halves and merging them. */
  method SortChain<T(!new)>(head: Node<T>, cmp: Comparator<T>, ghost ns: seq<Node<T>>)
    returns (sorted: Node<T>, ghost r: seq<Node<T>>)
    requires Chain(ns) && ns != [] && head == ns[0]
    modifies ns`next, ns`prev
    ensures Chain(r) && SameNodes(r, ns) && |r| == |ns| && sorted == r[0] && (|ns| >= 2 ==> sorted.prev == null)
    ensures Elements(r) == StableSort(old(Elements(ns)), cmp)
    decreases |ns|
  {
    hide IsComparator, Chain, Distinct, Elements, Sorting.Merge, StableSort, SameNodes;
    if head.next == null {
      ChainAt(ns, 0);
      SingleSorted(Elements(ns), cmp);
      SameNodesSelf(ns);
      return head, ns;
    }
    ghost var s := Elements(ns);
    ChainAt(ns, 0);
    var second, k := SplitChain(head, ns);
    ghost var l, m := ns[..k], ns[k..];
    Halves(ns, k);
    assert Elements(l) == s[..k] && Elements(m) == s[k..];
    SameNodesSelf(m);
    var first;
    ghost var l', m';
    first, l' := SortChain(head, cmp, l);
    assert Elements(l') == StableSort(s[..k], cmp) && Elements(m) == s[k..];
    HalvesRearranged(ns, k, l', m);
    second, m' := SortChain(second, cmp, m);
    assert Elements(l') == StableSort(s[..k], cmp) && Elements(m') == StableSort(s[k..], cmp);
    HalvesRearranged(ns, k, l', m');
    var h;
    h, r := MergeChains(first, second, cmp, l', m');
    SameNodesTrans(r, l' + m', ns);
    MergeOfSorted(s[..k], s[k..], cmp);
    sorted := h;
  }

  lemma Halves<T>(ns: seq<Node<T>>, k: nat)
    requires Distinct(ns) && 0 < k < |ns|
    ensures Apart(ns[..k], ns[k..]) && ns[..k] + ns[k..] == ns
    ensures Elements(ns[..k]) == Elements(ns)[..k] && Elements(ns[k..]) == Elements(ns)[k..]
    ensures Elements(ns)[..k] + Elements(ns)[k..] == Elements(ns)
  {
  }

  /** Rearranging each half and then both together rearranges the whole. */
  lemma HalvesRearranged<T>(ns: seq<Node<T>>, k: nat, l: seq<Node<T>>, m: seq<Node<T>>)
    requires Distinct(ns) && 0 < k < |ns|
    requires SameNodes(l, ns[..k]) && SameNodes(m, ns[k..])
    ensures |l| == k && |m| == |ns| - k && Apart(l, m) && SameNodes(l + m, ns)
    ensures forall i | 0 <= i < |l| :: l[i] in ns
    ensures forall i | 0 <= i < |m| :: m[i] in ns
  {
    Halves(ns, k);
    assert ns[..k] + ns[k..] == ns;
    forall n | n in ns ensures n in l + m {
      assert n in ns[..k] + ns[k..];
    }
    assert forall i | 0 <= i < |l| :: l[i] in ns[..k];
    assert forall i | 0 <= i < |m| :: m[i] in ns[k..];
  }

  lemma SameNodesSelf<T>(a: seq<Node<T>>)
    ensures SameNodes(a, a)
  {
  }

  lemma SameNodesTrans<T>(a: seq<Node<T>>, b: seq<Node<T>>, c: seq<Node<T>>)
    requires SameNodes(a, b) && SameNodes(b, c)
    ensures SameNodes(a, c) && |a| == |c|
  {
  }

  // ---------- The list ----------

  lemma ElementsAt<T>(ns: seq<Node<T>>)
    ensures forall i | 0 <= i < |ns| :: Elements(ns)[i] == ns[i].element
  {
  }

  lemma SameElements<T>(ns: seq<Node<T>>, s: seq<T>)
    requires |s| == |ns| && forall i | 0 <= i < |ns| :: ns[i].element == s[i]
    ensures Elements(ns) == s
  {
  }

  /** The links of `r`, which is `ns` with the node `n` inserted at `i`. */
  lemma InsertedChain<T>(ns: seq<Node<T>>, i: nat, n: Node<T>)
    requires Distinct(ns) && i <= |ns| && n !in ns && JoinedBut(ns, i)
    requires i > 0 ==> ns[i - 1].next == n && n.prev == ns[i - 1]
    requires i < |ns| ==> n.next == ns[i] && ns[i].prev == n && ns[|ns| - 1].next == null
    requires i == |ns| ==> n.next == null
    ensures Chain(Inserted(ns, i, n)) && Elements(Inserted(ns, i, n)) == Inserted(Elements(ns), i, n.element)
  {
    var r := Inserted(ns, i, n);
    forall a, b | 0 <= a < |r| && b == a + 1 < |r| ensures r[a].next == r[b] && r[b].prev == r[a] {
      if a + 1 < i {
        assert r[a] == ns[a] && r[b] == ns[b];
      } else if a > i {
        assert r[a] == ns[a - 1] && r[b] == ns[b - 1];
      }
    }
  }

  lemma InsertedMembers<T>(s: seq<T>, i: nat, x: T)
    requires i <= |s|
    ensures forall y | y in Inserted(s, i, x) :: y in s || y == x
  {
  }

  /** The links of `ns` that do not touch position `i`. */
  ghost predicate JoinedAround<T>(ns: seq<Node<T>>, i: nat)
    reads ns
  {
    forall a, b | 0 <= a < |ns| && b == a + 1 < |ns| && a != i && b != i :: ns[a].next == ns[b] && ns[b].prev == ns[a]
  }

  lemma RemovedChain<T>(ns: seq<Node<T>>, i: nat)
    requires Distinct(ns) && i < |ns| && JoinedAround(ns, i) && (i + 1 < |ns| ==> ns[|ns| - 1].next == null)
    requires 0 < i && i + 1 < |ns| ==> ns[i - 1].next == ns[i + 1] && ns[i + 1].prev == ns[i - 1]
    requires 0 < i == |ns| - 1 ==> ns[i - 1].next == null
    ensures Chain(Without(ns, i)) && Elements(Without(ns, i)) == Without(Elements(ns), i)
  {
    var r := Without(ns, i);
    forall a, b | 0 <= a < |r| && b == a + 1 < |r| ensures r[a].next == r[b] && r[b].prev == r[a] {
      if a + 1 < i {
        assert r[a] == ns[a] && r[b] == ns[b];
      } else if a >= i {
        assert r[a] == ns[a + 1] && r[b] == ns[b + 1];
      }
    }
  }

  lemma SwappedHalves<T>(ns: seq<Node<T>>, k: nat)
    requires k <= |ns|
    ensures SameNodes(ns[k..] + ns[..k], ns)
  {
    assert ns == ns[..k] + ns[k..];
  }

  /** A ring opened at `k`. */
  lemma RotatedChain<T>(ns: seq<Node<T>>, k: nat)
    requires Distinct(ns) && 0 < k < |ns| && JoinedBut(ns, k) && ns[k - 1].next == null
    requires ns[|ns| - 1].next == ns[0] && ns[0].prev == ns[|ns| - 1]
    ensures Chain(ns[k..] + ns[..k]) && Elements(ns[k..] + ns[..k]) == Elements(ns)[k..] + Elements(ns)[..k]
  {
    var r := ns[k..] + ns[..k];
    forall a, b | 0 <= a < |r| && b == a + 1 < |r| ensures r[a].next == r[b] && r[b].prev == r[a] {
      if b < |ns| - k {
        assert r[a] == ns[k + a] && r[b] == ns[k + b];
      } else if a >= |ns| - k {
        assert r[a] == ns[a - (|ns| - k)] && r[b] == ns[b - (|ns| - k)];
      }
    }
  }

  class LinkedList<T(!new)> {
    var head: Node?<T>
    var tail: Node?<T>
    var size: nat
    var modificationCount: nat
    ghost var nodes: seq<Node<T>>

    ghost predicate Valid()
      reads this, nodes
    {
      && Chain(nodes) && size == |nodes|
      && (if nodes == [] then head == null && tail == null
          else head == nodes[0] && tail == nodes[|nodes| - 1] && head.prev == null)
    }

    ghost function Contents(): (s: seq<T>)
      reads this, nodes
      ensures |s| == |nodes|
    {
      Elements(nodes)
    }

    constructor ()
      ensures Valid() && Contents() == []
    {
      head, tail, size, modificationCount, nodes := null, null, 0, 0, [];
    }

    /** Walks from the nearer end. */
    method GetNode(index: nat) returns (node: Node<T>)
      requires Valid() && index < size
      ensures node == nodes[index]
    {
      if index < size / 2 {
        node := head;
        for i := 0 to index
          invariant node == nodes[i]
        {
          ChainAt(nodes, i);
          node := node.next;
        }
      } else {
        node := tail;
        var i: int := size - 1;
        while i > index
          invariant index <= i < size && node == nodes[i]
        {
          ChainAt(nodes, i - 1);
          node := node.prev;
          i := i - 1;
        }
      }
    }

    /** Links a new node in before position `index`, whose node is `current` in the middle of the list. */
    method LinkIn(index: nat, current: Node?<T>, element: T)
      requires Valid() && index <= size && (0 < index < size ==> current == nodes[index])
      modifies this, nodes
      ensures Valid() && modificationCount == old(modificationCount)
      ensures exists n :: fresh(n) && nodes == Inserted(old(nodes), index, n)
      ensures forall n | n in nodes :: n in old(nodes) || fresh(n)
      ensures Contents() == Inserted(old(Contents()), index, element)
    {
      hide Chain, Elements, Inserted;
      var node := new Node(element);
      ghost var ns := nodes;
      SetLinks(index, current, node);
      size := size + 1;
      nodes := Inserted(ns, index, node);
      InsertedMembers(ns, index, node);
    }

    method SetLinks(index: nat, current: Node?<T>, node: Node<T>)
      requires Valid() && index <= size && (0 < index < size ==> current == nodes[index])
      requires node !in nodes && node.next == null && node.prev == null
      modifies this`head, this`tail, nodes, node
      ensures Chain(Inserted(nodes, index, node))
      ensures Elements(Inserted(nodes, index, node)) == Inserted(old(Elements(nodes)), index, old(node.element))
      ensures head == Inserted(nodes, index, node)[0] && tail == Inserted(nodes, index, node)[size] && head.prev == null
    {
      hide Elements;
      ghost var ns, s := nodes, Elements(nodes);
      ElementsAt(ns);
      if size == 0 {
        head := node;
        tail := node;
      } else if index == 0 {
        node.next := head;
        head.prev := node;
        head := node;
      } else if index == size {
        node.prev := tail;
        tail.next := node;
        tail := node;
      } else {
        ChainAt(ns, index - 1);
        node.prev := current.prev;
        node.prev.next := node;
        node.next := current;
        current.prev := node;
      }
      SameElements(ns, s);
      InsertedChain(ns, index, node);
    }

    method Add(index: int, element: T, available: bool) returns (r: Result<()>)
      requires Valid()
      modifies this, nodes
      ensures Valid()
      ensures r == if !(0 <= index <= old(size)) then Err(IndexOutOfBounds)
                   else if available then Ok(()) else Err(OutOfMemory)
      ensures r.Err? ==>
        nodes == old(nodes) && Contents() == old(Contents()) && modificationCount == old(modificationCount)
      ensures r.Ok? ==>
        Contents() == Inserted(old(Contents()), index, element) && modificationCount == old(modificationCount) + 1
      ensures r.Ok? ==> exists n :: fresh(n) && nodes == Inserted(old(nodes), index, n)
    {
      if index < 0 || index > size {
        return Err(IndexOutOfBounds);
      }
      if !available {
        return Err(OutOfMemory);
      }
      var current: Node?<T> := null;
      if 0 < index < size {
        current := GetNode(index);
      }
      LinkIn(index, current, element);
      modificationCount := modificationCount + 1;
      r := Ok(());
    }

    method RemoveNode(node: Node<T>, ghost i: nat) returns (element: T)
      requires Valid() && i < size && node == nodes[i]
      modifies this, nodes
      ensures Valid() && nodes == Without(old(nodes), i) && modificationCount == old(modificationCount) + 1
      ensures element == old(Contents()[i]) && Contents() == Without(old(Contents()), i)
    {
      hide Chain, Elements;
      ElementsAt(nodes);
      element := node.element;
      Unlink(node, i);
      size := size - 1;
      modificationCount := modificationCount + 1;
      nodes := Without(nodes, i);
    }

    method Unlink(node: Node<T>, ghost i: nat)
      requires Valid() && i < size && node == nodes[i]
      modifies this`head, this`tail, nodes
      ensures var r := Without(nodes, i);
        && Chain(r) && Elements(r) == Without(old(Elements(nodes)), i)
        && (if r == [] then head == null && tail == null else head == r[0] && tail == r[|r| - 1] && head.prev == null)
    {
      hide Elements;
      ghost var ns, s := nodes, Elements(nodes);
      ElementsAt(ns);
      ChainAt(ns, i);
      if i > 0 {
        ChainAt(ns, i - 1);
      }
      if node.prev != null {
        node.prev.next := node.next;
      }
      if node.prev == null {
        head := node.next;
      }
      if node.next == null {
        tail := node.prev;
      }
      if node.next != null {
        node.next.prev := node.prev;
      }
      SameElements(ns, s);
      RemovedChain(ns, i);
    }

    method Remove(index: int) returns (r: Result<T>)
      requires Valid()
      modifies this, nodes
      ensures Valid()
      ensures if 0 <= index < old(size) then
          && r == Ok(old(Contents()[index]))
          && Contents() == Without(old(Contents()), index) && modificationCount == old(modificationCount) + 1
        else
          && r == Err(IndexOutOfBounds)
          && Contents() == old(Contents()) && modificationCount == old(modificationCount)
    {
      if index < 0 || index >= size {
        return Err(IndexOutOfBounds);
      }
      var node := GetNode(index);
      var element := RemoveNode(node, index);
      r := Ok(element);
    }

    /** Closes the list to a ring and opens it again elsewhere. */
    method Rotate(distance: int)
      requires Valid()
      modifies this, nodes
      ensures Valid() && SameNodes(nodes, old(nodes)) && Contents() == Rotated(old(Contents()), distance)
    {
      hide Chain, Elements;
      SameNodesSelf(nodes);
      if size <= 1 {
        NoRotation(Contents(), distance);
        return;
      }
      ghost var ns, s := nodes, Contents();
      Normalised(distance, size);
      var d := Remainder(distance, size);
      if d < 0 {
        d := d + size;
      }
      if d == 0 {
        NoRotation(s, distance);
        return;
      }
      OpenElsewhere(size - d);
      nodes := ns[size - d..] + ns[..size - d];
      SwappedHalves(ns, size - d);
    }

    method OpenElsewhere(k: nat)
      requires Valid() && 0 < k < size
      modifies this`head, this`tail, nodes
      ensures var r := nodes[k..] + nodes[..k];
        && Chain(r) && Elements(r) == old(Elements(nodes))[k..] + old(Elements(nodes))[..k]
        && head == r[0] && tail == r[|r| - 1] && head.prev == null
    {
      hide Elements;
      ghost var ns, s := nodes, Elements(nodes);
      ElementsAt(ns);
      tail.next := head;
      head.prev := tail;
      var last := head;
      for i := 0 to k - 1
        invariant last == ns[i]
        invariant JoinedBut(ns, 0) && head == ns[0] && tail == ns[|ns| - 1]
        modifies {}
      {
        assert last.next == ns[i + 1];
        last := last.next;
      }
      assert last.next == ns[k];
      var first := last.next;
      last.next := null;
      first.prev := null;
      head := first;
      tail := last;
      SameElements(ns, s);
      RotatedChain(ns, k);
    }

    /** Merge sort relinks the same nodes, each keeping its element, and then finds the new tail. */
    method Sort(cmp: Comparator<T>)
      requires Valid()
      modifies this`head, this`tail, this`nodes, nodes`next, nodes`prev
      ensures Valid() && SameNodes(nodes, old(nodes)) && Contents() == StableSort(old(Contents()), cmp)
      ensures forall n | n in nodes :: n.element == old(n.element)
    {
      hide IsComparator, StableSort, Chain, Elements;
      SameNodesSelf(nodes);
      if size < 2 {
        SingleSorted(Contents(), cmp);
        return;
      }
      head, nodes := SortChain(head, cmp, nodes);
      var node := head;
      ghost var i := 0;
      while node != null && node.next != null
        invariant 0 <= i < |nodes| && node == nodes[i]
        decreases |nodes| - i
        modifies {}
      {
        ChainAt(nodes, i);
        node := node.next;
        i := i + 1;
      }
      ChainAt(nodes, i);
      tail := node;
    }
  }

  // ---------- The iterator ----------

  class LinkedIterator<T(!new)> {
    const list: LinkedList<T>
    var current: Node?<T>
    var lastReturned: Node?<T>
    var cursor: int
    var modificationCount: nat

    /** The pointers stand at the cursor: `current` behind it, `lastReturned` on one of its sides. */
    ghost predicate Valid()
      reads this, list, list.nodes
    {
      && list.Valid() && modificationCount == list.modificationCount
      && 0 <= cursor <= list.size
      && current == (if cursor < list.size then list.nodes[cursor] else null)
      && (lastReturned == null || (cursor < list.size && lastReturned == list.nodes[cursor])
          || (cursor > 0 && lastReturned == list.nodes[cursor - 1]))
    }

    ghost function State(): Cursor<T>
      reads this, list, list.nodes
    {
      Cursor(list.Contents(), cursor,
             if lastReturned == null then -1
             else if 0 <= cursor < |list.nodes| && lastReturned == list.nodes[cursor] then cursor
             else cursor - 1)
    }

    constructor (list: LinkedList<T>, position: nat)
      requires list.Valid() && position <= list.size
      ensures Valid() && this.list == list && State() == Cursor(list.Contents(), position, -1)
    {
      this.list := list;
      cursor, lastReturned, modificationCount := position, null, list.modificationCount;
      current := null;
      new;
      if position < list.size {
        current := list.GetNode(position);
      }
    }

    method DoNext() returns (answer: Answer<T>)
      requires Valid()
      modifies this
      ensures Valid() && (State(), answer) == Step(old(State()), Next, true)
    {
      hide Chain, Elements;
      if cursor >= list.size {
        return Failed(NoSuchElement);
      }
      ElementsAt(list.nodes);
      ChainAt(list.nodes, cursor);
      answer := Element(current.element);
      lastReturned := current;
      current := current.next;
      cursor := cursor + 1;
    }

    method DoPrevious() returns (answer: Answer<T>)
      requires Valid()
      modifies this
      ensures Valid() && (State(), answer) == Step(old(State()), Previous, true)
    {
      hide Chain, Elements;
      if cursor <= 0 {
        return Failed(NoSuchElement);
      }
      ElementsAt(list.nodes);
      ChainAt(list.nodes, cursor - 1);
      if current == null {
        current := list.tail;
      } else {
        current := current.prev;
      }
      lastReturned := current;
      cursor := cursor - 1;
      answer := Element(lastReturned.element);
    }

    method DoAdd(element: T, available: bool) returns (answer: Answer<T>)
      requires Valid()
      modifies this, list, list.nodes
      ensures Valid() && (State(), answer) == Step(old(State()), Add(element), available)
      ensures forall n | n in list.nodes :: n in old(list.nodes) || fresh(n)
    {
      hide Chain, Elements;
      if !available {
        return Failed(OutOfMemory);
      }
      list.LinkIn(cursor, current, element);
      cursor := cursor + 1;
      lastReturned := null;
      answer := Done;
    }

    method DoSet(element: T) returns (answer: Answer<T>)
      requires Valid()
      modifies list.nodes
      ensures Valid() && (State(), answer) == Step(old(State()), Set(element), true)
    {
      if lastReturned == null {
        return Failed(IllegalState);
      }
      ghost var i, s := State().last, list.Contents();
      lastReturned.element := element;
      SameElements(list.nodes, s[i := element]);
      answer := Done;
    }

    method DoRemove() returns (answer: Answer<T>)
      requires Valid()
      modifies this, list, list.nodes
      ensures Valid() && (State(), answer) == Step(old(State()), Remove, true)
      ensures forall n | n in list.nodes :: n in old(list.nodes) || fresh(n)
    {
      hide Chain, Elements;
      if lastReturned == null {
        return Failed(IllegalState);
      }
      var removed := lastReturned;
      ghost var i := State().last;
      ChainAt(list.nodes, i);
      if current == removed {
        current := removed.next;
      } else {
        cursor := cursor - 1;
      }
      var _ := list.RemoveNode(removed, i);
      lastReturned := null;
      modificationCount := list.modificationCount;
      answer := Done;
    }

    /** One command. A list modified behind the iterator's back lets only `Reset` work. */
    method Do(command: Command<T>, available: bool) returns (answer: Answer<T>)
      requires list.Valid() && (modificationCount == list.modificationCount ==> Valid())
      modifies this, list, list.nodes
      ensures list.Valid()
      ensures old(Valid()) ==> Valid() && (State(), answer) == Step(old(State()), command, available)
      ensures old(Valid()) && command.Add? && !available ==> State() == old(State()) && answer == Failed(OutOfMemory)
      ensures !old(Valid()) && command.Reset? ==> Valid() && State() == Cursor(old(list.Contents()), 0, -1)
      ensures !old(Valid()) && !command.Reset? ==> answer == Failed(ConcurrentModification) && State() == old(State())
      ensures forall n | n in list.nodes :: n in old(list.nodes) || fresh(n)
    {
      if !command.Reset? && modificationCount != list.modificationCount {
        return Failed(ConcurrentModification);
      }
      match command
      case Next => answer := DoNext();
      case Previous => answer := DoPrevious();
      case Add(x) => answer := DoAdd(x, available);
      case Set(x) => answer := DoSet(x);
      case Remove => answer := DoRemove();
      case Reset =>
        current := list.head;
        cursor, lastReturned, modificationCount := 0, null, list.modificationCount;
        answer := Done;
    }
  }
}
