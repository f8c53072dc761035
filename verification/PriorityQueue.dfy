/** The priority queue: a binary heap in an array, the greatest element first. */
module PriorityQueues {
  import opened Arithmetic
  import opened ArrayLists
  import opened ArraySorting
  import opened Lists
  import opened Ordering

  function Parent(i: nat): (p: nat)
    requires i > 0
    ensures p < i
  {
    (i - 1) / 2
  }

  /** No element is greater than its parent. */
  ghost predicate Heap<T(!new)>(s: seq<T>, cmp: Comparator<T>) {
    forall i | 0 < i < |s| :: cmp(s[Parent(i)], s[i]) >= 0
  }

  /** A heap but for position `k`, which may be too great for its parent; its children suit its parent. */
  ghost predicate HeapBelow<T(!new)>(s: seq<T>, k: nat, cmp: Comparator<T>) {
    && k < |s|
    && (forall i | 0 < i < |s| && i != k :: cmp(s[Parent(i)], s[i]) >= 0)
    && (forall i | 0 < i < |s| && k > 0 && Parent(i) == k :: cmp(s[Parent(k)], s[i]) >= 0)
  }

  /** A heap but for position `k`, which may be too small for its children; they suit its parent. */
  ghost predicate HeapAbove<T(!new)>(s: seq<T>, k: nat, cmp: Comparator<T>) {
    && (forall i | 0 < i < |s| && Parent(i) != k :: cmp(s[Parent(i)], s[i]) >= 0)
    && (forall i | 0 < i < |s| && k > 0 && Parent(i) == k :: cmp(s[Parent(k)], s[i]) >= 0)
  }

  lemma SwapUp<T(!new)>(s: seq<T>, k: nat, cmp: Comparator<T>)
    requires HeapBelow(s, k, cmp)
    ensures k == 0 || cmp(s[k], s[Parent(k)]) <= 0 ==> Heap(s, cmp)
    ensures k > 0 && cmp(s[k], s[Parent(k)]) > 0 ==> HeapBelow(Swap(s, k, Parent(k)), Parent(k), cmp)
  {
    hide IsComparator;
    if k > 0 {
      var p, r := Parent(k), Swap(s, k, Parent(k));
      Laws(cmp, s[k], s[p], s[k]);
      Laws(cmp, s[p], s[k], s[p]);
      if cmp(s[k], s[p]) > 0 {
        forall i | 0 < i < |r| && i != p ensures cmp(r[Parent(i)], r[i]) >= 0 {
          if i != k && Parent(i) == p {
            Flip(cmp, s[p], s[i]);
            Laws(cmp, s[i], s[p], s[k]);
            Flip(cmp, s[k], s[i]);
          } else if Parent(i) == k {
            assert cmp(s[p], s[i]) >= 0;
          }
        }
        forall i | 0 < i < |r| && p > 0 && Parent(i) == p ensures cmp(r[Parent(p)], r[i]) >= 0 {
          Flip(cmp, s[Parent(p)], s[p]);
          Flip(cmp, s[p], s[i]);
          Laws(cmp, s[i], s[p], s[Parent(p)]);
          Flip(cmp, s[Parent(p)], s[i]);
        }
      }
    }
  }

  lemma Flip<T(!new)>(cmp: Comparator<T>, a: T, b: T)
    ensures cmp(a, b) >= 0 <==> cmp(b, a) <= 0
  {
  }

  /** The larger child, or the position itself when it suits both. */
  function Larger<T(!new)>(s: seq<T>, k: nat, cmp: Comparator<T>): (c: nat)
    requires k < |s|
    ensures c < |s| && (c == k || (c > k && Parent(c) == k))
  {
    var left := if 2 * k + 1 < |s| && cmp(s[k], s[2 * k + 1]) < 0 then 2 * k + 1 else k;
    if 2 * k + 2 < |s| && cmp(s[left], s[2 * k + 2]) < 0 then 2 * k + 2 else left
  }

  lemma SwapDown<T(!new)>(s: seq<T>, k: nat, cmp: Comparator<T>)
    requires HeapAbove(s, k, cmp) && k < |s|
    ensures var c := Larger(s, k, cmp);
      if c == k then Heap(s, cmp) else HeapAbove(Swap(s, k, c), c, cmp)
  {
    hide IsComparator;
    var c := Larger(s, k, cmp);
    forall i | 0 < i < |s| && Parent(i) == k ensures cmp(s[c], s[i]) >= 0 {
      assert i == 2 * k + 1 || i == 2 * k + 2;
      LargerIsLargest(s, k, i, cmp);
    }
    if c != k {
      var r := Swap(s, k, c);
      assert cmp(s[c], s[k]) >= 0 by {
        LargerGrows(s, k, cmp);
      }
    }
  }

  lemma LargerGrows<T(!new)>(s: seq<T>, k: nat, cmp: Comparator<T>)
    requires k < |s|
    ensures cmp(s[Larger(s, k, cmp)], s[k]) >= 0
  {
    hide IsComparator;
    var left := if 2 * k + 1 < |s| && cmp(s[k], s[2 * k + 1]) < 0 then 2 * k + 1 else k;
    var c := Larger(s, k, cmp);
    Reflexive(cmp, s[k]);
    Reflexive(cmp, s[left]);
    Flip(cmp, s[c], s[left]);
    Flip(cmp, s[left], s[k]);
    Laws(cmp, s[k], s[left], s[c]);
    Flip(cmp, s[c], s[k]);
  }

  lemma LargerIsLargest<T(!new)>(s: seq<T>, k: nat, i: nat, cmp: Comparator<T>)
    requires k < |s| && i < |s| && (i == 2 * k + 1 || i == 2 * k + 2)
    ensures cmp(s[Larger(s, k, cmp)], s[i]) >= 0
  {
    hide IsComparator;
    var left := if 2 * k + 1 < |s| && cmp(s[k], s[2 * k + 1]) < 0 then 2 * k + 1 else k;
    var c := Larger(s, k, cmp);
    Reflexive(cmp, s[i]);
    Reflexive(cmp, s[left]);
    Flip(cmp, s[c], s[left]);
    Flip(cmp, s[left], s[i]);
    Laws(cmp, s[i], s[left], s[c]);
    Flip(cmp, s[c], s[i]);
  }

  /** The first element of a heap is a greatest one. */
  lemma {:induction false} TopIsGreatest<T(!new)>(s: seq<T>, i: nat, cmp: Comparator<T>)
    requires Heap(s, cmp) && i < |s|
    ensures cmp(s[0], s[i]) >= 0
  {
    hide IsComparator;
    if i == 0 {
      Reflexive(cmp, s[0]);
    } else {
      TopIsGreatest(s, Parent(i), cmp);
      Flip(cmp, s[0], s[Parent(i)]);
      Flip(cmp, s[Parent(i)], s[i]);
      Laws(cmp, s[i], s[Parent(i)], s[0]);
      Flip(cmp, s[0], s[i]);
    }
  }

  class PriorityQueue<T(!new, 0)> {
    var elements: array<T>
    var size: nat
    const growth: Growth
    const compare: Comparator<T>

    /** Everything but the heap order. */
    ghost predicate Sound()
      reads this
    {
      growth.Valid() && size <= elements.Length && MIN_CAPACITY <= elements.Length <= MAX_CAPACITY
    }

    ghost predicate Valid()
      reads this, elements
    {
      Sound() && Heap(Contents(), compare)
    }

    ghost function Contents(): (s: seq<T>)
      requires size <= elements.Length
      reads this, elements
      ensures |s| == size
    {
      elements[..size]
    }

    constructor (capacity: nat, growth: Growth, compare: Comparator<T>)
      requires growth.Valid() && MIN_CAPACITY <= capacity <= MAX_CAPACITY
      ensures Valid() && size == 0 && this.growth == growth && this.compare == compare && fresh(elements)
    {
      this.growth, this.compare, size := growth, compare, 0;
      elements := new T[capacity];
    }

    /** How many elements the queue can come to hold. */
    ghost function MostElements(): (most: nat)
      requires Sound()
      reads this
      ensures elements.Length <= most <= MAX_CAPACITY
    {
      Limit(growth, elements.Length)
    }

    /** That many in any case. */
    lemma AtLeast(n: nat)
      requires Sound() && n * (growth.up + growth.down) <= MAX_CAPACITY * growth.down
      ensures n < MostElements()
    {
      var most := MostElements();
      if n >= most {
        MulMono(most, n, growth.up + growth.down);
      }
    }

    method EnsureCapacity(capacity: nat, available: bool) returns (ok: bool)
      requires Sound()
      modifies this`elements
      ensures Sound() && Contents() == old(Contents()) && MostElements() == old(MostElements())
      ensures ok <==> capacity <= old(elements.Length) || (available && capacity <= old(MostElements()))
      ensures ok ==> capacity <= elements.Length
      ensures if ok && capacity > old(elements.Length) then fresh(elements) else elements == old(elements)
      ensures elements != old(elements) ==>
        exists c | old(elements.Length) <= c < capacity :: elements.Length == growth.Scaled(c)
    {
      hide Growth.Refuses, Growth.Scaled, Limit;
      if elements.Length >= capacity {
        return true;
      }
      var grown: nat;
      ok, grown := GrownCapacity(elements.Length, capacity, growth);
      if !ok || !available {
        return false;
      }
      var buffer := new T[grown];
      forall i | 0 <= i < size {
        buffer[i] := elements[i];
      }
      elements := buffer;
    }

    /** Moves the element at `index` up past its smaller ancestors. */
    method HeapifyAfterInsert(index: nat)
      requires Sound() && HeapBelow(Contents(), index, compare)
      modifies elements
      ensures Valid() && multiset(Contents()) == multiset(old(Contents()))
    {
      hide Heap, HeapBelow, IsComparator;
      var k: nat := index;
      BelowInRange(Contents(), k, compare);
      SwapUp(Contents(), k, compare);
      while k != 0 && compare(elements[k], elements[Parent(k)]) > 0
        invariant k < size && HeapBelow(Contents(), k, compare)
        invariant k == 0 || compare(elements[k], elements[Parent(k)]) <= 0 ==> Heap(Contents(), compare)
        invariant multiset(Contents()) == multiset(old(Contents()))
        decreases k
      {
        SwapUp(Contents(), k, compare);
        SwapElements(k, Parent(k));
        k := Parent(k);
        SwapUp(Contents(), k, compare);
      }
    }

    method SwapElements(i: nat, j: nat)
      requires Sound() && i < size && j < size
      modifies elements
      ensures Contents() == Swap(old(Contents()), i, j) && multiset(Contents()) == multiset(old(Contents()))
    {
      elements[i], elements[j] := elements[j], elements[i];
      assert Contents() == Swap(old(Contents()), i, j);
    }

    /** Moves the element at `index` down past its greater children. */
    method HeapifyAfterDelete(index: nat)
      requires Sound() && HeapAbove(Contents(), index, compare) && (index < size || size == 0)
      modifies elements
      ensures Valid() && multiset(Contents()) == multiset(old(Contents()))
      decreases size - index
    {
      hide HeapAbove, IsComparator, Heap;
      if size <= 1 {
        SmallHeap(Contents(), compare);
        return;
      }
      SwapDown(Contents(), index, compare);
      var left, right := 2 * index + 1, 2 * index + 2;
      var larger := index;
      if left < size && compare(elements[index], elements[left]) < 0 {
        larger := left;
      }
      if right < size && compare(elements[larger], elements[right]) < 0 {
        larger := right;
      }
      assert larger == Larger(Contents(), index, compare);
      if larger != index {
        SwapElements(index, larger);
        HeapifyAfterDelete(larger);
      }
    }

    method Enqueue(element: T, available: bool) returns (ok: bool)
      requires Valid()
      modifies this, elements
      ensures Valid() && (elements == old(elements) || fresh(elements)) && MostElements() == old(MostElements())
      ensures ok <==> old(size < elements.Length || (available && !growth.Refuses(size)))
      ensures available && old(size) * (growth.up + growth.down) <= MAX_CAPACITY * growth.down ==> ok
      ensures if ok then multiset(Contents()) == multiset(old(Contents())) + multiset{element} && size == old(size) + 1
              else Contents() == old(Contents())
    {
      hide IsComparator, Growth.Refuses, Growth.Scaled, Limit, Heap;
      if size > 0 {
        AcceptedBelow(growth, size);
      }
      ok := EnsureCapacity(size + 1, available);
      if ok {
        Append(element);
      }
    }

    /** Puts the element behind the others and moves it up. */
    method Append(element: T)
      requires Valid() && size < elements.Length
      modifies this`size, elements
      ensures Valid() && multiset(Contents()) == multiset(old(Contents())) + multiset{element} && size == old(size) + 1
    {
      hide IsComparator, Growth.Refuses, Growth.Scaled, Limit;
      ghost var s := Contents();
      elements[size] := element;
      size := size + 1;
      assert Contents() == s + [element];
      AppendedHeap(s, element, compare);
      HeapifyAfterInsert(size - 1);
    }

    /** Swaps the first and the last element and takes the last out. */
    method TakeTop() returns (element: T)
      requires Valid() && size > 0
      modifies this`size, elements
      ensures Sound() && size == old(size) - 1 && HeapAbove(Contents(), 0, compare)
      ensures element == old(Contents()[0]) && multiset(Contents()) == multiset(old(Contents())) - multiset{element}
    {
      hide IsComparator, Heap, HeapAbove, Growth.Refuses, Growth.Scaled, Limit;
      ghost var s := Contents();
      element := elements[0];
      elements[0] := elements[size - 1];
      elements[size - 1] := element;
      size := size - 1;
      TopRemoved(s, Contents(), compare);
    }

    /** Takes out a greatest element. */
    method Dequeue() returns (r: Result<T>)
      requires Valid()
      modifies this`size, elements
      ensures Valid()
      ensures old(size) == 0 ==> r == Err(NoSuchElement) && Contents() == old(Contents())
      ensures old(size) > 0 ==>
        && r.Ok? && r.value in old(Contents()) && size == old(size) - 1
        && multiset(Contents()) == multiset(old(Contents())) - multiset{r.value}
        && forall x | x in old(Contents()) :: compare(r.value, x) >= 0
    {
      hide IsComparator, Heap, HeapAbove, Growth.Refuses, Growth.Scaled, Limit;
      if size == 0 {
        return Err(NoSuchElement);
      }
      ghost var s := Contents();
      forall i: nat | i < size ensures compare(s[0], s[i]) >= 0 {
        TopIsGreatest(s, i, compare);
      }
      var element := TakeTop();
      HeapifyAfterDelete(0);
      r := Ok(element);
    }
  }

  lemma BelowInRange<T(!new)>(s: seq<T>, k: nat, cmp: Comparator<T>)
    requires HeapBelow(s, k, cmp)
    ensures k < |s|
  {
  }

  lemma SmallHeap<T(!new)>(s: seq<T>, cmp: Comparator<T>)
    requires |s| <= 1
    ensures Heap(s, cmp)
  {
  }

  lemma AppendedHeap<T(!new)>(s: seq<T>, x: T, cmp: Comparator<T>)
    requires Heap(s, cmp)
    ensures HeapBelow(s + [x], |s|, cmp)
  {
    hide IsComparator;
  }

  /** The last element in the place of the first. */
  lemma TopRemoved<T(!new)>(s: seq<T>, r: seq<T>, cmp: Comparator<T>)
    requires Heap(s, cmp) && |s| == |r| + 1
    requires r == if |r| == 0 then [] else [s[|r|]] + s[1..|r|]
    ensures HeapAbove(r, 0, cmp) && multiset(r) == multiset(s) - multiset{s[0]}
  {
    hide IsComparator;
    if |r| > 0 {
      assert s == [s[0]] + s[1..|r|] + [s[|r|]];
    }
  }

  method EnqueueAll<T(!new, 0)>(q: PriorityQueue<T>, xs: seq<T>)
    requires q.Valid() && q.size == 0 && |xs| <= q.MostElements()
    modifies q, q.elements
    ensures q.Valid() && multiset(q.Contents()) == multiset(xs) && (q.elements == old(q.elements) || fresh(q.elements))
  {
    hide IsComparator, Heap, Growth.Refuses, Growth.Scaled, Limit;
    var k := 0;
    while k < |xs|
      invariant 0 <= k <= |xs| && q.Valid() && q.size == k && q.MostElements() == old(q.MostElements())
      invariant q.elements == old(q.elements) || fresh(q.elements)
      invariant multiset(q.Contents()) == multiset(xs[..k])
    {
      var ok := q.Enqueue(xs[k], true);
      assert xs[..k + 1] == xs[..k] + [xs[k]];
      k := k + 1;
    }
    assert xs[..k] == xs;
  }

  /** `r` has been taken out in descending order and nothing left is greater than any of it. */
  ghost predicate Draining<T(!new)>(r: seq<T>, left: seq<T>, all: multiset<T>, cmp: Comparator<T>) {
    && multiset(r) + multiset(left) == all
    && (forall i, x | 0 <= i < |r| && x in left :: cmp(r[i], x) >= 0)
    && (forall i, j | 0 <= i < j < |r| :: cmp(r[i], r[j]) >= 0)
  }

  lemma DrainStep<T(!new)>(r: seq<T>, s: seq<T>, s': seq<T>, x: T, all: multiset<T>, cmp: Comparator<T>)
    requires Draining(r, s, all, cmp) && x in s && multiset(s') == multiset(s) - multiset{x}
    requires forall y | y in s :: cmp(x, y) >= 0
    ensures Draining(r + [x], s', all, cmp)
  {
    hide IsComparator;
    forall y | y in s' ensures y in s {
      assert y in multiset(s');
    }
    assert multiset{x} <= multiset(s);
    assert multiset(r + [x]) + multiset(s') == multiset(r) + multiset(s);
  }

  /** Enqueueing everything and dequeueing it again sorts in descending order. */
  method Drain<T(!new, 0)>(q: PriorityQueue<T>, xs: seq<T>) returns (r: seq<T>)
    requires q.Valid() && q.size == 0
    requires |xs| <= q.MostElements() || |xs| * (q.growth.up + q.growth.down) <= MAX_CAPACITY * q.growth.down
    modifies q, q.elements
    ensures q.Valid() && q.size == 0 && multiset(r) == multiset(xs)
    ensures forall i, j | 0 <= i < j < |r| :: q.compare(r[i], r[j]) >= 0
  {
    hide IsComparator, Heap, Growth.Refuses, Growth.Scaled, Limit;
    if |xs| > q.MostElements() {
      q.AtLeast(|xs|);
    }
    EnqueueAll(q, xs);
    r := [];
    while q.size > 0
      invariant q.Valid() && (q.elements == old(q.elements) || fresh(q.elements))
      invariant Draining(r, q.Contents(), multiset(xs), q.compare)
      decreases q.size
    {
      ghost var before := q.Contents();
      var next := q.Dequeue();
      DrainStep(r, before, q.Contents(), next.value, multiset(xs), q.compare);
      r := r + [next.value];
    }
  }
}
