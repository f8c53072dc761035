/** The deque: a ring buffer whose capacity is a power of two, indexed by masking. */
module Deques {
  import opened Arithmetic
  import opened Bits
  import opened Lists

  const MIN_CAPACITY := 8
  const MAX_CAPACITY := 1_073_741_824
  const GROWTH_FACTOR := 2

  /** The remainder for positions at most one lap away. */
  function Wrap(i: int, capacity: nat): int {
    if i < 0 then i + capacity else if i >= capacity then i - capacity else i
  }

  /** Masking wraps around at both ends, also from position 0 to the last. */
  lemma MaskWraps(i: int, capacity: int)
    requires capacity > 0 && IsPowerOfTwo(capacity) && -capacity <= i < 2 * capacity
    ensures And(i, capacity - 1) == Wrap(i, capacity) && 0 <= Wrap(i, capacity) < capacity
  {
    MaskPowerOfTwo(i, capacity);
    if i < 0 {
      DivMod(i, -1, i + capacity, capacity);
    } else if i >= capacity {
      DivMod(i, 1, i - capacity, capacity);
    } else {
      DivMod(i, 0, i, capacity);
    }
  }

  function Reversed<T>(s: seq<T>): (r: seq<T>)
    ensures |r| == |s| && forall i | 0 <= i < |s| :: r[i] == s[|s| - 1 - i]
  {
    seq(|s|, i requires 0 <= i < |s| => s[|s| - 1 - i])
  }

  /** The first and last `i` elements have changed places. */
  ghost function EndsReversed<T>(s: seq<T>, i: nat): (r: seq<T>)
    requires i <= |s| / 2
    ensures |r| == |s|
  {
    seq(|s|, k requires 0 <= k < |s| => if i <= k < |s| - i then s[k] else s[|s| - 1 - k])
  }

  lemma ReversalStep<T>(s: seq<T>, i: nat)
    requires i < |s| / 2
    ensures var r, n := EndsReversed(s, i), |s|; EndsReversed(s, i + 1) == r[i := r[n - 1 - i]][n - 1 - i := r[i]]
  {
  }

  lemma ReversalEnds<T>(s: seq<T>)
    ensures EndsReversed(s, 0) == s && EndsReversed(s, |s| / 2) == Reversed(s)
  {
  }

  /** The elements of a ring from position `first` on. */
  ghost function Ring<T>(a: seq<T>, first: nat, size: nat): (s: seq<T>)
    requires first < |a| && size <= |a|
    ensures |s| == size
  {
    seq(size, i requires 0 <= i < size => a[Wrap(first + i, |a|)])
  }

  lemma RingIs<T>(a: seq<T>, first: nat, s: seq<T>)
    requires first < |a| && |s| <= |a| && forall i | 0 <= i < |s| :: s[i] == a[Wrap(first + i, |a|)]
    ensures Ring(a, first, |s|) == s
  {
  }

  lemma PushedFront<T>(a: seq<T>, first: nat, size: nat, x: T)
    requires first < |a| && size < |a|
    ensures var f := Wrap(first - 1, |a|); Ring(a[f := x], f, size + 1) == [x] + Ring(a, first, size)
  {
    var f := Wrap(first - 1, |a|);
    var s := [x] + Ring(a, first, size);
    forall i | 0 <= i < |s| ensures s[i] == a[f := x][Wrap(f + i, |a|)] {
      if i > 0 {
        assert s[i] == a[Wrap(first + (i - 1), |a|)];
      }
    }
    RingIs(a[f := x], f, s);
  }

  lemma PushedBack<T>(a: seq<T>, first: nat, size: nat, x: T)
    requires first < |a| && size < |a|
    ensures Ring(a[Wrap(first + size, |a|) := x], first, size + 1) == Ring(a, first, size) + [x]
  {
    var l := Wrap(first + size, |a|);
    var s := Ring(a, first, size) + [x];
    forall i | 0 <= i < |s| ensures s[i] == a[l := x][Wrap(first + i, |a|)] {
      if i < size {
        assert s[i] == a[Wrap(first + i, |a|)];
      }
    }
    RingIs(a[l := x], first, s);
  }

  lemma Popped<T>(a: seq<T>, first: nat, size: nat)
    requires first < |a| && 0 < size <= |a|
    ensures Ring(a, first, size) == [a[first]] + Ring(a, Wrap(first + 1, |a|), size - 1)
    ensures Ring(a, first, size) == Ring(a, first, size - 1) + [a[Wrap(first + size - 1, |a|)]]
  {
    var s, r, f := Ring(a, first, size), [a[first]] + Ring(a, Wrap(first + 1, |a|), size - 1), Wrap(first + 1, |a|);
    forall i | 0 <= i < size ensures s[i] == r[i] {
      assert s[i] == a[Wrap(first + i, |a|)];
      if i > 0 {
        assert r[i] == a[Wrap(f + (i - 1), |a|)];
      }
    }
  }

  /** Swapping mirrored positions of a ring swaps them in its contents. */
  lemma Mirrored<T>(a: seq<T>, first: nat, size: nat, i: nat)
    requires first < |a| && size <= |a| && i < size / 2
    ensures var p, q, s := Wrap(first + i, |a|), Wrap(first + size - 1 - i, |a|), Ring(a, first, size);
      Ring(a[p := a[q]][q := a[p]], first, size) == s[i := s[size - 1 - i]][size - 1 - i := s[i]]
  {
    var p, q, s := Wrap(first + i, |a|), Wrap(first + size - 1 - i, |a|), Ring(a, first, size);
    var a', s' := a[p := a[q]][q := a[p]], s[i := s[size - 1 - i]][size - 1 - i := s[i]];
    forall k | 0 <= k < size ensures s'[k] == a'[Wrap(first + k, |a|)] {
      if k != i && k != size - 1 - i {
        assert s'[k] == s[k];
      }
    }
    RingIs(a', first, s');
  }

  class Deque<T(0)> {
    var elements: array<T>
    var first: nat
    var last: nat
    var size: nat

    ghost predicate Valid()
      reads this
    {
      && MIN_CAPACITY <= elements.Length <= MAX_CAPACITY && IsPowerOfTwo(elements.Length)
      && first < elements.Length && size <= elements.Length && last == Wrap(first + size, elements.Length)
    }

    ghost function Contents(): (s: seq<T>)
      requires Valid()
      reads this, elements
      ensures |s| == size
    {
      Ring(elements[..], first, size)
    }

    constructor (initialCapacity: nat)
      requires MIN_CAPACITY <= initialCapacity <= MAX_CAPACITY
      ensures Valid() && Contents() == [] && fresh(elements)
    {
      var capacity := NextPowerOfTwo(initialCapacity);
      PowerAround(capacity);
      elements := new T[capacity];
      first, last, size := 0, 0, 0;
    }

    /** Doubles the capacity until it suffices and copies the elements to the front of a new buffer. */
    method EnsureCapacity(capacity: nat, available: bool) returns (ok: bool)
      requires Valid()
      modifies this`elements, this`first, this`last
      ensures Valid() && Contents() == old(Contents()) && (elements == old(elements) || fresh(elements))
      ensures ok ==> elements.Length >= capacity
      ensures ok <==> capacity <= old(elements.Length) || (available && capacity <= MAX_CAPACITY)
    {
      if elements.Length >= capacity {
        return true;
      }
      var grown := elements.Length;
      while grown < capacity
        invariant elements.Length <= grown <= MAX_CAPACITY && IsPowerOfTwo(grown)
        invariant grown == elements.Length || grown < 2 * capacity
        decreases capacity - grown
        modifies {}
      {
        CanDouble(grown, MAX_CAPACITY);
        if GROWTH_FACTOR > MAX_CAPACITY / grown {
          PowerAround(grown);
          return false;
        }
        Doubled(grown);
        grown := GROWTH_FACTOR * grown;
      }
      if !available {
        return false;
      }
      CopyTo(grown);
      ok := true;
    }

    method CopyTo(capacity: nat)
      requires Valid() && elements.Length < capacity <= MAX_CAPACITY && IsPowerOfTwo(capacity)
      modifies this`elements, this`first, this`last
      ensures Valid() && Contents() == old(Contents()) && fresh(elements) && elements.Length == capacity
    {
      hide IsPowerOfTwo;
      ghost var s := Contents();
      var buffer := new T[capacity];
      var i := 0;
      while i < size
        invariant 0 <= i <= size
        invariant forall k | 0 <= k < i :: buffer[k] == s[k]
        modifies buffer
      {
        MaskWraps(first + i, elements.Length);
        buffer[i] := elements[And(first + i, elements.Length - 1)];
        i := i + 1;
      }
      RingIs(buffer[..], 0, s);
      elements := buffer;
      first := 0;
      last := size;
    }

    method AddFirst(element: T, available: bool) returns (ok: bool)
      requires Valid()
      modifies this, elements
      ensures Valid() && (elements == old(elements) || fresh(elements))
      ensures Contents() == if ok then [element] + old(Contents()) else old(Contents())
      ensures ok <==> old(size < elements.Length) || (available && old(size) < MAX_CAPACITY)
    {
      hide And, IsPowerOfTwo, Ring;
      ok := EnsureCapacity(size + 1, available);
      if !ok {
        return;
      }
      ghost var all := elements[..];
      PushedFront(all, first, size, element);
      MaskWraps(first - 1, elements.Length);
      first := And(first - 1, elements.Length - 1);
      elements[first] := element;
      assert elements[..] == all[first := element];
      size := size + 1;
    }

    method AddLast(element: T, available: bool) returns (ok: bool)
      requires Valid()
      modifies this, elements
      ensures Valid() && (elements == old(elements) || fresh(elements))
      ensures Contents() == if ok then old(Contents()) + [element] else old(Contents())
      ensures ok <==> old(size < elements.Length) || (available && old(size) < MAX_CAPACITY)
    {
      hide And, IsPowerOfTwo, Ring;
      ok := EnsureCapacity(size + 1, available);
      if !ok {
        return;
      }
      ghost var all := elements[..];
      PushedBack(all, first, size, element);
      elements[last] := element;
      assert elements[..] == all[last := element];
      MaskWraps(last + 1, elements.Length);
      last := And(last + 1, elements.Length - 1);
      size := size + 1;
    }

    method RemoveFirst() returns (r: Result<T>)
      requires Valid()
      modifies this`first, this`size
      ensures Valid()
      ensures if old(size) == 0 then r == Err(NoSuchElement) && Contents() == old(Contents())
              else r.Ok? && [r.value] + Contents() == old(Contents())
    {
      hide And, IsPowerOfTwo, Ring;
      if size == 0 {
        return Err(NoSuchElement);
      }
      Popped(elements[..], first, size);
      r := Ok(elements[first]);
      MaskWraps(first + 1, elements.Length);
      first := And(first + 1, elements.Length - 1);
      size := size - 1;
    }

    method RemoveLast() returns (r: Result<T>)
      requires Valid()
      modifies this`last, this`size
      ensures Valid()
      ensures if old(size) == 0 then r == Err(NoSuchElement) && Contents() == old(Contents())
              else r.Ok? && Contents() + [r.value] == old(Contents())
    {
      hide And, IsPowerOfTwo, Ring;
      if size == 0 {
        return Err(NoSuchElement);
      }
      Popped(elements[..], first, size);
      MaskWraps(last - 1, elements.Length);
      var position := And(last - 1, elements.Length - 1);
      r := Ok(elements[position]);
      last := position;
      size := size - 1;
    }

    /** Swaps the elements that are `i` places from the two ends. */
    method SwapEnds(i: nat)
      requires Valid() && i < size / 2
      modifies elements
      ensures Contents() == old(Contents())[i := old(Contents())[size - 1 - i]][size - 1 - i := old(Contents())[i]]
    {
      hide And, IsPowerOfTwo, Ring;
      ghost var all := elements[..];
      Mirrored(all, first, size, i);
      MaskWraps(first + i, elements.Length);
      MaskWraps(first + size - 1 - i, elements.Length);
      var a, b := And(first + i, elements.Length - 1), And(first + size - 1 - i, elements.Length - 1);
      elements[a], elements[b] := elements[b], elements[a];
      assert elements[..] == all[a := all[b]][b := all[a]];
    }

    method Reverse()
      requires Valid()
      modifies elements
      ensures Contents() == Reversed(old(Contents()))
    {
      hide And, IsPowerOfTwo, Ring, EndsReversed;
      ghost var s := Contents();
      ReversalEnds(s);
      var i := 0;
      while i < size / 2
        invariant 0 <= i <= size / 2
        invariant Contents() == EndsReversed(s, i)
      {
        ReversalStep(s, i);
        SwapEnds(i);
        i := i + 1;
      }
    }
  }
}
