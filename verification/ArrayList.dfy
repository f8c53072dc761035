/** The array list: a buffer with spare room behind its elements, and the five sorts that work on it in place. */
module ArrayLists {
  import opened Arithmetic
  import opened ArraySorting
  import opened Lists
  import opened Ordering
  import opened Sequences
  import opened Sorting

  const MIN_CAPACITY := 10
  const MAX_CAPACITY := 1_073_741_824

  /** A growth factor as a fraction, at least 11/10. */
  datatype Growth = Growth(up: nat, down: nat) {
    predicate Valid() {
      down > 0 && 10 * up >= 11 * down
    }

    /** The factor exceeds the whole quotient of the largest capacity by the present one. */
    predicate Refuses(capacity: nat)
      requires capacity > 0
    {
      up > down * (MAX_CAPACITY / capacity)
    }

    /** The truncated product. */
    function Scaled(capacity: nat): nat
      requires down > 0
    {
      capacity * up / down
    }
  }

  /** The factor is accepted exactly when a whole multiple of the capacity, at least that many times it, is allowed. */
  lemma AcceptedMeans(growth: Growth, capacity: nat)
    requires capacity > 0 && growth.Valid()
    ensures !growth.Refuses(capacity) <==>
      exists q: nat :: q * capacity <= MAX_CAPACITY && growth.up <= q * growth.down
  {
    var top := MAX_CAPACITY / capacity;
    assert top * capacity <= MAX_CAPACITY;
    if q: nat :| q * capacity <= MAX_CAPACITY && growth.up <= q * growth.down {
      DivBounds(MAX_CAPACITY, capacity, q, MAX_CAPACITY);
      MulMono(q, top, growth.down);
    }
    if !growth.Refuses(capacity) {
      assert growth.up <= top * growth.down;
    }
  }

  /** It is accepted in particular when the capacity times one more than the factor stays within the largest. */
  lemma AcceptedBelow(growth: Growth, capacity: nat)
    requires capacity > 0 && growth.Valid()
    ensures capacity * (growth.up + growth.down) <= MAX_CAPACITY * growth.down ==> !growth.Refuses(capacity)
  {
    var up, down, q := growth.up, growth.down, MAX_CAPACITY / capacity;
    assert MAX_CAPACITY < (q + 1) * capacity;
    if up > down * q {
      MulMono(down * q + 1, up, capacity);
      MulMono(MAX_CAPACITY + 1, (q + 1) * capacity, down);
      assert (down * q + 1) * capacity == down * q * capacity + capacity;
      assert (q + 1) * capacity * down == down * q * capacity + capacity * down;
      assert capacity * (up + down) == up * capacity + capacity * down;
    }
  }

  /** The product is truncated to a whole number. */
  lemma ScaledMeans(growth: Growth, capacity: nat)
    requires growth.Valid()
    ensures var r := growth.Scaled(capacity); r * growth.down <= capacity * growth.up < (r + 1) * growth.down
  {
  }

  /** The nearest capacity that is allowed. */
  function Allowed(capacity: nat): (r: nat)
    ensures MIN_CAPACITY <= r <= MAX_CAPACITY && (MIN_CAPACITY <= capacity <= MAX_CAPACITY ==> r == capacity)
  {
    if capacity < MIN_CAPACITY then MIN_CAPACITY else if capacity > MAX_CAPACITY then MAX_CAPACITY else capacity
  }

  /** As long as the factor is not refused the capacity grows by at least one and stays in range. */
  lemma Grows(growth: Growth, capacity: nat)
    requires growth.Valid() && MIN_CAPACITY <= capacity <= MAX_CAPACITY
    requires !growth.Refuses(capacity)
    ensures capacity < growth.Scaled(capacity) <= MAX_CAPACITY
  {
    var up, down, q := growth.up, growth.down, MAX_CAPACITY / capacity;
    MulMono(11 * down, 10 * up, capacity);
    MulMono(MIN_CAPACITY, capacity, down);
    assert 10 * (capacity * up) >= 10 * (capacity * down) + 10 * down;
    assert (capacity + 1) * down == capacity * down + down;
    MulMono(up, down * q, capacity);
    MulMono(capacity * q, MAX_CAPACITY, down);
    assert capacity * up <= MAX_CAPACITY * down by {
      assert up * capacity <= (down * q) * capacity;
      assert (down * q) * capacity == (capacity * q) * down;
    }
    DivBounds(capacity * up, down, capacity + 1, MAX_CAPACITY);
  }

  lemma IsInserted<T>(s: seq<T>, r: seq<T>, i: nat, x: T)
    requires i <= |s| && |r| == |s| + 1 && r[i] == x
    requires forall q | 0 <= q < i :: r[q] == s[q]
    requires forall q | i <= q < |s| :: r[q + 1] == s[q]
    ensures r == Inserted(s, i, x)
  {
    forall q | i < q < |r| ensures r[q] == s[q - 1] {
      assert r[q - 1 + 1] == s[q - 1];
    }
  }

  lemma RangeClosed<T>(s: seq<T>, r: seq<T>, start: nat, end: nat)
    requires start <= end <= |s| == |r|
    requires forall q | 0 <= q < start :: r[q] == s[q]
    requires forall q | start <= q < |s| - (end - start) :: r[q] == s[q + (end - start)]
    ensures r[..|s| - (end - start)] == s[..start] + s[end..]
  {
  }

  /** The capacity beyond which a list cannot grow: multiplied again and again until the factor is refused. */
  function Limit(growth: Growth, capacity: nat): (r: nat)
    requires growth.Valid() && MIN_CAPACITY <= capacity <= MAX_CAPACITY
    ensures capacity <= r <= MAX_CAPACITY && growth.Refuses(r)
    ensures capacity < r <==> !growth.Refuses(capacity)
    ensures r * (growth.up + growth.down) > MAX_CAPACITY * growth.down
    decreases MAX_CAPACITY - capacity
  {
    AcceptedBelow(growth, capacity);
    if growth.Refuses(capacity) then capacity
    else
      Grows(growth, capacity);
      Limit(growth, growth.Scaled(capacity))
  }

  /** Multiplies the capacity until it suffices, which works up to the limit, and no further than needed. */
  method GrownCapacity(current: nat, needed: nat, growth: Growth) returns (ok: bool, grown: nat)
    requires growth.Valid() && MIN_CAPACITY <= current <= MAX_CAPACITY && current < needed
    ensures ok <==> needed <= Limit(growth, current)
    ensures ok ==> needed <= grown <= MAX_CAPACITY && Limit(growth, grown) == Limit(growth, current)
    ensures ok ==> exists c | current <= c < needed :: grown == growth.Scaled(c)
  {
    hide Growth.Refuses, Growth.Scaled;
    grown := current;
    ghost var before := current;
    while grown < needed
      invariant current <= grown <= MAX_CAPACITY && Limit(growth, grown) == Limit(growth, current)
      invariant grown > current ==> current <= before < needed && grown == growth.Scaled(before)
      decreases needed - grown
    {
      if growth.Refuses(grown) {
        return false, grown;
      }
      Grows(growth, grown);
      before := grown;
      grown := growth.Scaled(grown);
    }
    ok := true;
  }

  class ArrayList<T(!new, 0)> {
    var elements: array<T>
    var size: nat
    var modificationCount: nat
    const growth: Growth

    ghost predicate Valid()
      reads this
    {
      growth.Valid() && size <= elements.Length && MIN_CAPACITY <= elements.Length <= MAX_CAPACITY
    }

    ghost function Contents(): (s: seq<T>)
      requires Valid()
      reads this, elements
      ensures |s| == size
    {
      elements[..size]
    }

    constructor (capacity: nat, growth: Growth)
      requires growth.Valid() && MIN_CAPACITY <= capacity <= MAX_CAPACITY
      ensures Valid() && Contents() == [] && fresh(elements) && elements.Length == capacity && this.growth == growth
    {
      this.growth := growth;
      size, modificationCount := 0, 0;
      elements := new T[capacity];
    }

    // ---------- Capacity ----------

    /** Moves the elements to a buffer of the new capacity; `available` says whether there is memory. */
    method Resize(capacity: nat, available: bool) returns (ok: bool)
      requires Valid() && size <= capacity
      modifies this`elements
      ensures Valid() && Contents() == old(Contents()) && ok == available
      ensures if ok then fresh(elements) else elements == old(elements)
      ensures ok ==> elements.Length == Allowed(capacity)
    {
      var bounded := if capacity < MIN_CAPACITY then MIN_CAPACITY else capacity;
      bounded := if bounded > MAX_CAPACITY then MAX_CAPACITY else bounded;
      if !available {
        return false;
      }
      var buffer := new T[bounded];
      forall i | 0 <= i < size {
        buffer[i] := elements[i];
      }
      elements := buffer;
      ok := true;
    }

    /** How many elements the list can come to hold. */
    ghost function MostElements(): (most: nat)
      requires Valid()
      reads this
      ensures elements.Length <= most <= MAX_CAPACITY
      ensures most * (growth.up + growth.down) > MAX_CAPACITY * growth.down
    {
      Limit(growth, elements.Length)
    }

    /** Multiplies the capacity until it suffices; without success the list keeps its buffer. */
    method EnsureCapacity(capacity: nat, available: bool) returns (ok: bool)
      requires Valid()
      modifies this`elements
      ensures Valid() && Contents() == old(Contents()) && MostElements() == old(MostElements())
      ensures ok <==> capacity <= old(elements.Length) || (available && capacity <= old(MostElements()))
      ensures ok ==> capacity <= elements.Length
      ensures if ok && capacity > old(elements.Length) then fresh(elements) else elements == old(elements)
      ensures elements != old(elements) ==>
        exists c | old(elements.Length) <= c < capacity :: elements.Length == growth.Scaled(c)
    {
      hide Growth.Refuses, Growth.Scaled, Limit;
      if elements.Length >= capacity {
        return true;
      }
      var grown: nat;
      ok, grown := GrownCapacity(elements.Length, capacity, growth);
      if ok {
        ok := Resize(grown, available);
      }
    }

    // ---------- Adding and removing ----------

    /** Whether one more element can be had: there is a spare place, or memory for a buffer and a factor not refused. */
    predicate HasRoom(available: bool)
      requires Valid()
      reads this
    {
      size < elements.Length || (available && !growth.Refuses(size))
    }

    lemma RoomBelowLimit(available: bool)
      requires Valid()
      ensures HasRoom(available) <==> size < elements.Length || (available && size < MostElements())
    {
    }

    method Add(index: int, element: T, available: bool) returns (r: Result<()>)
      requires Valid()
      modifies this, elements
      ensures Valid() && (elements == old(elements) || fresh(elements)) && MostElements() == old(MostElements())
      ensures r.Ok? <==>
        0 <= index <= old(size) && old(size < elements.Length || (available && !growth.Refuses(size)))
      ensures old(size) * (growth.up + growth.down) <= MAX_CAPACITY * growth.down ==>
        0 <= index <= old(size) && available ==> r.Ok?
      ensures r.Ok? ==>
        Contents() == Inserted(old(Contents()), index, element) && modificationCount == old(modificationCount) + 1
      ensures r.Err? ==> r.error == if 0 <= index <= size then OutOfMemory else IndexOutOfBounds
      ensures r.Err? ==> Contents() == old(Contents()) && modificationCount == old(modificationCount)
      ensures elements != old(elements) ==> r.Ok? && old(size == elements.Length)
    {
      if index < 0 || index > size {
        return Err(IndexOutOfBounds);
      }
      hide Growth.Refuses, Growth.Scaled, Limit;
      if size > 0 {
        AcceptedBelow(growth, size);
      }
      var ok := EnsureCapacity(size + 1, available);
      if !ok {
        return Err(OutOfMemory);
      }
      OpenGap(index);
      elements[index] := element;
      size := size + 1;
      IsInserted(old(Contents()), Contents(), index, element);
      modificationCount := modificationCount + 1;
      r := Ok(());
    }

    /** Moves the elements from `index` on up by one. */
    method OpenGap(index: nat)
      requires Valid() && index <= size < elements.Length
      modifies elements
      ensures forall q | 0 <= q < index :: elements[q] == old(elements[q])
      ensures forall q | index <= q < size :: elements[q + 1] == old(elements[q])
    {
      var i := size;
      while i > index
        invariant index <= i <= size
        invariant forall q | 0 <= q < i :: elements[q] == old(elements[q])
        invariant forall q | i <= q < size :: elements[q + 1] == old(elements[q])
      {
        elements[i] := elements[i - 1];
        i := i - 1;
      }
    }

    method Remove(index: int) returns (r: Result<T>)
      requires Valid()
      modifies this`size, this`modificationCount, elements
      ensures Valid()
      ensures if 0 <= index < old(size) then
          && r == Ok(old(Contents())[index])
          && Contents() == Without(old(Contents()), index) && modificationCount == old(modificationCount) + 1
        else
          && r == Err(IndexOutOfBounds)
          && Contents() == old(Contents()) && modificationCount == old(modificationCount)
    {
      if index < 0 || index >= size {
        return Err(IndexOutOfBounds);
      }
      r := Ok(elements[index]);
      var i := index;
      while i < size - 1
        modifies elements
        invariant index <= i < size
        invariant forall q | 0 <= q < index || i < q < size :: elements[q] == old(elements[q])
        invariant forall q | index <= q < i :: elements[q] == old(elements[q + 1])
      {
        elements[i] := elements[i + 1];
        i := i + 1;
      }
      size := size - 1;
      modificationCount := modificationCount + 1;
    }

    method RemoveRange(start: int, end: int) returns (r: Result<nat>, ghost destroyed: seq<T>)
      requires Valid()
      modifies this`size, this`modificationCount, elements
      ensures Valid()
      ensures if 0 <= start <= end <= old(size) then
          && r == Ok(end - start) && destroyed == old(Contents())[start..end]
          && Contents() == old(Contents())[..start] + old(Contents())[end..]
          && modificationCount == old(modificationCount) + 1
        else
          && r == Err(IndexOutOfBounds) && destroyed == []
          && Contents() == old(Contents()) && modificationCount == old(modificationCount)
    {
      if start < 0 || end > size || start > end {
        return Err(IndexOutOfBounds), [];
      }
      destroyed := CloseRange(start, end);
      RangeClosed(old(Contents()), Contents(), start, end);
      size := size - (end - start);
      modificationCount := modificationCount + 1;
      r := Ok(end - start);
    }

    /**
       Destroys the elements of the range and closes the gap in one pass, reading each element before it is
       overwritten.
     */
    method CloseRange(start: nat, end: nat) returns (ghost destroyed: seq<T>)
      requires Valid() && start <= end <= size
      modifies elements
      ensures forall q | 0 <= q < start :: elements[q] == old(elements[q])
      ensures forall q | start <= q < size - (end - start) :: elements[q] == old(elements[q + (end - start)])
      ensures destroyed == old(Contents())[start..end]
    {
      destroyed := [];
      var count := end - start;
      var i := start;
      ghost var moved := 0;
      while i < size
        invariant start <= i <= size && (i < end ==> moved == 0) && (i >= end ==> moved == i - end)
        invariant forall q | 0 <= q < start :: elements[q] == old(elements[q])
        invariant forall q | start <= q < start + moved :: elements[q] == old(elements[q + count])
        invariant forall q | start + moved <= q < size :: elements[q] == old(elements[q])
        invariant |destroyed| == i - moved - start
          && forall q | 0 <= q < |destroyed| :: destroyed[q] == old(elements[start + q])
      {
        if i < end {
          destroyed := destroyed + [elements[i]];
        } else {
          elements[i - count] := elements[i];
          moved := moved + 1;
        }
        i := i + 1;
      }
      assert destroyed == old(Contents())[start..end];
    }

    // ---------- Rotation ----------

    /** Reverses positions `start` to `end` in place. */
    method Reverse(start: int, end: int)
      requires Valid() && 0 <= start <= end + 1 <= size
      modifies elements
      ensures Contents() == ReversedRange(old(Contents()), start, end)
    {
      var low, high := start, end;
      while low < high
        invariant start <= low && high <= end && low + high == start + end && low <= high + 2
        invariant forall q | 0 <= q < size && !(start <= q < low || high < q <= end) :: elements[q] == old(elements[q])
        invariant forall q | start <= q < low || high < q <= end :: elements[q] == old(elements[start + end - q])
        decreases high - low
      {
        elements[low], elements[high] := elements[high], elements[low];
        low, high := low + 1, high - 1;
      }
    }

    /** Three reversals make a rotation. */
    method Rotate(distance: int)
      requires Valid()
      modifies elements
      ensures Contents() == Rotated(old(Contents()), distance)
    {
      if size <= 1 {
        NoRotation(Contents(), distance);
        return;
      }
      hide Remainder, Rotated;
      Normalised(distance, size);
      var d := Remainder(distance, size);
      if d < 0 {
        d := d + size;
      }
      RotatedBy(Contents(), distance, d);
      if d == 0 {
        return;
      }
      ReverseThrice(d);
    }

    method ReverseThrice(d: nat)
      requires Valid() && d < size
      modifies elements
      ensures Contents() == old(Contents())[size - d..] + old(Contents())[..size - d]
    {
      hide ReversedRange;
      ghost var was := Contents();
      Reverse(0, size - 1);
      Reverse(0, d - 1);
      Reverse(d, size - 1);
      ThreeReversals(was, d);
    }

    // ---------- The sorts ----------

    method SwapElements(i: nat, j: nat)
      requires Valid() && i < size && j < size
      modifies elements
      ensures Contents() == Swap(old(Contents()), i, j)
    {
      elements[i], elements[j] := elements[j], elements[i];
    }

    method BubbleSort(cmp: Comparator<T>)
      requires Valid() && size >= 2
      modifies elements
      ensures Contents() == StableSort(old(Contents()), cmp)
    {
      hide IsComparator, StableSort, Stable, Swap, Bubbled;
      ghost var was := Contents();
      BubbledAtFirst(was, cmp);
      var i := 0;
      while i < size - 1
        invariant 0 <= i <= size - 1
        invariant Bubbled(Contents(), i, 0, cmp) && Stable(was, Contents(), cmp)
        invariant i == size - 1 ==> Sorted(Contents(), cmp)
      {
        var j := 0;
        while j < size - i - 1
          invariant 0 <= j <= size - i - 1
          invariant Bubbled(Contents(), i, j, cmp) && Stable(was, Contents(), cmp)
        {
          ghost var s := Contents();
          BubbleStep(s, i, j, cmp);
          if cmp(elements[j], elements[j + 1]) > 0 {
            SwapElements(j, j + 1);
            StableTrans(was, s, Contents(), cmp);
          }
          j := j + 1;
        }
        BubbledNext(Contents(), i, cmp);
        i := i + 1;
      }
      IsStableSort(was, Contents(), cmp);
    }

    method SelectionSort(cmp: Comparator<T>)
      requires Valid() && size >= 2
      modifies elements
      ensures Contents() == SelectionFrom(old(Contents()), 0, cmp)
    {
      hide IsComparator, Swap;
      ghost var was := Contents();
      var i := 0;
      while i < size - 1
        invariant 0 <= i <= size - 1
        invariant SelectionFrom(was, 0, cmp) == SelectionFrom(Contents(), i, cmp)
      {
        var least := i;
        var j := i + 1;
        while j < size
          invariant i < j <= size && i <= least < j
          invariant FirstMin(Contents(), i + 1, i, cmp) == FirstMin(Contents(), j, least, cmp)
        {
          if cmp(elements[j], elements[least]) < 0 {
            least := j;
          }
          j := j + 1;
        }
        SwapElements(least, i);
        i := i + 1;
      }
    }

    method InsertionSort(cmp: Comparator<T>)
      requires Valid() && size >= 2
      modifies elements
      ensures Contents() == StableSort(old(Contents()), cmp)
    {
      hide IsComparator, Growth.Valid, StableSort;
      ghost var was := Contents();
      SingleSorted(was[..1], cmp);
      var i := 1;
      while i < size
        modifies elements
        invariant 1 <= i <= size
        invariant Contents() == StableSort(was[..i], cmp) + was[i..] && |StableSort(was[..i], cmp)| == i
      {
        InsertNext(i, cmp, was);
        i := i + 1;
      }
      assert was[..size] == was;
    }

    /** One round of insertion sort: the element at `i` moves down behind the last one not greater. */
    method InsertNext(i: nat, cmp: Comparator<T>, ghost was: seq<T>)
      requires Valid() && 1 <= i < size && |was| == size
      requires Contents() == StableSort(was[..i], cmp) + was[i..] && |StableSort(was[..i], cmp)| == i
      modifies elements
      ensures Contents() == StableSort(was[..i + 1], cmp) + was[i + 1..] && |StableSort(was[..i + 1], cmp)| == i + 1
    {
      hide IsComparator, StableSort;
      ghost var s := Contents();
      var element := elements[i];
      var j := ShiftGreater(element, i, cmp);
      elements[j] := element;
      Shifted(s, Contents(), i, j);
      InsertionStep(was, s, Contents(), i, j, cmp);
    }

    /** Moves the elements before `i` that are greater than `element` up by one; `k` is the gap. */
    method ShiftGreater(element: T, i: nat, cmp: Comparator<T>) returns (k: nat)
      requires Valid() && i < size
      modifies elements
      ensures k <= i && (k > 0 ==> cmp(old(elements[k - 1]), element) <= 0)
      ensures forall q | k <= q < i :: cmp(old(elements[q]), element) > 0
      ensures forall q | 0 <= q < k || i < q < size :: elements[q] == old(elements[q])
      ensures forall q | k < q <= i :: elements[q] == old(elements[q - 1])
    {
      hide IsComparator, Growth.Valid;
      var j: int := i - 1;
      while j >= 0 && cmp(elements[j], element) > 0
        modifies elements
        invariant -1 <= j < i
        invariant forall q | 0 <= q <= j || i < q < size :: elements[q] == old(elements[q])
        invariant forall q | j + 1 < q <= i :: elements[q] == old(elements[q - 1])
        invariant forall q | j < q < i :: cmp(old(elements[q]), element) > 0
      {
        elements[j + 1] := elements[j];
        j := j - 1;
      }
      k := j + 1;
    }

    /** Merges two neighbouring ranges; `available` says whether there is memory for the temporary arrays. */
    method Merge(start: nat, middle: nat, end: nat, cmp: Comparator<T>, available: bool) returns (ok: bool)
      requires Valid() && start <= middle < end < size
      modifies elements
      ensures ok == available && (!ok ==> Contents() == old(Contents()))
      ensures ok ==> Contents() == Replaced(old(Contents()), start, end,
        Sorting.Merge(old(Contents())[start..middle + 1], old(Contents())[middle + 1..end + 1], cmp))
    {
      hide IsComparator, Sorting.Merge;
      if !available {
        return false;
      }
      var left, right := CopyHalves(start, middle, end);
      MergeLoop(left, right, start, middle, end, cmp);
      ok := true;
    }

    method CopyHalves(start: nat, middle: nat, end: nat) returns (left: array<T>, right: array<T>)
      requires Valid() && start <= middle < end < size
      ensures fresh(left) && fresh(right)
      ensures left[..] == Contents()[start..middle + 1] && right[..] == Contents()[middle + 1..end + 1]
    {
      left := new T[middle + 1 - start];
      right := new T[end - middle];
      CopyOut(left, start);
      CopyOut(right, middle + 1);
    }

    method CopyOut(to: array<T>, start: nat)
      requires Valid() && start + to.Length <= size && to != elements
      modifies to
      ensures to[..] == Contents()[start..start + to.Length]
    {
      var i := 0;
      while i < to.Length
        invariant 0 <= i <= to.Length
        invariant forall q | 0 <= q < i :: to[q] == elements[start + q]
      {
        to[i] := elements[start + i];
        i := i + 1;
      }
    }

    /** Writes the merge of the two buffers over positions `start` to `end`. */
    method MergeLoop(left: array<T>, right: array<T>, start: nat, middle: nat, end: nat, cmp: Comparator<T>)
      requires Valid() && start <= middle < end < size && left != elements && right != elements
      requires left.Length == middle + 1 - start && right.Length == end - middle
      modifies elements
      ensures Contents() ==
        old(Contents()[..start]) + Sorting.Merge(left[..], right[..], cmp) + old(Contents()[end + 1..])
    {
      hide IsComparator, Sorting.Merge, Merging;
      ghost var was := Contents();
      ghost var all := Sorting.Merge(left[..], right[..], cmp);
      assert left[0..] == left[..] && right[0..] == right[..];
      MergeStart(was, left[..], right[..], start, end, cmp);
      var l, r, index := 0, 0, start;
      while l < left.Length && r < right.Length
        invariant 0 <= l <= left.Length && 0 <= r <= right.Length && index == start + l + r
        invariant Merging(was, Contents(), all, left[l..], right[r..], start, index, end, cmp)
      {
        if cmp(left[l], right[r]) <= 0 {
          MergeStep(was, Contents(), all, left[l..], right[r..], start, index, end, cmp);
          elements[index] := left[l];
          l := l + 1;
        } else {
          MergeStep(was, Contents(), all, left[l..], right[r..], start, index, end, cmp);
          elements[index] := right[r];
          r := r + 1;
        }
        index := index + 1;
      }
      while l < left.Length
        invariant 0 <= l <= left.Length && r <= right.Length && index == start + l + r
        invariant l == left.Length || r == right.Length
        invariant Merging(was, Contents(), all, left[l..], right[r..], start, index, end, cmp)
      {
        MergeStep(was, Contents(), all, left[l..], right[r..], start, index, end, cmp);
        elements[index] := left[l];
        l := l + 1;
        index := index + 1;
      }
      while r < right.Length
        invariant l == left.Length && r <= right.Length && index == start + l + r
        invariant Merging(was, Contents(), all, left[l..], right[r..], start, index, end, cmp)
      {
        MergeStep(was, Contents(), all, left[l..], right[r..], start, index, end, cmp);
        elements[index] := right[r];
        r := r + 1;
        index := index + 1;
      }
      assert left[l..] == [] && right[r..] == [];
      MergeDone(was, Contents(), all, start, index, end, cmp);
    }

    method MergeSort(start: nat, end: nat, cmp: Comparator<T>, memory: (int, int) -> bool) returns (ok: bool)
      requires Valid() && start <= end < size
      modifies elements
      ensures Contents() ==
        Replaced(old(Contents()), start, end, MergedBy(old(Contents())[start..end + 1], start, cmp, memory))
      ensures ok <==> Plenty(start, end + 1 - start, memory)
      decreases end - start
    {
      hide IsComparator, Sorting.Merge, Replaced, MergedBy, Plenty;
      ghost var s := Contents();
      ok := true;
      if start < end {
        var middle := start + (end - start) / 2;
        MergedRange(s, start, middle, end, cmp, memory);
        ReplacedHalves(s, start, middle, end, MergedBy(s[start..middle + 1], start, cmp, memory),
                       MergedBy(s[middle + 1..end + 1], middle + 1, cmp, memory),
                       MergedBy(s[start..end + 1], start, cmp, memory));
        var okLeft := MergeSort(start, middle, cmp, memory);
        var okRight := MergeSort(middle + 1, end, cmp, memory);
        var okMerge := Merge(start, middle, end, cmp, memory(start, end));
        ok := okLeft && okRight && okMerge;
      } else {
        MergedSingle(s[start..end + 1], start, cmp, memory);
        ReplacedSame(s, start, end);
        PlentyOfOne(start, memory);
      }
    }

    method Partition(start: nat, end: nat, cmp: Comparator<T>) returns (pivot: nat)
      requires Valid() && start <= end < size
      modifies elements
      ensures (Contents(), pivot as int) == PartitionFrom(old(Contents()), start, start - 1, end, cmp)
    {
      hide IsComparator, Swap;
      ghost var was := Contents();
      var p: int, i := start - 1, start;
      while i < end
        invariant start <= i <= end && start - 1 <= p < i
        invariant PartitionFrom(was, start, start - 1, end, cmp) == PartitionFrom(Contents(), i, p, end, cmp)
      {
        if cmp(elements[i], elements[end]) <= 0 {
          p := p + 1;
          SwapElements(i, p);
        }
        i := i + 1;
      }
      SwapElements(p + 1, end);
      pivot := p + 1;
    }

    method QuickSort(start: int, end: int, cmp: Comparator<T>)
      requires Valid() && 0 <= start <= end + 1 <= size
      modifies elements
      ensures Contents() == QuickFrom(old(Contents()), start, end, cmp)
      decreases end - start
    {
      hide IsComparator, PartitionFrom;
      if start < end {
        var pivot: int := Partition(start, end, cmp);
        QuickSort(start, pivot - 1, cmp);
        QuickSort(pivot + 1, end, cmp);
      }
    }

    /**
       Sorts by the chosen algorithm. Only merge sort allocates, and the result is ascending exactly when
       the merges that found no memory were not needed; the elements are all there in any case.
     */
    method Sort(cmp: Comparator<T>, algorithm: Algorithm, memory: (int, int) -> bool) returns (ok: bool)
      requires Valid()
      modifies elements
      ensures multiset(Contents()) == multiset(old(Contents()))
      ensures ok <==> algorithm != Algorithm.MergeSort || Plenty(0, old(size), memory)
      ensures Sorted(Contents(), cmp) <==> algorithm != Algorithm.MergeSort || Harmless(old(Contents()), 0, cmp, memory)
      ensures ok || Sorted(Contents(), cmp) ==> Contents() == SortBy(algorithm, old(Contents()), cmp)
      ensures algorithm == Algorithm.MergeSort && Sorted(old(Contents()), cmp) ==> Contents() == old(Contents())
    {
      hide IsComparator, QuickFrom, SelectionFrom, StableSort, MergedBy, Harmless, Sorted, Plenty, Replaced;
      ghost var was := Contents();
      EveryAlgorithmSorts(algorithm, was, cmp);
      MergeSortOutcome(was, cmp, memory);
      ok := true;
      if size < 2 {
        ShortList(algorithm, was, cmp);
        ShortMerge(was, cmp, memory);
        return;
      }
      match algorithm
      case BubbleSort => BubbleSort(cmp);
      case InsertionSort => InsertionSort(cmp);
      case SelectionSort => SelectionSort(cmp);
      case MergeSort =>
        ok := MergeSort(0, size - 1, cmp, memory);
        ReplacedAll(was, MergedBy(was, 0, cmp, memory));
      case QuickSort => QuickSort(0, size - 1, cmp);
    }
  }

  class ArrayIterator<T(!new, 0)> {
    const list: ArrayList<T>
    var cursor: int
    var lastReturned: int
    var modificationCount: nat

    ghost predicate Valid()
      reads this, list, list.elements
    {
      && list.Valid() && modificationCount == list.modificationCount && Ready(State())
    }

    ghost function State(): Cursor<T>
      requires list.Valid()
      reads this, list, list.elements
    {
      Cursor(list.Contents(), cursor, lastReturned)
    }

    constructor (list: ArrayList<T>, position: nat)
      requires list.Valid() && position <= list.size
      ensures Valid() && this.list == list && State() == Cursor(list.Contents(), position, -1)
    {
      this.list := list;
      cursor, lastReturned, modificationCount := position, -1, list.modificationCount;
    }

    /** The iterator stands behind the list, where a failed addition at the end has left it. */
    ghost predicate Strayed()
      reads this, list, list.elements
    {
      list.Valid() && modificationCount == list.modificationCount && Astray(State())
    }

    /**
       One command. When the list has been modified behind the iterator's back only `Reset` works. Otherwise
       the outcome is that of the cursor machine, but for an `Add` to a list without room: there the cursor
       moves on, and it leaves the list when it was at the end. Behind the list every command but `Previous`,
       which would read there, can still be given.
     */
    method Do(command: Command<T>, available: bool) returns (answer: Answer<T>)
      requires list.Valid()
      requires modificationCount == list.modificationCount ==> Valid() || (Strayed() && !command.Previous?)
      modifies this, list, list.elements
      ensures list.Valid() && (list.elements == old(list.elements) || fresh(list.elements))
      ensures list.elements != old(list.elements) ==>
        command.Add? && old(list.size == list.elements.Length && list.HasRoom(available))
      ensures list.MostElements() == old(list.MostElements())
      ensures old(Valid()) ==>
        && modificationCount == list.modificationCount
        && (State(), answer) == ArrayStep(old(State()), command, old(list.HasRoom(available)))
        && ((State(), answer) == Step(old(State()), command, old(list.HasRoom(available)))
            <==> !(command.Add? && !old(list.HasRoom(available))))
        && (if command.Add? && !old(list.HasRoom(available)) && old(cursor == list.size) then Strayed() else Valid())
      ensures old(Valid()) && command.Add? && !old(list.HasRoom(available)) ==>
        && answer == Failed(OutOfMemory) && list.Contents() == old(list.Contents())
        && cursor == old(cursor) + 1 && lastReturned == -1
      ensures old(Strayed()) ==>
        && (State(), answer) == AstrayStep(old(State()), command)
        && (if command.Reset? then Valid() else Strayed() && answer.Failed?) && list.Contents() == old(list.Contents())
      ensures old(modificationCount != list.modificationCount) ==>
        if command.Reset? then Valid() && State() == Cursor(old(list.Contents()), 0, -1)
        else answer == Failed(ConcurrentModification) && State() == old(State())
    {
      hide Growth.Refuses, Growth.Valid, Limit, Step, ArrayStep, AstrayStep;
      if !command.Reset? && modificationCount != list.modificationCount {
        return Failed(ConcurrentModification);
      }
      if modificationCount != list.modificationCount {
        cursor, lastReturned, modificationCount := 0, -1, list.modificationCount;
        answer := Done;
      } else if cursor <= list.size {
        IteratorsPart(State(), command, list.HasRoom(available));
        StepsStray(State(), command);
        answer := DoCommand(command, available);
      } else {
        answer := DoStrayed(command, available);
      }
    }

    method DoStrayed(command: Command<T>, available: bool) returns (answer: Answer<T>)
      requires Strayed() && !command.Previous?
      modifies this, list, list.elements
      ensures list.Valid() && list.elements == old(list.elements) && modificationCount == list.modificationCount
      ensures (State(), answer) == AstrayStep(old(State()), command)
    {
      hide Growth.Refuses, Growth.Valid, Limit;
      match command
      case Next =>
        answer := Failed(NoSuchElement);
      case Add(x) =>
        var r := list.Add(cursor, x, available);
        answer := Failed(r.error);
        cursor, lastReturned, modificationCount := cursor + 1, -1, list.modificationCount;
      case Set(_) =>
        answer := Failed(IllegalState);
      case Remove =>
        answer := Failed(IllegalState);
      case Reset =>
        cursor, lastReturned, modificationCount := 0, -1, list.modificationCount;
        answer := Done;
    }

    method DoCommand(command: Command<T>, available: bool) returns (answer: Answer<T>)
      requires Valid()
      modifies this, list, list.elements
      ensures list.Valid() && (list.elements == old(list.elements) || fresh(list.elements))
      ensures list.elements != old(list.elements) ==>
        command.Add? && old(list.size == list.elements.Length && list.HasRoom(available))
      ensures list.MostElements() == old(list.MostElements()) && modificationCount == list.modificationCount
      ensures (State(), answer) == ArrayStep(old(State()), command, old(list.HasRoom(available)))
    {
      hide Growth.Refuses, Growth.Valid, Limit;
      match command
      case Next =>
        if cursor < list.size {
          lastReturned := cursor;
          cursor := cursor + 1;
          answer := Element(list.elements[lastReturned]);
        } else {
          answer := Failed(NoSuchElement);
        }
      case Previous =>
        if cursor > 0 {
          cursor := cursor - 1;
          lastReturned := cursor;
          answer := Element(list.elements[cursor]);
        } else {
          answer := Failed(NoSuchElement);
        }
      case Add(x) =>
        answer := DoAdd(x, available);
      case Set(x) =>
        answer := DoSet(x);
      case Remove =>
        answer := DoRemove();
      case Reset =>
        cursor, lastReturned, modificationCount := 0, -1, list.modificationCount;
        answer := Done;
    }

    method DoAdd(x: T, available: bool) returns (answer: Answer<T>)
      requires Valid()
      modifies this, list, list.elements
      ensures list.Valid() && (list.elements == old(list.elements) || fresh(list.elements))
      ensures list.elements != old(list.elements) ==> old(list.size == list.elements.Length && list.HasRoom(available))
      ensures list.MostElements() == old(list.MostElements()) && modificationCount == list.modificationCount
      ensures (State(), answer) == ArrayStep(old(State()), Add(x), old(list.HasRoom(available)))
    {
      hide Growth.Refuses, Limit;
      var r := list.Add(cursor, x, available);
      answer := if r.Ok? then Done else Failed(r.error);
      cursor, lastReturned, modificationCount := cursor + 1, -1, list.modificationCount;
    }

    method DoSet(x: T) returns (answer: Answer<T>)
      requires Valid()
      modifies list.elements
      ensures Valid() && (State(), answer) == Step(old(State()), Set(x), true)
    {
      if lastReturned < 0 {
        return Failed(IllegalState);
      }
      list.elements[lastReturned] := x;
      answer := Done;
    }

    method DoRemove() returns (answer: Answer<T>)
      requires Valid()
      modifies this, list`size, list`modificationCount, list.elements
      ensures Valid() && (State(), answer) == Step(old(State()), Remove, true)
    {
      if lastReturned < 0 {
        return Failed(IllegalState);
      }
      var _ := list.Remove(lastReturned);
      if cursor > lastReturned {
        cursor := cursor - 1;
      }
      lastReturned, modificationCount := -1, list.modificationCount;
      answer := Done;
    }
  }

  /** A full list of ten whose iterator has come to the end. */
  method FullList<T(!new, 0)>(x: T) returns (it: ArrayIterator<T>)
    ensures fresh(it) && fresh(it.list) && fresh(it.list.elements) && it.Valid()
    ensures it.list.size == it.list.elements.Length == it.cursor
  {
    hide Limit, Growth.Refuses, Growth.Scaled, Inserted;
    var list := new ArrayList<T>(MIN_CAPACITY, Growth(3, 2));
    while list.size < MIN_CAPACITY
      invariant list.Valid() && list.size <= list.elements.Length == MIN_CAPACITY && fresh(list.elements)
    {
      var _ := list.Add(list.size, x, true);
    }
    it := new ArrayIterator<T>(list, list.size);
  }

  /** There an `Add` without memory takes the cursor out of the list, where there seems to be a previous element. */
  method CursorLeavesList<T(!new, 0)>(x: T) returns (it: ArrayIterator<T>, answer: Answer<T>)
    ensures it.list.Valid() && answer == Failed(OutOfMemory)
    ensures it.modificationCount == it.list.modificationCount
    ensures it.cursor == it.list.size + 1 == it.list.elements.Length + 1 && it.Strayed()
  {
    hide Limit, Growth.Refuses, Growth.Scaled, Step;
    it := FullList(x);
    answer := it.Do(Add(x), false);
  }
}
