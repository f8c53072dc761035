/**
 The two unstable array sorts as functions on sequences, and what each step of the in-place
 sorts does to the contents.
 */
module ArraySorting {
  import opened Ordering
  import opened Sorting

  function Swap<T>(s: seq<T>, i: int, j: int): (r: seq<T>)
    requires 0 <= i < |s| && 0 <= j < |s|
    ensures |r| == |s|
  {
    s[i := s[j]][j := s[i]]
  }

  // ---------- Bubble sort ----------

  /** The last `i` positions are final, and position `j` holds a greatest element of those up to `j`. */
  ghost predicate Bubbled<T(!new)>(s: seq<T>, i: int, j: int, cmp: Comparator<T>) {
    && 0 <= i <= |s| && 0 <= j < |s|
    && (forall p, q | 0 <= p < q < |s| && q >= |s| - i :: cmp(s[p], s[q]) <= 0)
    && (forall p | 0 <= p < j :: cmp(s[p], s[j]) <= 0)
  }

  lemma {:induction false} SwapNeighbours<T(!new)>(s: seq<T>, j: nat, x: T, cmp: Comparator<T>)
    requires j + 1 < |s| && cmp(s[j], s[j + 1]) > 0
    ensures Class(s, x, cmp) == Class(Swap(s, j, j + 1), x, cmp)
  {
    hide IsComparator;
    if j == 0 {
      Laws(cmp, s[0], x, s[1]);
      Laws(cmp, s[1], x, s[0]);
      assert s == [s[0]] + ([s[1]] + s[2..]) && Swap(s, 0, 1) == [s[1]] + ([s[0]] + s[2..]);
      ClassCons(s[0], [s[1]] + s[2..], x, cmp);
      ClassCons(s[1], s[2..], x, cmp);
      ClassCons(s[1], [s[0]] + s[2..], x, cmp);
      ClassCons(s[0], s[2..], x, cmp);
    } else {
      SwapNeighbours(s[1..], j - 1, x, cmp);
      assert Swap(s, j, j + 1)[1..] == Swap(s[1..], j - 1, j);
    }
  }

  lemma BubbleStep<T(!new)>(s: seq<T>, i: nat, j: nat, cmp: Comparator<T>)
    requires Bubbled(s, i, j, cmp) && j + 1 < |s| - i
    ensures cmp(s[j], s[j + 1]) <= 0 ==> Bubbled(s, i, j + 1, cmp)
    ensures cmp(s[j], s[j + 1]) > 0 ==>
      Bubbled(Swap(s, j, j + 1), i, j + 1, cmp) && Stable(s, Swap(s, j, j + 1), cmp)
  {
    hide IsComparator;
    forall p | 0 <= p < j ensures cmp(s[j], s[j + 1]) <= 0 ==> cmp(s[p], s[j + 1]) <= 0 {
      Laws(cmp, s[p], s[j], s[j + 1]);
    }
    if cmp(s[j], s[j + 1]) > 0 {
      Laws(cmp, s[j], s[j + 1], s[j]);
      forall x ensures Class(s, x, cmp) == Class(Swap(s, j, j + 1), x, cmp) {
        SwapNeighbours(s, j, x, cmp);
      }
    }
  }

  lemma StableTrans<T(!new)>(a: seq<T>, b: seq<T>, c: seq<T>, cmp: Comparator<T>)
    requires Stable(a, b, cmp) && Stable(b, c, cmp)
    ensures Stable(a, c, cmp)
  {
    hide IsComparator;
    forall x ensures Class(a, x, cmp) == Class(c, x, cmp) {
      assert Class(a, x, cmp) == Class(b, x, cmp);
    }
  }

  lemma BubbledAtFirst<T(!new)>(s: seq<T>, cmp: Comparator<T>)
    requires |s| > 0
    ensures Bubbled(s, 0, 0, cmp) && Stable(s, s, cmp)
  {
  }

  lemma BubbledNext<T(!new)>(s: seq<T>, i: nat, cmp: Comparator<T>)
    requires i + 1 < |s| && Bubbled(s, i, |s| - i - 1, cmp)
    ensures Bubbled(s, i + 1, 0, cmp)
    ensures i + 2 == |s| ==> Sorted(s, cmp)
  {
    hide IsComparator;
  }

  // ---------- Insertion and merge sort ----------

  lemma {:induction false} InsertAt<T(!new)>(s: seq<T>, x: T, k: nat, cmp: Comparator<T>)
    requires k <= |s| && (k > 0 ==> cmp(s[k - 1], x) <= 0)
    requires forall q | k <= q < |s| :: cmp(s[q], x) > 0
    ensures Insert(s, x, cmp) == s[..k] + [x] + s[k..]
  {
    hide IsComparator;
    if k < |s| {
      InsertAt(s[..|s| - 1], x, k, cmp);
      assert s[..|s| - 1][k..] + [s[|s| - 1]] == s[k..];
    } else {
      assert s[..k] == s && s[k..] == [];
    }
  }

  /** The round of insertion sort that places position `i` of `s` at `k`, the elements between moving up. */
  lemma InsertionStep<T(!new)>(was: seq<T>, s: seq<T>, r: seq<T>, i: nat, k: nat, cmp: Comparator<T>)
    requires k <= i < |s| == |r| == |was|
    requires s == StableSort(was[..i], cmp) + was[i..] && |StableSort(was[..i], cmp)| == i
    requires r == s[..k] + [s[i]] + s[k..i] + s[i + 1..]
    requires k > 0 ==> cmp(s[k - 1], s[i]) <= 0
    requires forall q | k <= q < i :: cmp(s[q], s[i]) > 0
    ensures r == StableSort(was[..i + 1], cmp) + was[i + 1..] && |StableSort(was[..i + 1], cmp)| == i + 1
  {
    hide IsComparator;
    var t := StableSort(was[..i], cmp);
    assert t == s[..i] && s[i] == was[i] && s[i + 1..] == was[i + 1..];
    InsertAt(t, was[i], k, cmp);
    assert was[..i + 1][..i] == was[..i];
    assert t[..k] == s[..k] && t[k..] == s[k..i];
  }

  lemma Shifted<T>(s: seq<T>, r: seq<T>, i: nat, k: nat)
    requires k <= i < |s| == |r| && r[k] == s[i]
    requires forall q | 0 <= q < k || i < q < |s| :: r[q] == s[q]
    requires forall q | k < q <= i :: r[q] == s[q - 1]
    ensures r == s[..k] + [s[i]] + s[k..i] + s[i + 1..]
  {
    var t := s[..k] + [s[i]] + s[k..i] + s[i + 1..];
    forall q | 0 <= q < |s| ensures r[q] == t[q] {
      if k < q <= i {
        assert t[q] == s[k..i][q - k - 1];
      }
    }
  }

  /** The merge has written up to `index`; what remains of the two halves is still to be merged. */
  ghost predicate Merging<T(!new)>(was: seq<T>, s: seq<T>, all: seq<T>, l: seq<T>, r: seq<T>,
                                   start: nat, index: nat, end: nat, cmp: Comparator<T>) {
    && start <= index <= end + 1 <= |was| == |s| && |all| == end + 1 - start && |l| + |r| == end + 1 - index
    && s[..start] == was[..start] && s[end + 1..] == was[end + 1..]
    && s[start..index] + Merge(l, r, cmp) == all
  }

  lemma MergeStart<T(!new)>(s: seq<T>, l: seq<T>, r: seq<T>, start: nat, end: nat, cmp: Comparator<T>)
    requires start <= end < |s| && |l| + |r| == end + 1 - start
    ensures Merging(s, s, Merge(l, r, cmp), l, r, start, start, end, cmp)
  {
    assert s[start..start] == [];
  }

  lemma MergeDone<T(!new)>(was: seq<T>, s: seq<T>, all: seq<T>, start: nat, index: nat, end: nat, cmp: Comparator<T>)
    requires Merging(was, s, all, [], [], start, index, end, cmp)
    ensures s == was[..start] + all + was[end + 1..]
  {
    assert s == s[..start] + s[start..index] + s[index..];
  }

  /** Writing the smaller head, the left one when they are equal, continues a merge. */
  lemma MergeStep<T(!new)>(was: seq<T>, s: seq<T>, all: seq<T>, l: seq<T>, r: seq<T>,
                           start: nat, index: nat, end: nat, cmp: Comparator<T>)
    requires Merging(was, s, all, l, r, start, index, end, cmp)
    ensures l != [] && (r == [] || cmp(l[0], r[0]) <= 0) ==>
      index <= end && Merging(was, s[index := l[0]], all, l[1..], r, start, index + 1, end, cmp)
    ensures r != [] && (l == [] || cmp(l[0], r[0]) > 0) ==>
      index <= end && Merging(was, s[index := r[0]], all, l, r[1..], start, index + 1, end, cmp)
  {
    hide IsComparator;
    MergeTakes(l, r, cmp);
    hide Merge;
    if l != [] && (r == [] || cmp(l[0], r[0]) <= 0) {
      assert s[index := l[0]][start..index + 1] == s[start..index] + [l[0]];
    }
    if r != [] && (l == [] || cmp(l[0], r[0]) > 0) {
      assert s[index := r[0]][start..index + 1] == s[start..index] + [r[0]];
    }
  }

  lemma {:induction false} MergeIsPermutation<T(!new)>(l: seq<T>, r: seq<T>, cmp: Comparator<T>)
    ensures multiset(Merge(l, r, cmp)) == multiset(l) + multiset(r)
  {
    hide IsComparator;
    if l != [] && r != [] {
      assert l == [l[0]] + l[1..] && r == [r[0]] + r[1..];
      if cmp(l[0], r[0]) <= 0 {
        MergeIsPermutation(l[1..], r, cmp);
      } else {
        MergeIsPermutation(l, r[1..], cmp);
      }
    }
  }

  /** Sorting two halves and merging them is sorting the whole. */
  lemma MergeOfSorted<T(!new)>(l: seq<T>, r: seq<T>, cmp: Comparator<T>)
    ensures Merge(StableSort(l, cmp), StableSort(r, cmp), cmp) == StableSort(l + r, cmp)
  {
    hide IsComparator, StableSort, Merge;
    var l', r' := StableSort(l, cmp), StableSort(r, cmp);
    StableSortCorrect(l, cmp);
    StableSortCorrect(r, cmp);
    StableConcat(l, l', r, r', cmp);
    MergeStable(l', r', cmp);
    MergeSorted(l', r', cmp);
    StableTrans(l + r, l' + r', Merge(l', r', cmp), cmp);
    IsStableSort(l + r, Merge(l', r', cmp), cmp);
  }

  lemma SingleSorted<T(!new)>(s: seq<T>, cmp: Comparator<T>)
    requires |s| <= 1
    ensures StableSort(s, cmp) == s
  {
    if |s| == 1 {
      assert StableSort(s[..0], cmp) == [];
    }
  }

  lemma StableConcat<T(!new)>(a: seq<T>, a': seq<T>, b: seq<T>, b': seq<T>, cmp: Comparator<T>)
    requires Stable(a, a', cmp) && Stable(b, b', cmp)
    ensures Stable(a + b, a' + b', cmp)
  {
    hide IsComparator;
    forall x ensures Class(a + b, x, cmp) == Class(a' + b', x, cmp) {
      ClassConcat(a, b, x, cmp);
      ClassConcat(a', b', x, cmp);
      assert Class(a, x, cmp) == Class(a', x, cmp) && Class(b, x, cmp) == Class(b', x, cmp);
    }
  }

  // ---------- Merge sort with failing memory ----------

  /** The size of the left half of `n` elements, which gets the one in the middle. */
  function Half(n: nat): (k: nat)
    requires n > 1
    ensures 0 < k < n && n - k <= k <= n - k + 1
  {
    (n - 1) / 2 + 1
  }

  /**
     What merge sort makes of the elements from position `at` on, where `memory(i, j)` tells whether
     merging positions `i` to `j` finds room for its two temporary arrays. Without it the halves stay as they are.
   */
  function MergedBy<T(!new)>(s: seq<T>, at: int, cmp: Comparator<T>, memory: (int, int) -> bool): (r: seq<T>)
    ensures |r| == |s|
    decreases |s|
  {
    if |s| <= 1 then s else
      var k := Half(|s|);
      var l, r := MergedBy(s[..k], at, cmp, memory), MergedBy(s[k..], at + k, cmp, memory);
      if memory(at, at + |s| - 1) then Merge(l, r, cmp) else l + r
  }

  /** Every merge finds its memory. */
  ghost predicate Plenty(at: int, n: nat, memory: (int, int) -> bool)
    decreases n
  {
    n <= 1 || (memory(at, at + n - 1) && Plenty(at, Half(n), memory) && Plenty(at + Half(n), n - Half(n), memory))
  }

  ghost predicate InOrder<T(!new)>(l: seq<T>, r: seq<T>, cmp: Comparator<T>) {
    forall i, j | 0 <= i < |l| && 0 <= j < |r| :: cmp(l[i], r[j]) <= 0
  }

  /** Where a merge finds no memory the left half has nothing greater than anything in the right one. */
  ghost predicate Harmless<T(!new)>(s: seq<T>, at: int, cmp: Comparator<T>, memory: (int, int) -> bool)
    decreases |s|
  {
    |s| <= 1 || (var k := Half(|s|);
      && Harmless(s[..k], at, cmp, memory) && Harmless(s[k..], at + k, cmp, memory)
      && (memory(at, at + |s| - 1) || InOrder(s[..k], s[k..], cmp)))
  }

  lemma SortedConcat<T(!new)>(l: seq<T>, r: seq<T>, cmp: Comparator<T>)
    ensures Sorted(l + r, cmp) <==> Sorted(l, cmp) && Sorted(r, cmp) && InOrder(l, r, cmp)
  {
    hide IsComparator;
    var m := l + r;
    assert forall i | 0 <= i < |l| :: l[i] == m[i];
    assert forall j | 0 <= j < |r| :: r[j] == m[|l| + j];
  }

  lemma InOrderOfMembers<T(!new)>(l: seq<T>, r: seq<T>, l': seq<T>, r': seq<T>, cmp: Comparator<T>)
    requires multiset(l) == multiset(l') && multiset(r) == multiset(r') && InOrder(l, r, cmp)
    ensures InOrder(l', r', cmp)
  {
    hide IsComparator;
    forall i, j | 0 <= i < |l'| && 0 <= j < |r'| ensures cmp(l'[i], r'[j]) <= 0 {
      assert l'[i] in multiset(l') && r'[j] in multiset(r');
    }
  }

  lemma HeadFits<T(!new)>(h: T, l: seq<T>, r: seq<T>, m: seq<T>, cmp: Comparator<T>)
    requires Sorted([h] + m, cmp) && Sorted(l, cmp) && multiset(m) == multiset(l) + multiset(r)
    ensures Sorted(m, cmp) && Sorted([h] + l, cmp)
  {
    hide IsComparator, Sorted, InOrder;
    SortedConcat([h], m, cmp);
    InOrderOfMembers([h], m, [h], l + r, cmp);
    InOrderOfFirst([h], l, r, cmp);
    SortedConcat([h], l, cmp);
  }

  lemma InOrderOfFirst<T(!new)>(h: seq<T>, l: seq<T>, r: seq<T>, cmp: Comparator<T>)
    requires InOrder(h, l + r, cmp)
    ensures InOrder(h, l, cmp)
  {
    assert forall i | 0 <= i < |l| :: l[i] == (l + r)[i];
  }

  /** Merging never repairs an input that is out of order. */
  lemma {:induction false} MergeNeedsSorted<T(!new)>(l: seq<T>, r: seq<T>, cmp: Comparator<T>)
    requires Sorted(Merge(l, r, cmp), cmp)
    ensures Sorted(l, cmp) && Sorted(r, cmp)
  {
    hide IsComparator, Sorted, Merge;
    MergeTakes(l, r, cmp);
    if l == [] || r == [] {
      MergeWithNone(l, r, cmp);
      assert l + r == if l == [] then r else l;
      SortedConcat(l, r, cmp);
    } else {
      var left := cmp(l[0], r[0]) <= 0;
      var h, l', r' := if left then l[0] else r[0], if left then l[1..] else l, if left then r else r[1..];
      var m := Merge(l', r', cmp);
      assert Merge(l, r, cmp) == [h] + m;
      SortedConcat([h], m, cmp);
      MergeNeedsSorted(l', r', cmp);
      MergeIsPermutation(l', r', cmp);
      if left {
        HeadFits(h, l', r', m, cmp);
        assert l == [h] + l';
      } else {
        HeadFits(h, r', l', m, cmp);
        assert r == [h] + r';
      }
    }
  }

  lemma MergedInHalves<T(!new)>(s: seq<T>, at: int, cmp: Comparator<T>, memory: (int, int) -> bool)
    requires |s| > 1
    ensures var k := Half(|s|);
      var l, r := MergedBy(s[..k], at, cmp, memory), MergedBy(s[k..], at + k, cmp, memory);
      && MergedBy(s, at, cmp, memory) == (if memory(at, at + |s| - 1) then Merge(l, r, cmp) else l + r)
      && (Harmless(s, at, cmp, memory) <==>
        && Harmless(s[..k], at, cmp, memory) && Harmless(s[k..], at + k, cmp, memory)
        && (memory(at, at + |s| - 1) || InOrder(s[..k], s[k..], cmp)))
  {
    hide IsComparator, Merge, InOrder;
  }

  /** Merge sort ends in ascending order exactly when the merges that find no memory were not needed. */
  lemma {:induction false} MergedBySorts<T(!new)>(s: seq<T>, at: int, cmp: Comparator<T>, memory: (int, int) -> bool)
    ensures multiset(MergedBy(s, at, cmp, memory)) == multiset(s)
    ensures Sorted(MergedBy(s, at, cmp, memory), cmp) <==> Harmless(s, at, cmp, memory)
    ensures Harmless(s, at, cmp, memory) ==> MergedBy(s, at, cmp, memory) == StableSort(s, cmp)
    decreases |s|
  {
    hide IsComparator, StableSort, Merge, Sorted, InOrder, MergedBy, Harmless;
    if |s| <= 1 {
      MergedSingle(s, at, cmp, memory);
    } else {
      var k := Half(|s|);
      var l, r := s[..k], s[k..];
      var l', r' := MergedBy(l, at, cmp, memory), MergedBy(r, at + k, cmp, memory);
      MergedInHalves(s, at, cmp, memory);
      MergedBySorts(l, at, cmp, memory);
      MergedBySorts(r, at + k, cmp, memory);
      assert s == l + r;
      if memory(at, at + |s| - 1) {
        HalvesMerged(l, r, l', r', cmp);
      } else {
        HalvesLeft(l, r, l', r', cmp);
      }
    }
  }

  lemma MergedSingle<T(!new)>(s: seq<T>, at: int, cmp: Comparator<T>, memory: (int, int) -> bool)
    requires |s| <= 1
    ensures MergedBy(s, at, cmp, memory) == s == StableSort(s, cmp) && Sorted(s, cmp) && Harmless(s, at, cmp, memory)
  {
    SingleSorted(s, cmp);
  }

  lemma HalvesMerged<T(!new)>(l: seq<T>, r: seq<T>, l': seq<T>, r': seq<T>, cmp: Comparator<T>)
    requires multiset(l) == multiset(l') && multiset(r) == multiset(r')
    requires Sorted(l', cmp) ==> l' == StableSort(l, cmp)
    requires Sorted(r', cmp) ==> r' == StableSort(r, cmp)
    ensures multiset(Merge(l', r', cmp)) == multiset(l + r)
    ensures Sorted(Merge(l', r', cmp), cmp) <==> Sorted(l', cmp) && Sorted(r', cmp)
    ensures Sorted(Merge(l', r', cmp), cmp) ==> Merge(l', r', cmp) == StableSort(l + r, cmp)
  {
    hide IsComparator, StableSort, Sorted, Merge;
    MergeIsPermutation(l', r', cmp);
    if Sorted(l', cmp) && Sorted(r', cmp) {
      MergeOfSorted(l, r, cmp);
      StableSortCorrect(l + r, cmp);
    } else if Sorted(Merge(l', r', cmp), cmp) {
      MergeNeedsSorted(l', r', cmp);
    }
  }

  lemma HalvesLeft<T(!new)>(l: seq<T>, r: seq<T>, l': seq<T>, r': seq<T>, cmp: Comparator<T>)
    requires multiset(l) == multiset(l') && multiset(r) == multiset(r')
    requires Sorted(l', cmp) && Sorted(r', cmp) ==> l' == StableSort(l, cmp) && r' == StableSort(r, cmp)
    ensures Sorted(l' + r', cmp) <==> Sorted(l', cmp) && Sorted(r', cmp) && InOrder(l, r, cmp)
    ensures Sorted(l' + r', cmp) ==> l' + r' == StableSort(l + r, cmp)
    ensures multiset(l' + r') == multiset(l + r)
  {
    hide IsComparator, StableSort, Sorted, InOrder;
    SortedConcat(l', r', cmp);
    if InOrder(l, r, cmp) {
      InOrderOfMembers(l, r, l', r', cmp);
    }
    if InOrder(l', r', cmp) {
      InOrderOfMembers(l', r', l, r, cmp);
    }
    if Sorted(l' + r', cmp) {
      StableSortCorrect(l, cmp);
      StableSortCorrect(r, cmp);
      StableConcat(l, l', r, r', cmp);
      IsStableSort(l + r, l' + r', cmp);
    }
  }

  lemma {:induction false} PlentyIsHarmless<T(!new)>(s: seq<T>, at: int, cmp: Comparator<T>, memory: (int, int) -> bool)
    requires Plenty(at, |s|, memory)
    ensures Harmless(s, at, cmp, memory)
    decreases |s|
  {
    hide IsComparator, InOrder;
    if |s| > 1 {
      PlentyIsHarmless(s[..Half(|s|)], at, cmp, memory);
      PlentyIsHarmless(s[Half(|s|)..], at + Half(|s|), cmp, memory);
    }
  }

  /** An ascending list does not need the memory. */
  lemma {:induction false} SortedIsHarmless<T(!new)>(s: seq<T>, at: int, cmp: Comparator<T>, memory: (int, int) -> bool)
    requires Sorted(s, cmp)
    ensures Harmless(s, at, cmp, memory) && MergedBy(s, at, cmp, memory) == s
    decreases |s|
  {
    hide IsComparator, InOrder, Sorted, StableSort, MergedBy, Stable;
    if |s| > 1 {
      var k := Half(|s|);
      assert s == s[..k] + s[k..];
      SortedConcat(s[..k], s[k..], cmp);
      SortedIsHarmless(s[..k], at, cmp, memory);
      SortedIsHarmless(s[k..], at + k, cmp, memory);
    }
    MergedBySorts(s, at, cmp, memory);
    StableSelf(s, cmp);
    IsStableSort(s, s, cmp);
  }

  lemma StableSelf<T(!new)>(s: seq<T>, cmp: Comparator<T>)
    ensures Stable(s, s, cmp)
  {
  }

  lemma {:induction false} NothingMerged<T(!new)>(s: seq<T>, at: int, cmp: Comparator<T>, memory: (int, int) -> bool)
    requires forall i, j :: !memory(i, j)
    ensures MergedBy(s, at, cmp, memory) == s
    decreases |s|
  {
    hide IsComparator;
    if |s| > 1 {
      NothingMerged(s[..Half(|s|)], at, cmp, memory);
      NothingMerged(s[Half(|s|)..], at + Half(|s|), cmp, memory);
    }
  }

  /** Whatever merges fail, the result is ascending: this holds for the ascending lists, and for no others. */
  lemma AscendingWhateverFails<T(!new)>(s: seq<T>, at: int, cmp: Comparator<T>)
    ensures (forall memory :: Sorted(MergedBy(s, at, cmp, memory), cmp)) <==> Sorted(s, cmp)
  {
    hide IsComparator, Sorted, MergedBy;
    if Sorted(s, cmp) {
      forall memory ensures Sorted(MergedBy(s, at, cmp, memory), cmp) {
        SortedIsHarmless(s, at, cmp, memory);
      }
    } else {
      var never := (i: int, j: int) => false;
      NothingMerged(s, at, cmp, never);
      assert !Sorted(MergedBy(s, at, cmp, never), cmp);
    }
  }

  /** Two numbers in descending order stay so when the one merge finds no memory. */
  lemma LeftUnsorted(memory: (int, int) -> bool)
    requires !memory(0, 1)
    ensures var ascending: Comparator<int> := (x, y) => x - y;
      MergedBy([2, 1], 0, ascending, memory) == [2, 1] && !Sorted([2, 1], ascending)
  {
    var ascending: Comparator<int> := (x, y) => x - y;
    assert Half(2) == 1 && [2, 1][..1] == [2] && [2, 1][1..] == [1];
    assert ascending([2, 1][0], [2, 1][1]) > 0;
  }

  /** `s` with positions `lo` to `hi` replaced by `m`. */
  function Replaced<T>(s: seq<T>, lo: int, hi: int, m: seq<T>): (r: seq<T>)
    requires 0 <= lo <= hi + 1 <= |s| && |m| == hi + 1 - lo
    ensures |r| == |s|
  {
    s[..lo] + m + s[hi + 1..]
  }

  /** With all the memory in the world there is plenty. */
  lemma {:induction false} AlwaysPlenty(at: int, n: nat, memory: (int, int) -> bool)
    requires forall i, j :: memory(i, j)
    ensures Plenty(at, n, memory)
    decreases n
  {
    if n > 1 {
      AlwaysPlenty(at, Half(n), memory);
      AlwaysPlenty(at + Half(n), n - Half(n), memory);
    }
  }

  lemma PlentyOfOne(at: int, memory: (int, int) -> bool)
    ensures Plenty(at, 1, memory)
  {
  }

  lemma ReplacedSame<T>(s: seq<T>, lo: nat, hi: nat)
    requires lo <= hi < |s|
    ensures Replaced(s, lo, hi, s[lo..hi + 1]) == s
  {
  }

  lemma ReplacedAll<T>(s: seq<T>, m: seq<T>)
    requires |s| == |m|
    ensures s[0..|s|] == s && Replaced(s, 0, |s| - 1, m) == m
  {
  }

  lemma ReplacedHalves<T>(s: seq<T>, lo: nat, mid: nat, hi: nat, l: seq<T>, r: seq<T>, m: seq<T>)
    requires lo <= mid < hi < |s| && |l| == mid + 1 - lo && |r| == hi - mid && |m| == hi + 1 - lo
    ensures var t := Replaced(s, lo, mid, l);
      var u := Replaced(t, mid + 1, hi, r);
      && t[mid + 1..hi + 1] == s[mid + 1..hi + 1] && u[lo..mid + 1] == l && u[mid + 1..hi + 1] == r
      && u == Replaced(s, lo, hi, l + r) && Replaced(u, lo, hi, m) == Replaced(s, lo, hi, m)
  {
  }

  // ---------- Selection sort ----------

  /** The first smallest position, starting from candidate `m` and position `j`. */
  function FirstMin<T(!new)>(s: seq<T>, j: nat, m: nat, cmp: Comparator<T>): (k: nat)
    requires m < |s| && m < j <= |s|
    ensures k == m || j <= k < |s|
    ensures k != m ==> cmp(s[k], s[m]) < 0
    decreases |s| - j
  {
    if j == |s| then m else FirstMin(s, j + 1, if cmp(s[j], s[m]) < 0 then j else m, cmp)
  }

  function SelectionFrom<T(!new)>(s: seq<T>, i: nat, cmp: Comparator<T>): (r: seq<T>)
    ensures |r| == |s|
    decreases |s| - i
  {
    if i + 1 >= |s| then s else SelectionFrom(Swap(s, FirstMin(s, i + 1, i, cmp), i), i + 1, cmp)
  }

  lemma {:induction false} FirstMinIsLeast<T(!new)>(s: seq<T>, j: nat, m: nat, cmp: Comparator<T>)
    requires m < |s| && m < j <= |s|
    ensures var k := FirstMin(s, j, m, cmp);
      && cmp(s[k], s[m]) <= 0 && (forall q | j <= q < |s| :: cmp(s[k], s[q]) <= 0)
      && (k != m ==> cmp(s[k], s[m]) < 0 && forall q | j <= q < k :: cmp(s[k], s[q]) < 0)
    decreases |s| - j
  {
    hide IsComparator;
    Laws(cmp, s[m], s[m], s[m]);
    if j < |s| {
      var m' := if cmp(s[j], s[m]) < 0 then j else m;
      FirstMinIsLeast(s, j + 1, m', cmp);
      var k := FirstMin(s, j, m, cmp);
      Laws(cmp, s[k], s[m'], s[m]);
      Laws(cmp, s[j], s[m], s[j]);
      Laws(cmp, s[k], s[m'], s[j]);
    } else {
      Reflexive(cmp, s[m]);
    }
  }

  lemma Reflexive<T(!new)>(cmp: Comparator<T>, x: T)
    ensures cmp(x, x) == 0
  {
  }

  ghost predicate Selected<T(!new)>(s: seq<T>, i: int, cmp: Comparator<T>) {
    forall p, q | 0 <= p < q < |s| && p < i :: cmp(s[p], s[q]) <= 0
  }

  lemma LeastFrom<T(!new)>(s: seq<T>, i: nat, k: nat, cmp: Comparator<T>)
    requires i < |s| && k == FirstMin(s, i + 1, i, cmp)
    ensures i <= k < |s| && forall q | i <= q < |s| :: cmp(s[k], s[q]) <= 0
  {
    hide IsComparator, FirstMin;
    FirstMinIsLeast(s, i + 1, i, cmp);
  }

  lemma SelectedNext<T(!new)>(s: seq<T>, i: nat, k: nat, cmp: Comparator<T>)
    requires Selected(s, i, cmp) && i <= k < |s| && forall q | i <= q < |s| :: cmp(s[k], s[q]) <= 0
    ensures Selected(Swap(s, k, i), i + 1, cmp) && multiset(Swap(s, k, i)) == multiset(s)
  {
    hide IsComparator;
  }

  lemma {:induction false} SelectionSorts<T(!new)>(s: seq<T>, i: nat, cmp: Comparator<T>)
    requires Selected(s, i, cmp)
    ensures Sorted(SelectionFrom(s, i, cmp), cmp) && multiset(SelectionFrom(s, i, cmp)) == multiset(s)
    decreases |s| - i
  {
    hide IsComparator, FirstMin, Swap;
    if i + 1 >= |s| {
      assert Sorted(s, cmp);
    } else {
      hide Selected, Sorted;
      var k := FirstMin(s, i + 1, i, cmp);
      LeastFrom(s, i, k, cmp);
      SelectedNext(s, i, k, cmp);
      SelectionSorts(Swap(s, k, i), i + 1, cmp);
    }
  }

  // ---------- Quick sort ----------

  /** Lomuto's scan: positions up to `p` hold elements not above the pivot at `hi`, then up to `i` greater ones. */
  function PartitionFrom<T(!new)>(s: seq<T>, i: int, p: int, hi: int, cmp: Comparator<T>): (r: (seq<T>, int))
    requires -1 <= p < i <= hi < |s|
    ensures |r.0| == |s| && p < r.1 <= hi
    decreases hi - i
  {
    if i == hi then (Swap(s, p + 1, hi), p + 1)
    else if cmp(s[i], s[hi]) <= 0 then PartitionFrom(Swap(s, i, p + 1), i + 1, p + 1, hi, cmp)
    else PartitionFrom(s, i + 1, p, hi, cmp)
  }

  function QuickFrom<T(!new)>(s: seq<T>, lo: int, hi: int, cmp: Comparator<T>): (r: seq<T>)
    requires 0 <= lo <= hi + 1 <= |s|
    ensures |r| == |s|
    decreases hi - lo
  {
    if lo < hi then
      var (t, p) := PartitionFrom(s, lo, lo - 1, hi, cmp);
      QuickFrom(QuickFrom(t, lo, p - 1, cmp), p + 1, hi, cmp)
    else s
  }

  /** `r` rearranges positions `lo` to `hi` of `s` and nothing else. */
  ghost predicate Within<T>(s: seq<T>, r: seq<T>, lo: int, hi: int) {
    && 0 <= lo <= hi + 1 <= |s| && |r| == |s|
    && s[..lo] == r[..lo] && s[hi + 1..] == r[hi + 1..]
    && multiset(s) == multiset(r)
  }

  lemma MiddleMembers<T>(a: seq<T>, m: seq<T>, m': seq<T>, b: seq<T>, x: T)
    requires multiset(a + m + b) == multiset(a + m' + b)
    ensures multiset(m)[x] == multiset(m')[x]
  {
    calc {
      multiset(a)[x] + multiset(m)[x] + multiset(b)[x];
      multiset(a + m)[x] + multiset(b)[x];
      multiset(a + m + b)[x];
      multiset(a + m' + b)[x];
      multiset(a + m')[x] + multiset(b)[x];
      multiset(a)[x] + multiset(m')[x] + multiset(b)[x];
    }
  }

  lemma WithinMembers<T>(s: seq<T>, r: seq<T>, lo: int, hi: int)
    requires Within(s, r, lo, hi)
    ensures forall q | lo <= q <= hi :: r[q] in s[lo..hi + 1]
  {
    var a, m, m', b := s[..lo], s[lo..hi + 1], r[lo..hi + 1], s[hi + 1..];
    assert s == a + m + b;
    assert r == a + m' + b by {
      assert r == r[..lo] + m' + r[hi + 1..];
    }
    forall q | lo <= q <= hi ensures r[q] in m {
      MiddleMembers(a, m, m', b, r[q]);
      assert m'[q - lo] in multiset(m');
    }
  }

  lemma WithinWider<T>(s: seq<T>, r: seq<T>, lo: int, hi: int, lo': int, hi': int)
    requires Within(s, r, lo, hi) && 0 <= lo' <= lo && hi <= hi' && hi' + 1 <= |s|
    ensures Within(s, r, lo', hi')
  {
    assert s[..lo'] == s[..lo][..lo'] && r[..lo'] == r[..lo][..lo'];
    assert s[hi' + 1..] == s[hi + 1..][hi' - hi..] && r[hi' + 1..] == r[hi + 1..][hi' - hi..];
  }

  lemma SwapWithin<T>(s: seq<T>, i: int, j: int, lo: int, hi: int)
    requires 0 <= lo <= i <= hi < |s| && lo <= j <= hi
    ensures Within(s, Swap(s, i, j), lo, hi)
  {
  }

  lemma WithinTrans<T>(s: seq<T>, t: seq<T>, r: seq<T>, lo: int, hi: int)
    requires Within(s, t, lo, hi) && Within(t, r, lo, hi)
    ensures Within(s, r, lo, hi)
  {
  }

  /** Position `k` holds a value with nothing greater before it and only greater ones behind, from `lo` to `hi`. */
  ghost predicate Split<T(!new)>(s: seq<T>, lo: int, k: int, hi: int, cmp: Comparator<T>) {
    && 0 <= lo <= k <= hi < |s|
    && (forall q | lo <= q < k :: cmp(s[q], s[k]) <= 0)
    && (forall q | k < q <= hi :: cmp(s[q], s[k]) > 0)
  }

  /** The scan has put positions `lo` to `p` below the pivot at `hi` and the ones before `i` above it. */
  ghost predicate Scanned<T(!new)>(s: seq<T>, lo: int, i: int, p: int, hi: int, cmp: Comparator<T>) {
    && 0 <= lo <= p + 1 <= i <= hi < |s|
    && (forall q | lo <= q <= p :: cmp(s[q], s[hi]) <= 0)
    && (forall q | p < q < i :: cmp(s[q], s[hi]) > 0)
  }

  lemma InRange<T(!new)>(s: seq<T>, lo: int, i: int, p: int, hi: int, cmp: Comparator<T>)
    requires Scanned(s, lo, i, p, hi, cmp)
    ensures 0 <= lo <= p + 1 <= i <= hi < |s|
  {
  }

  lemma ScanStep<T(!new)>(s: seq<T>, lo: int, i: int, p: int, hi: int, cmp: Comparator<T>)
    requires Scanned(s, lo, i, p, hi, cmp)
    ensures i == hi ==> Split(Swap(s, p + 1, hi), lo, p + 1, hi, cmp)
    ensures i < hi && cmp(s[i], s[hi]) <= 0 ==> Scanned(Swap(s, i, p + 1), lo, i + 1, p + 1, hi, cmp)
    ensures i < hi && cmp(s[i], s[hi]) > 0 ==> Scanned(s, lo, i + 1, p, hi, cmp)
  {
    hide IsComparator;
  }

  lemma {:induction false} PartitionSplits<T(!new)>(s: seq<T>, lo: int, i: int, p: int, hi: int, cmp: Comparator<T>)
    requires -1 <= p < i && Scanned(s, lo, i, p, hi, cmp)
    ensures var r := PartitionFrom(s, i, p, hi, cmp); Within(s, r.0, lo, hi) && Split(r.0, lo, r.1, hi, cmp)
    decreases hi - i
  {
    hide IsComparator, Within, Split, Scanned, Swap;
    InRange(s, lo, i, p, hi, cmp);
    ScanStep(s, lo, i, p, hi, cmp);
    if i == hi {
      SwapWithin(s, p + 1, hi, lo, hi);
    } else if cmp(s[i], s[hi]) <= 0 {
      var t := Swap(s, i, p + 1);
      SwapWithin(s, i, p + 1, lo, hi);
      PartitionSplits(t, lo, i + 1, p + 1, hi, cmp);
      WithinTrans(s, t, PartitionFrom(t, i + 1, p + 1, hi, cmp).0, lo, hi);
    } else {
      PartitionSplits(s, lo, i + 1, p, hi, cmp);
    }
  }

  ghost predicate SortedRange<T(!new)>(s: seq<T>, lo: int, hi: int, cmp: Comparator<T>) {
    forall p, q | 0 <= p < q < |s| && lo <= p && q <= hi :: cmp(s[p], s[q]) <= 0
  }

  lemma {:induction false} QuickSorts<T(!new)>(s: seq<T>, lo: int, hi: int, cmp: Comparator<T>)
    requires 0 <= lo <= hi + 1 <= |s|
    ensures Within(s, QuickFrom(s, lo, hi, cmp), lo, hi) && SortedRange(QuickFrom(s, lo, hi, cmp), lo, hi, cmp)
    decreases hi - lo
  {
    hide IsComparator, PartitionFrom, Within, Split, SortedRange;
    if lo < hi {
      var (t, k) := PartitionFrom(s, lo, lo - 1, hi, cmp);
      PartitionSplits(s, lo, lo, lo - 1, hi, cmp);
      var l := QuickFrom(t, lo, k - 1, cmp);
      QuickSorts(t, lo, k - 1, cmp);
      var r := QuickFrom(l, k + 1, hi, cmp);
      QuickSorts(l, k + 1, hi, cmp);
      QuickJoin(t, l, r, lo, k, hi, cmp);
      WithinWider(t, l, lo, k - 1, lo, hi);
      WithinWider(l, r, k + 1, hi, lo, hi);
      WithinTrans(s, t, l, lo, hi);
      WithinTrans(s, l, r, lo, hi);
    } else {
      NothingToSort(s, lo, hi, cmp);
    }
  }

  lemma NothingToSort<T(!new)>(s: seq<T>, lo: int, hi: int, cmp: Comparator<T>)
    requires 0 <= lo <= hi + 1 <= |s| && hi <= lo
    ensures Within(s, s, lo, hi) && SortedRange(s, lo, hi, cmp)
  {
  }

  lemma QuickJoin<T(!new)>(t: seq<T>, l: seq<T>, r: seq<T>, lo: int, k: int, hi: int, cmp: Comparator<T>)
    requires Split(t, lo, k, hi, cmp) && Within(t, l, lo, k - 1) && Within(l, r, k + 1, hi)
    requires SortedRange(l, lo, k - 1, cmp) && SortedRange(r, k + 1, hi, cmp)
    ensures SortedRange(r, lo, hi, cmp)
  {
    hide IsComparator;
    WithinMembers(t, l, lo, k - 1);
    WithinMembers(l, r, k + 1, hi);
    assert forall q | lo <= q < k :: r[q] == r[..k + 1][q] && l[q] == l[..k + 1][q];
    assert r[k] == r[..k + 1][k] == l[k] && l[k] == l[k..][0] == t[k];
    assert forall q | k < q <= hi :: l[q] == l[k..][q - k] && t[q] == t[k..][q - k];
    assert forall q | lo <= q < k :: cmp(r[q], t[k]) <= 0;
    assert forall q | k < q <= hi :: cmp(r[q], t[k]) > 0;
    forall p, q | lo <= p < q <= hi ensures cmp(r[p], r[q]) <= 0 {
      Laws(cmp, r[p], t[k], r[q]);
      Laws(cmp, r[q], t[k], r[p]);
    }
  }

  // ---------- The dispatch ----------

  datatype Algorithm = BubbleSort | InsertionSort | SelectionSort | MergeSort | QuickSort

  /** What each algorithm makes of a list. */
  function SortBy<T(!new)>(algorithm: Algorithm, s: seq<T>, cmp: Comparator<T>): seq<T> {
    match algorithm
    case SelectionSort => SelectionFrom(s, 0, cmp)
    case QuickSort => QuickFrom(s, 0, |s| - 1, cmp)
    case _ => StableSort(s, cmp)
  }

  /** Every algorithm yields an ascending permutation; bubble, insertion and merge sort agree on it. */
  lemma EveryAlgorithmSorts<T(!new)>(algorithm: Algorithm, s: seq<T>, cmp: Comparator<T>)
    ensures Sorted(SortBy(algorithm, s, cmp), cmp) && multiset(SortBy(algorithm, s, cmp)) == multiset(s)
    ensures algorithm !in {SelectionSort, QuickSort} ==> Stable(s, SortBy(algorithm, s, cmp), cmp)
  {
    hide IsComparator, StableSort, SelectionFrom, QuickFrom;
    match algorithm
    case SelectionSort =>
      SelectionSorts(s, 0, cmp);
    case QuickSort =>
      QuickSorts(s, 0, |s| - 1, cmp);
    case _ =>
      StableSortCorrect(s, cmp);
      StableIsPermutation(s, StableSort(s, cmp), cmp);
  }

  lemma ShortList<T(!new)>(algorithm: Algorithm, s: seq<T>, cmp: Comparator<T>)
    requires |s| < 2
    ensures SortBy(algorithm, s, cmp) == s
  {
    SingleSorted(s, cmp);
  }

  lemma ShortMerge<T(!new)>(s: seq<T>, cmp: Comparator<T>, memory: (int, int) -> bool)
    requires |s| < 2
    ensures MergedBy(s, 0, cmp, memory) == s && Plenty(0, |s|, memory)
  {
  }

  lemma MergeSortOutcome<T(!new)>(s: seq<T>, cmp: Comparator<T>, memory: (int, int) -> bool)
    ensures var r := MergedBy(s, 0, cmp, memory);
      && multiset(r) == multiset(s)
      && (Sorted(r, cmp) <==> Harmless(s, 0, cmp, memory))
      && (Plenty(0, |s|, memory) || Sorted(r, cmp) ==> r == StableSort(s, cmp))
      && (Sorted(s, cmp) ==> r == s)
  {
    hide IsComparator, MergedBy, Harmless, Sorted, StableSort, Plenty;
    MergedBySorts(s, 0, cmp, memory);
    if Plenty(0, |s|, memory) {
      PlentyIsHarmless(s, 0, cmp, memory);
    }
    if Sorted(s, cmp) {
      SortedIsHarmless(s, 0, cmp, memory);
    }
  }

  /** Sorting both halves of a range and merging them when there is memory. */
  lemma MergedRange<T(!new)>(s: seq<T>, start: nat, middle: nat, end: nat, cmp: Comparator<T>,
                             memory: (int, int) -> bool)
    requires start < end < |s| && middle == start + (end - start) / 2
    ensures
      var l := MergedBy(s[start..middle + 1], start, cmp, memory);
      var r := MergedBy(s[middle + 1..end + 1], middle + 1, cmp, memory);
      MergedBy(s[start..end + 1], start, cmp, memory) == (if memory(start, end) then Merge(l, r, cmp) else l + r)
    ensures Plenty(start, end + 1 - start, memory) <==>
      memory(start, end) && Plenty(start, middle + 1 - start, memory) && Plenty(middle + 1, end - middle, memory)
  {
    hide IsComparator, Merge, MergedBy, Harmless;
    var all := s[start..end + 1];
    assert Half(|all|) == middle + 1 - start;
    assert all[..middle + 1 - start] == s[start..middle + 1] && all[middle + 1 - start..] == s[middle + 1..end + 1];
    MergedInHalves(all, start, cmp, memory);
  }
}
