/**
 What sorting means: ascending order and stability. Stability says that for every value the
 elements equal to it keep their order; together with ascending order it fixes the result.
 */
module Sorting {
  import opened Ordering

  ghost predicate Sorted<T(!new)>(s: seq<T>, cmp: Comparator<T>) {
    forall i, j | 0 <= i < j < |s| :: cmp(s[i], s[j]) <= 0
  }

  /** The elements that compare equal to `x`, in order. */
  ghost function Class<T(!new)>(s: seq<T>, x: T, cmp: Comparator<T>): seq<T> {
    if s == [] then [] else (if cmp(s[0], x) == 0 then [s[0]] else []) + Class(s[1..], x, cmp)
  }

  ghost predicate Stable<T(!new)>(a: seq<T>, b: seq<T>, cmp: Comparator<T>) {
    forall x :: Class(a, x, cmp) == Class(b, x, cmp)
  }

  lemma {:induction false} ClassCons<T(!new)>(h: T, s: seq<T>, x: T, cmp: Comparator<T>)
    ensures Class([h] + s, x, cmp) == (if cmp(h, x) == 0 then [h] else []) + Class(s, x, cmp)
  {
    hide IsComparator;
    assert ([h] + s)[1..] == s;
  }

  lemma {:induction false} ClassConcat<T(!new)>(a: seq<T>, b: seq<T>, x: T, cmp: Comparator<T>)
    ensures Class(a + b, x, cmp) == Class(a, x, cmp) + Class(b, x, cmp)
  {
    hide IsComparator, Class;
    if a == [] {
      ClassOfNone(x, cmp);
      assert a + b == b;
    } else {
      ClassConcat(a[1..], b, x, cmp);
      ClassCons(a[0], a[1..], x, cmp);
      ClassCons(a[0], a[1..] + b, x, cmp);
      assert a == [a[0]] + a[1..] && a + b == [a[0]] + (a[1..] + b);
    }
  }

  lemma ClassOfNone<T(!new)>(x: T, cmp: Comparator<T>)
    ensures Class([], x, cmp) == []
  {
  }

  lemma {:induction false} ClassMembers<T(!new)>(s: seq<T>, x: T, cmp: Comparator<T>)
    ensures forall y :: y in Class(s, x, cmp) <==> y in s && cmp(y, x) == 0
  {
    hide IsComparator;
    if s != [] {
      ClassMembers(s[1..], x, cmp);
      assert s == [s[0]] + s[1..];
    }
  }

  lemma {:induction false} ClassCount<T(!new)>(s: seq<T>, x: T, cmp: Comparator<T>)
    requires cmp(x, x) == 0
    ensures multiset(s)[x] == multiset(Class(s, x, cmp))[x]
  {
    hide IsComparator;
    if s != [] {
      ClassCount(s[1..], x, cmp);
      assert s == [s[0]] + s[1..];
    }
  }

  /** A stable rearrangement is a permutation. */
  lemma {:induction false} StableIsPermutation<T(!new)>(a: seq<T>, b: seq<T>, cmp: Comparator<T>)
    requires Stable(a, b, cmp)
    ensures multiset(a) == multiset(b)
  {
    hide IsComparator;
    forall x ensures multiset(a)[x] == multiset(b)[x] {
      Laws(cmp, x, x, x);
      ClassCount(a, x, cmp);
      ClassCount(b, x, cmp);
    }
  }

  /** The first of two stable, sorted rearrangements of each other have the same head. */
  lemma SameHead<T(!new)>(a: seq<T>, b: seq<T>, cmp: Comparator<T>)
    requires Sorted(a, cmp) && Sorted(b, cmp) && Stable(a, b, cmp) && |a| > 0
    ensures |b| > 0 && a[0] == b[0]
  {
    hide IsComparator;
    StableIsPermutation(a, b, cmp);
    assert a[0] in multiset(b);
    assert b[0] in multiset(a);
    Laws(cmp, a[0], b[0], a[0]);
    var x := a[0];
    Laws(cmp, x, x, x);
    assert cmp(b[0], x) == 0 by {
      assert a[0] in b && b[0] in a;
      Laws(cmp, b[0], b[0], b[0]);
    }
    assert Class(a, x, cmp)[0] == a[0] && Class(b, x, cmp)[0] == b[0];
  }

  /** Order and stability determine the result of sorting. */
  lemma {:induction false} SortedUnique<T(!new)>(a: seq<T>, b: seq<T>, cmp: Comparator<T>)
    requires Sorted(a, cmp) && Sorted(b, cmp) && Stable(a, b, cmp)
    ensures a == b
  {
    hide IsComparator;
    if a == [] {
      StableIsPermutation(a, b, cmp);
      assert |multiset(b)| == 0;
    } else {
      SameHead(a, b, cmp);
      forall x ensures Class(a[1..], x, cmp) == Class(b[1..], x, cmp) {
        var h := if cmp(a[0], x) == 0 then [a[0]] else [];
        assert Class(a, x, cmp) == Class(b, x, cmp);
        assert (h + Class(a[1..], x, cmp))[|h|..] == Class(a[1..], x, cmp);
        assert (h + Class(b[1..], x, cmp))[|h|..] == Class(b[1..], x, cmp);
      }
      SortedUnique(a[1..], b[1..], cmp);
      assert a == [a[0]] + a[1..] && b == [b[0]] + b[1..];
    }
  }

  // ---------- A reference sort ----------

  /** Inserts `x` behind all elements that are not greater. */
  function Insert<T(!new)>(s: seq<T>, x: T, cmp: Comparator<T>): seq<T> {
    if s == [] || cmp(s[|s| - 1], x) <= 0 then s + [x] else Insert(s[..|s| - 1], x, cmp) + [s[|s| - 1]]
  }

  function StableSort<T(!new)>(s: seq<T>, cmp: Comparator<T>): seq<T> {
    if s == [] then [] else Insert(StableSort(s[..|s| - 1], cmp), s[|s| - 1], cmp)
  }

  lemma {:induction false} InsertStable<T(!new)>(s: seq<T>, x: T, cmp: Comparator<T>)
    ensures Stable(s + [x], Insert(s, x, cmp), cmp)
    ensures forall y :: y in Insert(s, x, cmp) <==> y in s || y == x
  {
    hide IsComparator;
    if s != [] && cmp(s[|s| - 1], x) > 0 {
      var init, last := s[..|s| - 1], s[|s| - 1];
      InsertStable(init, x, cmp);
      assert s == init + [last];
      forall y ensures Class(s + [x], y, cmp) == Class(Insert(s, x, cmp), y, cmp) {
        ClassConcat(init, [last], y, cmp);
        ClassConcat(s, [x], y, cmp);
        ClassConcat(init, [x], y, cmp);
        ClassConcat(Insert(init, x, cmp), [last], y, cmp);
        Laws(cmp, last, y, x);
        Laws(cmp, x, y, last);
        assert Class([last], y, cmp) == [] || Class([x], y, cmp) == [];
      }
    }
  }

  lemma {:induction false} InsertSorted<T(!new)>(s: seq<T>, x: T, cmp: Comparator<T>)
    requires Sorted(s, cmp)
    ensures Sorted(Insert(s, x, cmp), cmp)
  {
    hide IsComparator;
    if s != [] {
      var init, last := s[..|s| - 1], s[|s| - 1];
      if cmp(last, x) <= 0 {
        forall i | 0 <= i < |s| ensures cmp(s[i], x) <= 0 {
          Laws(cmp, s[i], last, x);
        }
      } else {
        InsertSorted(init, x, cmp);
        InsertStable(init, x, cmp);
        Laws(cmp, last, x, last);
        forall y | y in Insert(init, x, cmp) ensures cmp(y, last) <= 0 {
        }
      }
    }
  }

  lemma {:induction false} StableSortCorrect<T(!new)>(s: seq<T>, cmp: Comparator<T>)
    ensures Sorted(StableSort(s, cmp), cmp) && Stable(s, StableSort(s, cmp), cmp)
  {
    hide IsComparator;
    if s != [] {
      var init, x := s[..|s| - 1], s[|s| - 1];
      StableSortCorrect(init, cmp);
      InsertSorted(StableSort(init, cmp), x, cmp);
      InsertStable(StableSort(init, cmp), x, cmp);
      assert s == init + [x];
      forall y ensures Class(s, y, cmp) == Class(StableSort(s, cmp), y, cmp) {
        ClassConcat(init, [x], y, cmp);
        ClassConcat(StableSort(init, cmp), [x], y, cmp);
        assert Class(init, y, cmp) == Class(StableSort(init, cmp), y, cmp);
      }
    }
  }

  /** Any stable sorted rearrangement is the reference one. */
  lemma IsStableSort<T(!new)>(s: seq<T>, r: seq<T>, cmp: Comparator<T>)
    requires Sorted(r, cmp) && Stable(s, r, cmp)
    ensures r == StableSort(s, cmp)
  {
    hide IsComparator;
    StableSortCorrect(s, cmp);
    forall x ensures Class(r, x, cmp) == Class(StableSort(s, cmp), x, cmp) {
      assert Class(s, x, cmp) == Class(r, x, cmp);
    }
    SortedUnique(r, StableSort(s, cmp), cmp);
  }

  // ---------- Merging ----------

  /** Merges two sequences; of equal heads the left one goes first. */
  function Merge<T(!new)>(l: seq<T>, r: seq<T>, cmp: Comparator<T>): (m: seq<T>)
    ensures |m| == |l| + |r|
  {
    if l == [] then r
    else if r == [] then l
    else if cmp(l[0], r[0]) <= 0 then [l[0]] + Merge(l[1..], r, cmp)
    else [r[0]] + Merge(l, r[1..], cmp)
  }

  lemma MergeTakes<T(!new)>(l: seq<T>, r: seq<T>, cmp: Comparator<T>)
    ensures l != [] && (r == [] || cmp(l[0], r[0]) <= 0) ==> Merge(l, r, cmp) == [l[0]] + Merge(l[1..], r, cmp)
    ensures r != [] && (l == [] || cmp(l[0], r[0]) > 0) ==> Merge(l, r, cmp) == [r[0]] + Merge(l, r[1..], cmp)
  {
    hide IsComparator;
    if r == [] && l != [] {
      assert Merge(l[1..], r, cmp) == l[1..];
    }
    if l == [] && r != [] {
      assert Merge(l, r[1..], cmp) == r[1..];
    }
  }

  lemma MergeWithNone<T(!new)>(l: seq<T>, r: seq<T>, cmp: Comparator<T>)
    requires l == [] || r == []
    ensures Merge(l, r, cmp) == l + r
  {
    assert l + r == if l == [] then r else l;
  }

  lemma {:induction false} MergeSorted<T(!new)>(l: seq<T>, r: seq<T>, cmp: Comparator<T>)
    requires Sorted(l, cmp) && Sorted(r, cmp)
    ensures Sorted(Merge(l, r, cmp), cmp)
    ensures forall y :: y in Merge(l, r, cmp) <==> y in l || y in r
  {
    hide IsComparator;
    if l != [] && r != [] {
      var h := Merge(l, r, cmp)[0];
      Laws(cmp, l[0], r[0], l[0]);
      assert l == [l[0]] + l[1..] && r == [r[0]] + r[1..];
      if cmp(l[0], r[0]) <= 0 {
        MergeSorted(l[1..], r, cmp);
      } else {
        MergeSorted(l, r[1..], cmp);
      }
      forall y | y in l || y in r ensures cmp(h, y) <= 0 {
        Laws(cmp, l[0], r[0], y);
        Laws(cmp, r[0], l[0], y);
        Laws(cmp, y, y, y);
      }
    }
  }

  lemma {:induction false} MergeClass<T(!new)>(l: seq<T>, r: seq<T>, x: T, cmp: Comparator<T>)
    requires Sorted(l, cmp)
    ensures Class(l + r, x, cmp) == Class(Merge(l, r, cmp), x, cmp)
  {
    hide IsComparator, Class, Merge;
    MergeTakes(l, r, cmp);
    if l == [] || r == [] {
      MergeWithNone(l, r, cmp);
    } else if cmp(l[0], r[0]) <= 0 {
      MergeClass(l[1..], r, x, cmp);
      assert l + r == [l[0]] + (l[1..] + r);
      ClassCons(l[0], l[1..] + r, x, cmp);
      ClassCons(l[0], Merge(l[1..], r, cmp), x, cmp);
    } else {
      MergeClass(l, r[1..], x, cmp);
      assert r == [r[0]] + r[1..];
      ClassConcat(l, r, x, cmp);
      ClassConcat(l, r[1..], x, cmp);
      ClassCons(r[0], r[1..], x, cmp);
      ClassCons(r[0], Merge(l, r[1..], cmp), x, cmp);
      if cmp(r[0], x) == 0 {
        GreaterClass(l, r[0], x, cmp);
      }
    }
  }

  lemma MergeStable<T(!new)>(l: seq<T>, r: seq<T>, cmp: Comparator<T>)
    requires Sorted(l, cmp)
    ensures Stable(l + r, Merge(l, r, cmp), cmp)
  {
    forall x ensures Class(l + r, x, cmp) == Class(Merge(l, r, cmp), x, cmp) {
      MergeClass(l, r, x, cmp);
    }
  }

  /** No element of an ascending sequence equals something smaller than its head. */
  lemma GreaterClass<T(!new)>(l: seq<T>, h: T, x: T, cmp: Comparator<T>)
    requires Sorted(l, cmp) && |l| > 0 && cmp(l[0], h) > 0 && cmp(h, x) == 0
    ensures Class(l, x, cmp) == []
  {
    hide IsComparator;
    ClassMembers(l, x, cmp);
    forall y | y in l ensures cmp(y, x) != 0 {
      Laws(cmp, h, x, y);
      Laws(cmp, y, x, y);
      Laws(cmp, l[0], y, h);
      Laws(cmp, l[0], l[0], l[0]);
    }
    if Class(l, x, cmp) != [] {
      assert Class(l, x, cmp)[0] in Class(l, x, cmp);
    }
  }
}
