/** Comparators, as the containers receive them: an integer whose sign orders two values. */
module Ordering {

  /** The sign conventions of a total preorder. */
  ghost predicate IsComparator<T(!new)>(cmp: (T, T) -> int) {
    && (forall x :: cmp(x, x) == 0)
    && (forall x, y :: cmp(x, y) < 0 <==> cmp(y, x) > 0)
    && (forall x, y, z :: cmp(x, y) <= 0 && cmp(y, z) <= 0 ==> cmp(x, z) <= 0)
  }

  type Comparator<!T(!new)> = cmp: (T, T) -> int | IsComparator(cmp) witness (x: T, y: T) => 0

  /** The laws for three given values. Proofs hide `IsComparator` and ask for the instances they need. */
  lemma Laws<T(!new)>(cmp: Comparator<T>, a: T, b: T, c: T)
    ensures cmp(a, b) < 0 <==> cmp(b, a) > 0
    ensures cmp(b, c) < 0 <==> cmp(c, b) > 0
    ensures cmp(a, c) < 0 <==> cmp(c, a) > 0
    ensures cmp(a, b) <= 0 && cmp(b, c) <= 0 ==> cmp(a, c) <= 0
    ensures cmp(a, b) < 0 && cmp(b, c) <= 0 ==> cmp(a, c) < 0
    ensures cmp(a, b) <= 0 && cmp(b, c) < 0 ==> cmp(a, c) < 0
    ensures cmp(a, b) == 0 ==> (cmp(a, c) < 0 <==> cmp(b, c) < 0) && (cmp(a, c) == 0 <==> cmp(b, c) == 0)
  {
    assert cmp(b, a) <= 0 && cmp(a, c) <= 0 ==> cmp(b, c) <= 0;
    assert cmp(c, a) <= 0 && cmp(a, b) <= 0 ==> cmp(c, b) <= 0;
    assert cmp(c, b) <= 0 && cmp(b, a) <= 0 ==> cmp(c, a) <= 0;
    assert cmp(b, c) <= 0 && cmp(c, a) <= 0 ==> cmp(b, a) <= 0;
  }

  ghost predicate Equivalence<T(!new)>(equals: (T, T) -> bool) {
    && (forall a :: equals(a, a))
    && (forall a, b :: equals(a, b) ==> equals(b, a))
    && (forall a, b, c :: equals(a, b) && equals(b, c) ==> equals(a, c))
  }

  /** What a comparator does not tell apart. */
  ghost function Ties<T(!new)>(cmp: Comparator<T>): (T, T) -> bool {
    (a, b) => cmp(a, b) == 0
  }

  lemma TiesAreEquivalence<T(!new)>(cmp: Comparator<T>)
    ensures Equivalence(Ties(cmp))
  {
    forall a, b, c ensures Ties(cmp)(a, b) && Ties(cmp)(b, c) ==> Ties(cmp)(a, c) {
      Laws(cmp, a, b, c);
      Laws(cmp, c, b, a);
    }
  }
}
