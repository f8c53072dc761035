/** What hash sets and tree sets have in common: deleting sweeps, and the collections they are combined with. */
module SetAlgebra {
  import opened Ordering
  import opened Sequences

  // ---------- Sweeps ----------

  /** The nodes that are not doomed, in order. */
  ghost function Kept<E>(ns: seq<E>, doomed: E -> bool): (r: seq<E>)
    ensures |r| <= |ns|
  {
    if ns == [] then []
    else
      var rest, n := Kept(ns[..|ns| - 1], doomed), ns[|ns| - 1];
      if doomed(n) then rest else rest + [n]
  }

  /** The sweep has dealt with the first `k` nodes and left the others alone; `i` are kept so far. */
  ghost predicate Swept<E>(all: seq<E>, k: nat, i: nat, doomed: E -> bool, now: seq<E>) {
    k <= |all| && now == Kept(all[..k], doomed) + all[k..] && i == |Kept(all[..k], doomed)|
  }

  lemma SweepStarts<E>(all: seq<E>, doomed: E -> bool)
    ensures Swept(all, 0, 0, doomed, all)
  {
    assert all[..0] == [] && all[0..] == all;
  }

  lemma SweepStep<E>(all: seq<E>, k: nat, i: nat, doomed: E -> bool, now: seq<E>)
    requires Swept(all, k, i, doomed, now) && k < |all|
    ensures i < |now| && now[i] == all[k] && i <= k && |now| - i == |all| - k
    ensures i + 1 < |now| ==> k + 1 < |all| && now[i + 1] == all[k + 1]
    ensures doomed(all[k]) ==> Swept(all, k + 1, i, doomed, Without(now, i))
    ensures |Without(now, i)| == |now| - 1 && forall l | 0 <= l < i :: Without(now, i)[l] == now[l]
    ensures !doomed(all[k]) ==> Swept(all, k + 1, i + 1, doomed, now)
  {
    assert all[..k + 1][..k] == all[..k];
    var kept := Kept(all[..k], doomed);
    assert Without(now, i) == kept + all[k + 1..];
    assert now == kept + [all[k]] + all[k + 1..];
  }

  lemma SweepEnds<E>(all: seq<E>, i: nat, doomed: E -> bool, now: seq<E>)
    requires Swept(all, |all|, i, doomed, now)
    ensures now == Kept(all, doomed) && i == |now|
  {
    assert all[..|all|] == all && all[|all|..] == [];
  }

  lemma {:induction false} KeptMembers<E>(ns: seq<E>, doomed: E -> bool)
    ensures forall n | n in Kept(ns, doomed) :: n in ns && !doomed(n)
    ensures forall n | n in ns && !doomed(n) :: n in Kept(ns, doomed)
  {
    if ns != [] {
      KeptMembers(ns[..|ns| - 1], doomed);
      assert ns == ns[..|ns| - 1] + [ns[|ns| - 1]];
    }
  }

  // ---------- Collections ----------

  /** A source collection: what its iterator delivers, and its membership test. */
  datatype Collection<!K(!new)> = Collection(elements: seq<K>, contains: K -> bool)

  ghost predicate In<K(!new)>(equals: (K, K) -> bool, xs: seq<K>, k: K) {
    exists x | x in xs :: equals(x, k)
  }

  /** The membership test agrees with the delivered elements under the equality of the result. */
  ghost predicate Faithful<K(!new)>(c: Collection<K>, equals: (K, K) -> bool) {
    forall k :: c.contains(k) <==> In(equals, c.elements, k)
  }

  ghost predicate Respects<K(!new)>(equals: (K, K) -> bool, doomed: K -> bool) {
    forall a, b :: equals(a, b) ==> doomed(a) == doomed(b)
  }

  lemma FaithfulRespects<K(!new)>(c: Collection<K>, equals: (K, K) -> bool)
    requires Equivalence(equals) && Faithful(c, equals)
    ensures Respects(equals, c.contains) && Respects(equals, k => !c.contains(k))
  {
    forall a, b | equals(a, b) ensures c.contains(a) == c.contains(b) {
      assert equals(b, a);
      assert forall x :: equals(x, a) ==> equals(x, b);
      assert forall x :: equals(x, b) ==> equals(x, a);
    }
  }

  lemma InNothing<K(!new)>(equals: (K, K) -> bool)
    ensures forall k :: !In(equals, [], k)
  {
  }

  lemma InJoined<K(!new)>(equals: (K, K) -> bool, xs: seq<K>, ys: seq<K>)
    ensures forall k :: In(equals, xs + ys, k) <==> In(equals, xs, k) || In(equals, ys, k)
  {
    forall k ensures In(equals, xs + ys, k) <==> In(equals, xs, k) || In(equals, ys, k) {
      if x :| x in xs + ys && equals(x, k) {
        assert x in xs || x in ys;
      }
      if x :| (x in xs || x in ys) && equals(x, k) {
        assert x in xs + ys;
      }
    }
  }
}
