/**
 The abstract state of the ordered containers: key-value pairs in ascending key order, with
 the map operations on them and the laws that make them a map up to comparator equality.
 */
module SortedItems {
  import opened Ordering
  import opened Sequences

  ghost predicate Ascending<K(!new), V>(items: seq<(K, V)>, cmp: Comparator<K>) {
    forall i, j | 0 <= i < j < |items| :: cmp(items[i].0, items[j].0) < 0
  }

  /** How many leading keys are smaller than `k`. */
  ghost function Rank<K(!new), V>(items: seq<(K, V)>, k: K, cmp: Comparator<K>): (r: nat)
    ensures r <= |items|
    ensures forall i | 0 <= i < r :: cmp(items[i].0, k) < 0
    ensures r < |items| ==> cmp(items[r].0, k) >= 0
  {
    if items == [] || cmp(items[0].0, k) >= 0 then 0 else 1 + Rank(items[1..], k, cmp)
  }

  ghost predicate Has<K(!new), V>(items: seq<(K, V)>, k: K, cmp: Comparator<K>) {
    var r := Rank(items, k, cmp);
    r < |items| && cmp(items[r].0, k) == 0
  }

  ghost function Find<K(!new), V>(items: seq<(K, V)>, k: K, cmp: Comparator<K>): Option<V> {
    if Has(items, k, cmp) then Some(items[Rank(items, k, cmp)].1) else None
  }

  /** An existing key keeps its key object and gets the new value. */
  ghost function Put<K(!new), V>(items: seq<(K, V)>, k: K, v: V, cmp: Comparator<K>): seq<(K, V)> {
    var r := Rank(items, k, cmp);
    if Has(items, k, cmp) then items[r := (items[r].0, v)] else items[..r] + [(k, v)] + items[r..]
  }

  ghost function Remove<K(!new), V>(items: seq<(K, V)>, k: K, cmp: Comparator<K>): seq<(K, V)> {
    var r := Rank(items, k, cmp);
    if Has(items, k, cmp) then Without(items, r) else items
  }

  /** In ascending items the position of a key is determined by its neighbours. */
  lemma RankIs<K(!new), V>(items: seq<(K, V)>, k: K, cmp: Comparator<K>, r: nat)
    requires Ascending(items, cmp) && r <= |items|
    requires r > 0 ==> cmp(items[r - 1].0, k) < 0
    requires r < |items| ==> cmp(items[r].0, k) >= 0
    ensures Rank(items, k, cmp) == r
  {
    hide IsComparator;
    var q := Rank(items, k, cmp);
    if q < r {
      Laws(cmp, items[q].0, items[r - 1].0, k);
    }
  }

  /** One comparison decides for all items on one side. */
  lemma Beyond<K(!new), V>(items: seq<(K, V)>, k: K, cmp: Comparator<K>, i: nat)
    requires Ascending(items, cmp) && i < |items|
    ensures cmp(k, items[i].0) < 0 ==> forall j | i <= j < |items| :: cmp(k, items[j].0) < 0
    ensures cmp(k, items[i].0) > 0 ==> forall j | 0 <= j <= i :: cmp(k, items[j].0) > 0
  {
    hide IsComparator;
    forall j | 0 <= j < |items|
      ensures cmp(k, items[i].0) < 0 && i <= j ==> cmp(k, items[j].0) < 0
      ensures cmp(k, items[i].0) > 0 && j <= i ==> cmp(k, items[j].0) > 0
    {
      Laws(cmp, k, items[i].0, items[j].0);
      Laws(cmp, items[j].0, items[i].0, k);
    }
  }

  /** The search for `k` has narrowed down to positions `lo` to `hi`. */
  ghost predicate Between<K(!new), V>(items: seq<(K, V)>, k: K, lo: int, hi: int, cmp: Comparator<K>) {
    && 0 <= lo <= hi <= |items|
    && (forall j | 0 <= j < lo :: cmp(k, items[j].0) > 0)
    && (forall j | hi <= j < |items| :: cmp(k, items[j].0) < 0)
  }

  lemma Narrowed<K(!new), V>(items: seq<(K, V)>, k: K, lo: int, hi: int, i: nat, cmp: Comparator<K>)
    requires Ascending(items, cmp) && Between(items, k, lo, hi, cmp) && lo <= i < hi
    ensures cmp(k, items[i].0) < 0 ==> Between(items, k, lo, i, cmp)
    ensures cmp(k, items[i].0) > 0 ==> Between(items, k, i + 1, hi, cmp)
  {
    hide IsComparator;
    Beyond(items, k, cmp, i);
  }

  lemma NotFound<K(!new), V>(items: seq<(K, V)>, k: K, lo: int, cmp: Comparator<K>)
    requires Ascending(items, cmp) && Between(items, k, lo, lo, cmp)
    ensures Rank(items, k, cmp) == lo && !Has(items, k, cmp)
  {
    hide IsComparator;
    if lo > 0 {
      Laws(cmp, items[lo - 1].0, k, k);
    }
    if lo < |items| {
      Laws(cmp, k, items[lo].0, k);
    }
    RankIs(items, k, cmp, lo);
  }

  lemma RankMono<K(!new), V>(items: seq<(K, V)>, a: K, b: K, cmp: Comparator<K>)
    requires Ascending(items, cmp) && cmp(a, b) <= 0
    ensures Rank(items, a, cmp) <= Rank(items, b, cmp)
  {
    hide IsComparator;
    var r := Rank(items, b, cmp);
    if r < Rank(items, a, cmp) {
      Laws(cmp, items[r].0, a, b);
    }
  }

  lemma PutAscending<K(!new), V>(items: seq<(K, V)>, k: K, v: V, cmp: Comparator<K>)
    requires Ascending(items, cmp)
    ensures Ascending(Put(items, k, v, cmp), cmp)
  {
    hide IsComparator;
    var r, after := Rank(items, k, cmp), Put(items, k, v, cmp);
    if !Has(items, k, cmp) {
      forall i, j | 0 <= i < j < |after| ensures cmp(after[i].0, after[j].0) < 0 {
        if i == r {
          Laws(cmp, k, items[r].0, items[j - 1].0);
        }
      }
    }
  }

  lemma RemoveAscendingAt<K(!new), V>(items: seq<(K, V)>, i: nat, cmp: Comparator<K>)
    requires Ascending(items, cmp) && i < |items|
    ensures Ascending(Without(items, i), cmp)
  {
    hide IsComparator;
  }

  lemma RemoveAscending<K(!new), V>(items: seq<(K, V)>, k: K, cmp: Comparator<K>)
    requires Ascending(items, cmp)
    ensures Ascending(Remove(items, k, cmp), cmp)
  {
    hide IsComparator;
  }

  /** A key is found exactly when some item carries an equal one. */
  lemma FindSome<K(!new), V>(items: seq<(K, V)>, k: K, cmp: Comparator<K>, i: nat)
    requires Ascending(items, cmp) && i < |items| && cmp(items[i].0, k) == 0
    ensures Has(items, k, cmp) && Rank(items, k, cmp) == i && Find(items, k, cmp) == Some(items[i].1)
  {
    hide IsComparator;
    if i > 0 {
      Laws(cmp, items[i - 1].0, items[i].0, k);
    }
    RankIs(items, k, cmp, i);
  }

  /** Put is map update: equal keys see the new value, all other keys what they saw before. */
  lemma FindPut<K(!new), V>(items: seq<(K, V)>, k: K, v: V, k': K, cmp: Comparator<K>)
    requires Ascending(items, cmp)
    ensures Find(Put(items, k, v, cmp), k', cmp) == if cmp(k, k') == 0 then Some(v) else Find(items, k', cmp)
  {
    hide IsComparator;
    var r, after := Rank(items, k, cmp), Put(items, k, v, cmp);
    var shift := if Has(items, k, cmp) then 0 else 1;
    PutAscending(items, k, v, cmp);
    if Has(items, k, cmp) {
      Laws(cmp, items[r].0, k, k');
    }
    if cmp(k, k') == 0 {
      FindSome(after, k', cmp, r);
    } else if Has(items, k', cmp) {
      var i := Rank(items, k', cmp);
      FindSome(after, k', cmp, if i < r then i else i + shift);
    } else if Has(after, k', cmp) {
      var i := Rank(after, k', cmp);
      FindSome(items, k', cmp, if i < r then i else i - shift);
    }
  }

  /** Put leaves the items of other keys alone, and an existing key keeps its key object. */
  lemma PutKeys<K(!new), V>(items: seq<(K, V)>, k: K, v: V, cmp: Comparator<K>)
    requires Ascending(items, cmp)
    ensures var after := Put(items, k, v, cmp);
      && (forall x: (K, V) | cmp(x.0, k) != 0 :: x in after <==> x in items)
      && (forall x, y | x in items && y in after && cmp(x.0, k) == 0 && cmp(y.0, k) == 0 :: y == (x.0, v))
  {
    hide IsComparator, Rank;
    var r, after := Rank(items, k, cmp), Put(items, k, v, cmp);
    Laws(cmp, k, k, k);
    PutAscending(items, k, v, cmp);
    forall x | x in items && cmp(x.0, k) == 0 ensures Has(items, k, cmp) && x == items[r] {
      var i :| 0 <= i < |items| && items[i] == x;
      FindSome(items, k, cmp, i);
    }
    forall y | y in after && cmp(y.0, k) == 0 ensures y == after[r] {
      var i :| 0 <= i < |after| && after[i] == y;
      FindSome(after, k, cmp, i);
    }
    forall x: (K, V) | cmp(x.0, k) != 0 ensures x in after <==> x in items {
      if x in items {
        var i :| 0 <= i < |items| && items[i] == x;
        assert after[if i < r || Has(items, k, cmp) then i else i + 1] == x;
      }
    }
  }

  /** Remove forgets the key and nothing else. */
  lemma FindRemove<K(!new), V>(items: seq<(K, V)>, k: K, k': K, cmp: Comparator<K>)
    requires Ascending(items, cmp)
    ensures Find(Remove(items, k, cmp), k', cmp) == if cmp(k, k') == 0 then None else Find(items, k', cmp)
  {
    hide IsComparator, Rank, Ascending;
    var r, after := Rank(items, k, cmp), Remove(items, k, cmp);
    var shift := if Has(items, k, cmp) then 1 else 0;
    RemoveAscending(items, k, cmp);
    if Has(after, k', cmp) {
      var i := Rank(after, k', cmp);
      var j := if i < r then i else i + shift;
      Laws(cmp, k, k', items[j].0);
      Laws(cmp, items[j].0, k', k);
      FindSome(items, k', cmp, j);
      if cmp(k, k') == 0 {
        FindSome(items, k, cmp, j);
      }
    } else if cmp(k, k') != 0 && Has(items, k', cmp) {
      var i := Rank(items, k', cmp);
      Laws(cmp, items[i].0, k, k');
      FindSome(after, k', cmp, if i < r then i else i - shift);
    }
  }

  // ---------- Nearest keys ----------

  datatype Tie = Low | High

  /** Items before position `c` belong left of `k`, the others right; equal keys count as `tie` says. */
  ghost predicate Cut<K(!new), V>(items: seq<(K, V)>, k: K, lo: int, hi: int, tie: Tie, cmp: Comparator<K>) {
    && 0 <= lo <= hi <= |items|
    && (forall j | 0 <= j < lo :: if tie == Low then cmp(k, items[j].0) >= 0 else cmp(k, items[j].0) > 0)
    && (forall j | hi <= j < |items| :: if tie == Low then cmp(k, items[j].0) < 0 else cmp(k, items[j].0) <= 0)
  }

  lemma CutNarrowed<K(!new), V>(items: seq<(K, V)>, k: K, lo: int, hi: int, i: nat, tie: Tie, cmp: Comparator<K>)
    requires Ascending(items, cmp) && Cut(items, k, lo, hi, tie, cmp) && lo <= i < hi
    ensures (if tie == Low then cmp(k, items[i].0) < 0 else cmp(k, items[i].0) <= 0) ==> Cut(items, k, lo, i, tie, cmp)
    ensures (if tie == Low then cmp(k, items[i].0) >= 0 else cmp(k, items[i].0) > 0) ==>
      Cut(items, k, i + 1, hi, tie, cmp)
  {
    hide IsComparator;
    forall j | 0 <= j < |items| && j != i
      ensures j > i ==> cmp(items[i].0, items[j].0) < 0 && (cmp(k, items[i].0) <= 0 ==> cmp(k, items[j].0) < 0)
      ensures j < i ==> cmp(items[j].0, items[i].0) < 0 && (cmp(k, items[i].0) >= 0 ==> cmp(k, items[j].0) > 0)
    {
      Laws(cmp, k, items[i].0, items[j].0);
      Laws(cmp, items[j].0, items[i].0, k);
    }
  }

  /** How many leading items belong left of `k`. */
  ghost function CutPoint<K(!new), V>(items: seq<(K, V)>, k: K, tie: Tie, cmp: Comparator<K>): (c: nat)
    ensures c <= |items|
  {
    if items == [] || cmp(k, items[0].0) < 0 || (tie == High && cmp(k, items[0].0) == 0) then 0
    else 1 + CutPoint(items[1..], k, tie, cmp)
  }

  lemma {:induction false} CutPointIs<K(!new), V>(items: seq<(K, V)>, k: K, c: int, tie: Tie, cmp: Comparator<K>)
    requires Cut(items, k, c, c, tie, cmp)
    ensures CutPoint(items, k, tie, cmp) == c
  {
    hide IsComparator;
    if c > 0 {
      assert forall j | 0 <= j < |items| - 1 :: items[1..][j] == items[j + 1];
      CutPointIs(items[1..], k, c - 1, tie, cmp);
    }
  }

  /** The items before the cut are the ones with keys below `k`, or up to `k`. */
  lemma {:induction false} CutMeans<K(!new), V>(items: seq<(K, V)>, k: K, tie: Tie, cmp: Comparator<K>)
    requires Ascending(items, cmp)
    ensures Cut(items, k, CutPoint(items, k, tie, cmp), CutPoint(items, k, tie, cmp), tie, cmp)
    ensures tie == High ==> CutPoint(items, k, tie, cmp) == Rank(items, k, cmp)
  {
    hide IsComparator, Ascending, Rank;
    var lo, hi := 0, |items|;
    while lo < hi
      invariant Cut(items, k, lo, hi, tie, cmp)
    {
      CutNarrowed(items, k, lo, hi, lo, tie, cmp);
      if if tie == Low then cmp(k, items[lo].0) >= 0 else cmp(k, items[lo].0) > 0 {
        lo := lo + 1;
      } else {
        hi := lo;
      }
    }
    CutPointIs(items, k, lo, tie, cmp);
    if tie == High {
      if lo > 0 {
        Laws(cmp, items[lo - 1].0, k, k);
      }
      if lo < |items| {
        Laws(cmp, k, items[lo].0, k);
      }
      RankIs(items, k, cmp, lo);
    }
  }

  /** The item at position `i`, if there is one. */
  ghost function Nth<K, V>(items: seq<(K, V)>, i: int): Option<(K, V)> {
    if 0 <= i < |items| then Some(items[i]) else None
  }

  ghost function Slice<T>(s: seq<T>, i: nat, j: nat): seq<T>
    requires i <= j <= |s|
  {
    s[i..j]
  }

  /** The members at the positions for which there is room. */
  ghost function Granted<T>(s: seq<T>, room: int -> bool): seq<T> {
    if s == [] then []
    else
      var n := |s| - 1;
      if room(n) then Granted(s[..n], room) + [s[n]] else Granted(s[..n], room)
  }

  lemma AscendingLast<K(!new), V>(items: seq<(K, V)>, x: (K, V), cmp: Comparator<K>)
    ensures Ascending(items + [x], cmp) <==> Ascending(items, cmp) && forall y | y in items :: cmp(y.0, x.0) < 0
  {
    hide IsComparator;
    var more := items + [x];
    if Ascending(more, cmp) {
      forall i, j | 0 <= i < j < |items| ensures cmp(items[i].0, items[j].0) < 0 {
        assert more[i] == items[i] && more[j] == items[j];
      }
      forall y | y in items ensures cmp(y.0, x.0) < 0 {
        var i :| 0 <= i < |items| && items[i] == y;
        assert more[i] == y && more[|items|] == x;
      }
    }
  }

  lemma {:induction false} GrantedAscending<K(!new), V>(items: seq<(K, V)>, room: int -> bool, cmp: Comparator<K>)
    requires Ascending(items, cmp)
    ensures Ascending(Granted(items, room), cmp) && forall x :: x in Granted(items, room) ==> x in items
    ensures (forall i | 0 <= i < |items| :: room(i)) ==> Granted(items, room) == items
  {
    hide IsComparator, Ascending;
    if items != [] {
      var n := |items| - 1;
      var init, rest := items[..n], Granted(items[..n], room);
      assert items == init + [items[n]];
      AscendingLast(init, items[n], cmp);
      GrantedAscending(init, room, cmp);
      AscendingLast(rest, items[n], cmp);
    }
  }

  /** An item behind all others is put at the end. */
  lemma PutLast<K(!new), V>(items: seq<(K, V)>, k: K, v: V, cmp: Comparator<K>)
    requires Ascending(items, cmp) && forall x | x in items :: cmp(x.0, k) < 0
    ensures Put(items, k, v, cmp) == items + [(k, v)] && Find(items, k, cmp) == None
  {
    hide IsComparator, Rank;
    RankIs(items, k, cmp, |items|);
    assert items[..|items|] == items && items[|items|..] == [];
  }

  lemma SliceAscending<K(!new), V>(items: seq<(K, V)>, i: nat, j: nat, cmp: Comparator<K>)
    requires Ascending(items, cmp) && i <= j <= |items|
    ensures Ascending(Slice(items, i, j), cmp)
  {
    hide IsComparator;
    var part := items[i..j];
    forall a, b | 0 <= a < b < |part| ensures cmp(part[a].0, part[b].0) < 0 {
      assert part[a] == items[i + a] && part[b] == items[i + b];
    }
  }

  /** Putting the next item of an ascending sequence extends what a slice of it has left, if there is room. */
  lemma PutNext<K(!new), V>(items: seq<(K, V)>, i: nat, j: nat, room: int -> bool, cmp: Comparator<K>)
    requires Ascending(items, cmp) && i <= j < |items|
    ensures Granted(Slice(items, j, j), room) == []
    ensures var part := Granted(Slice(items, i, j), room);
      && Find(part, items[j].0, cmp) == None
      && Granted(Slice(items, i, j + 1), room) == if room(j - i) then Put(part, items[j].0, items[j].1, cmp) else part
  {
    hide IsComparator, Rank, Put, Find, Ascending;
    var part, more := Slice(items, i, j), Slice(items, i, j + 1);
    assert more == part + [items[j]] && more[..j - i] == part;
    SliceAscending(items, i, j, cmp);
    SliceAscending(items, i, j + 1, cmp);
    AscendingLast(part, items[j], cmp);
    GrantedAscending(part, room, cmp);
    PutLast(Granted(part, room), items[j].0, items[j].1, cmp);
  }
}
