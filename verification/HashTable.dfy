/**
 Hash tables as values: a power of two of chains of key-value pairs. A table stands for a map from
 keys, up to the given equality, to values.
 */
module HashTables {
  import opened Bits
  import opened Sequences

  datatype Hashing<!K(!new)> = Hashing(hash: K -> nat, equals: (K, K) -> bool)

  /** Equality is an equivalence, and equal keys have equal hashes. */
  ghost predicate Coherent<K(!new)>(h: Hashing<K>) {
    && (forall a :: h.equals(a, a))
    && (forall a, b :: h.equals(a, b) ==> h.equals(b, a) && h.hash(a) == h.hash(b))
    && (forall a, b, c :: h.equals(a, b) && h.equals(b, c) ==> h.equals(a, c))
  }

  lemma EqualsLaws<K(!new)>(h: Hashing<K>, a: K, b: K, c: K)
    requires Coherent(h)
    ensures h.equals(a, a) && (h.equals(a, b) <==> h.equals(b, a)) && (h.equals(a, b) ==> h.hash(a) == h.hash(b))
    ensures h.equals(a, b) ==> (h.equals(a, c) <==> h.equals(b, c))
  {
    assert h.equals(a, b) && h.equals(b, c) ==> h.equals(a, c);
    assert h.equals(b, a) && h.equals(a, c) ==> h.equals(b, c);
  }

  function Bucket(hash: nat, capacity: nat): (i: nat)
    requires capacity > 0
    ensures i < capacity
  {
    And(hash, capacity - 1)
  }

  type Chain<K, V> = seq<(K, V)>
  type Table<K, V> = seq<Chain<K, V>>

  /** The first pair with an equal key, or the length of the chain. */
  ghost function Position<K(!new), V>(h: Hashing<K>, chain: Chain<K, V>, k: K): (j: nat)
    ensures j <= |chain| && (j < |chain| ==> h.equals(chain[j].0, k))
    ensures forall i | 0 <= i < j :: !h.equals(chain[i].0, k)
  {
    if chain == [] || h.equals(chain[0].0, k) then 0 else 1 + Position(h, chain[1..], k)
  }

  lemma PositionIs<K(!new), V>(h: Hashing<K>, chain: Chain<K, V>, k: K, j: nat)
    requires j <= |chain| && (j < |chain| ==> h.equals(chain[j].0, k))
      && forall i | 0 <= i < j :: !h.equals(chain[i].0, k)
    ensures Position(h, chain, k) == j
  {
  }

  ghost function InChain<K(!new), V>(h: Hashing<K>, chain: Chain<K, V>, k: K): Option<V> {
    var j := Position(h, chain, k);
    if j < |chain| then Some(chain[j].1) else None
  }

  /** The value the table holds for a key. */
  ghost function Lookup<K(!new), V>(h: Hashing<K>, table: Table<K, V>, k: K): Option<V>
    requires |table| > 0
  {
    InChain(h, table[Bucket(h.hash(k), |table|)], k)
  }

  /** All keys of the chain belong to bucket `i`, and no two of them are equal. */
  ghost predicate Sound<K(!new), V>(h: Hashing<K>, chain: Chain<K, V>, i: nat, capacity: nat)
    requires capacity > 0
  {
    && (forall j | 0 <= j < |chain| :: Bucket(h.hash(chain[j].0), capacity) == i)
    && (forall j, l | 0 <= j < l < |chain| :: !h.equals(chain[j].0, chain[l].0))
  }

  /** Each key sits once, in the bucket its hash masks to. */
  ghost predicate Placed<K(!new), V>(h: Hashing<K>, table: Table<K, V>) {
    && |table| > 0 && IsPowerOfTwo(|table|)
    && forall i | 0 <= i < |table| :: Sound(h, table[i], i, |table|)
  }

  ghost function Count<K, V>(table: Table<K, V>): nat {
    if table == [] then 0 else Count(table[..|table| - 1]) + |table[|table| - 1]|
  }

  lemma {:induction false} CountChange<K, V>(table: Table<K, V>, i: nat, chain: Chain<K, V>)
    requires i < |table|
    ensures Count(table[i := chain]) == Count(table) - |table[i]| + |chain| && |table[i]| <= Count(table)
  {
    var n := |table| - 1;
    if i < n {
      CountChange(table[..n], i, chain);
      assert table[i := chain][..n] == table[..n][i := chain];
    } else {
      assert table[i := chain][..n] == table[..n];
    }
  }

  /** Lookups agree with `m` except that keys equal to `k` give `v`. */
  ghost predicate Changed<K(!new), V>(h: Hashing<K>, table: Table<K, V>, table': Table<K, V>, k: K, v: Option<V>)
    requires |table| > 0 && |table'| > 0
  {
    forall k' :: Lookup(h, table', k') == if h.equals(k, k') then v else Lookup(h, table, k')
  }

  /** Changing one chain only for keys equal to `k` changes the table only for them. */
  lemma ChainChange<K(!new), V>(h: Hashing<K>, table: Table<K, V>, i: nat, chain: Chain<K, V>, k: K, v: Option<V>)
    requires Coherent(h) && Placed(h, table) && i == Bucket(h.hash(k), |table|) && Sound(h, chain, i, |table|)
    requires forall k' :: InChain(h, chain, k') == if h.equals(k, k') then v else InChain(h, table[i], k')
    ensures Placed(h, table[i := chain]) && Changed(h, table, table[i := chain], k, v)
  {
    forall k' ensures Lookup(h, table[i := chain], k') == if h.equals(k, k') then v else Lookup(h, table, k') {
      EqualsLaws(h, k, k', k);
    }
  }

  /** A new pair goes in front of its chain. */
  lemma PutNew<K(!new), V>(h: Hashing<K>, table: Table<K, V>, k: K, v: V)
    requires Coherent(h) && Placed(h, table) && Lookup(h, table, k) == None
    ensures var i := Bucket(h.hash(k), |table|); var table' := table[i := [(k, v)] + table[i]];
      Placed(h, table') && Changed(h, table, table', k, Some(v)) && Count(table') == Count(table) + 1
  {
    var i := Bucket(h.hash(k), |table|);
    var chain := [(k, v)] + table[i];
    forall k' ensures InChain(h, chain, k') == if h.equals(k, k') then Some(v) else InChain(h, table[i], k') {
      assert chain[1..] == table[i];
    }
    forall j, l | 0 <= j < l < |chain| ensures !h.equals(chain[j].0, chain[l].0) {
      EqualsLaws(h, k, chain[l].0, k);
    }
    ChainChange(h, table, i, chain, k, Some(v));
    CountChange(table, i, chain);
  }

  /** Positions in a sound chain are unique. */
  lemma OnlyPosition<K(!new), V>(h: Hashing<K>, chain: Chain<K, V>, i: nat, capacity: nat, j: nat, k: K)
    requires Coherent(h) && capacity > 0 && Sound(h, chain, i, capacity) && j < |chain| && h.equals(chain[j].0, k)
    ensures Position(h, chain, k) == j
  {
    forall l | 0 <= l < j ensures !h.equals(chain[l].0, k) {
      EqualsLaws(h, chain[l].0, k, chain[j].0);
      EqualsLaws(h, chain[j].0, k, k);
    }
    PositionIs(h, chain, k, j);
  }

  /** An existing pair keeps its key and gets the new value. */
  lemma PutExisting<K(!new), V>(h: Hashing<K>, table: Table<K, V>, k: K, j: nat, v: V)
    requires Coherent(h) && Placed(h, table)
    requires var i := Bucket(h.hash(k), |table|); j < |table[i]| && h.equals(table[i][j].0, k)
    ensures var i := Bucket(h.hash(k), |table|); var table' := table[i := table[i][j := (table[i][j].0, v)]];
      Placed(h, table') && Changed(h, table, table', k, Some(v)) && Count(table') == Count(table)
  {
    var i := Bucket(h.hash(k), |table|);
    var chain := table[i][j := (table[i][j].0, v)];
    forall k' ensures InChain(h, chain, k') == if h.equals(k, k') then Some(v) else InChain(h, table[i], k') {
      EqualsLaws(h, table[i][j].0, k, k');
      if h.equals(k, k') {
        OnlyPosition(h, chain, i, |table|, j, k');
      } else {
        PositionIs(h, chain, k', Position(h, table[i], k'));
      }
    }
    ChainChange(h, table, i, chain, k, Some(v));
    CountChange(table, i, chain);
  }

  lemma RemoveFromChain<K(!new), V>(h: Hashing<K>, chain: Chain<K, V>, i: nat, capacity: nat, k: K, j: nat)
    requires Coherent(h) && capacity > 0 && Sound(h, chain, i, capacity) && j < |chain| && h.equals(chain[j].0, k)
    ensures Sound(h, Without(chain, j), i, capacity)
    ensures forall k' :: InChain(h, Without(chain, j), k') == if h.equals(k, k') then None else InChain(h, chain, k')
  {
    hide Coherent;
    var chain' := Without(chain, j);
    assert forall l | 0 <= l < |chain'| :: chain'[l] == chain[if l < j then l else l + 1];
    forall k' ensures InChain(h, chain', k') == if h.equals(k, k') then None else InChain(h, chain, k') {
      EqualsLaws(h, chain[j].0, k, k');
      if h.equals(k, k') {
        OnlyPosition(h, chain, i, capacity, j, k');
        forall l | 0 <= l < |chain'| ensures !h.equals(chain'[l].0, k') {
          if h.equals(chain'[l].0, k') {
            OnlyPosition(h, chain, i, capacity, if l < j then l else l + 1, k');
          }
        }
        PositionIs(h, chain', k', |chain'|);
      } else {
        var p := Position(h, chain, k');
        PositionIs(h, chain', k', if p < j then p else p - 1);
      }
    }
  }

  lemma RemoveExisting<K(!new), V>(h: Hashing<K>, table: Table<K, V>, k: K, j: nat)
    requires Coherent(h) && Placed(h, table)
    requires var i := Bucket(h.hash(k), |table|); j < |table[i]| && h.equals(table[i][j].0, k)
    ensures var i := Bucket(h.hash(k), |table|); var table' := table[i := Without(table[i], j)];
      Placed(h, table') && Changed(h, table, table', k, None) && Count(table') == Count(table) - 1
  {
    hide Sound, Coherent, InChain;
    var i := Bucket(h.hash(k), |table|);
    RemoveFromChain(h, table[i], i, |table|, k, j);
    ChainChange(h, table, i, Without(table[i], j), k, None);
    CountChange(table, i, Without(table[i], j));
  }

  /** Removing an absent key changes nothing. */
  lemma AbsentUnchanged<K(!new), V>(h: Hashing<K>, table: Table<K, V>, k: K)
    requires Coherent(h) && |table| > 0 && Lookup(h, table, k) == None
    ensures Changed(h, table, table, k, None)
  {
    forall k' ensures h.equals(k, k') ==> Lookup(h, table, k') == None {
      if h.equals(k, k') {
        LookupEqual(h, table, k, k');
      }
    }
  }

  /** A change for one key is the change for any equal key. */
  lemma EqualChange<K(!new), V>(h: Hashing<K>, table: Table<K, V>, table': Table<K, V>, a: K, b: K, v: Option<V>)
    requires Coherent(h) && |table| > 0 && |table'| > 0 && h.equals(a, b) && Changed(h, table, table', a, v)
    ensures Changed(h, table, table', b, v)
  {
    hide Lookup, Coherent;
    forall k' ensures Lookup(h, table', k') == if h.equals(b, k') then v else Lookup(h, table, k') {
      EqualsLaws(h, a, b, k');
    }
  }

  // ---------- Growth ----------

  /** No key is in both tables, and together they answer as `table` does. */
  ghost predicate Splits<K(!new), V>(h: Hashing<K>, table: Table<K, V>, moved: Table<K, V>, rest: Table<K, V>)
    requires |table| > 0 && |moved| > 0 && |rest| > 0
  {
    && (forall k :: Lookup(h, moved, k) == None || Lookup(h, rest, k) == None)
    && (forall k :: Lookup(h, table, k) ==
         if Lookup(h, moved, k) == None then Lookup(h, rest, k) else Lookup(h, moved, k))
    && Count(table) == Count(moved) + Count(rest)
  }

  /** Equal keys find the same value. */
  lemma LookupEqual<K(!new), V>(h: Hashing<K>, table: Table<K, V>, a: K, b: K)
    requires Coherent(h) && |table| > 0 && h.equals(a, b)
    ensures Lookup(h, table, a) == Lookup(h, table, b)
  {
    EqualsLaws(h, a, b, a);
    var chain := table[Bucket(h.hash(a), |table|)];
    var j := Position(h, chain, a);
    forall c ensures h.equals(c, a) <==> h.equals(c, b) {
      EqualsLaws(h, a, b, c);
      EqualsLaws(h, a, c, c);
      EqualsLaws(h, b, c, c);
    }
    PositionIs(h, chain, b, j);
  }

  lemma SplitsOn<K(!new), V>(h: Hashing<K>, table: Table<K, V>, moved: Table<K, V>, rest: Table<K, V>,
                             moved': Table<K, V>, rest': Table<K, V>, k: K, v: V)
    requires Coherent(h) && |table| > 0 && |moved| > 0 && |rest| > 0 && |moved'| > 0 && |rest'| > 0
    requires Splits(h, table, moved, rest) && Lookup(h, rest, k) == Some(v)
    requires Changed(h, moved, moved', k, Some(v)) && Changed(h, rest, rest', k, None)
    requires Count(moved') == Count(moved) + 1 && Count(rest') == Count(rest) - 1
    ensures Splits(h, table, moved', rest')
  {
    hide Lookup, Coherent, Count;
    assert Lookup(h, table, k) == Some(v);
    forall k' | h.equals(k, k') ensures Lookup(h, table, k') == Some(v) {
      LookupEqual(h, table, k, k');
    }
  }

  /** Moving the head of a chain over to the grown table changes no lookup and loses no pair. */
  lemma MoveHead<K(!new), V>(h: Hashing<K>, table: Table<K, V>, moved: Table<K, V>, rest: Table<K, V>, i: nat)
    requires Coherent(h) && |table| > 0 && Placed(h, moved) && Placed(h, rest) && Splits(h, table, moved, rest)
    requires i < |rest| && rest[i] != []
    ensures var b := Bucket(h.hash(rest[i][0].0), |moved|);
      var moved', rest' := moved[b := [rest[i][0]] + moved[b]], rest[i := rest[i][1..]];
      Placed(h, moved') && Placed(h, rest') && Splits(h, table, moved', rest')
  {
    var (k, v) := rest[i][0];
    var b := Bucket(h.hash(k), |moved|);
    var moved', rest' := moved[b := [(k, v)] + moved[b]], rest[i := rest[i][1..]];
    HeadFound(h, rest, i);
    hide Sound, Placed, InChain, Coherent, Lookup, Changed;
    assert Lookup(h, moved, k) == None;
    PutNew(h, moved, k, v);
    RemoveExisting(h, rest, k, 0);
    assert Without(rest[i], 0) == rest[i][1..];
    SplitsOn(h, table, moved, rest, moved', rest', k, v);
  }

  lemma HeadFound<K(!new), V>(h: Hashing<K>, table: Table<K, V>, i: nat)
    requires Coherent(h) && Placed(h, table) && i < |table| && table[i] != []
    ensures var (k, v) := table[i][0];
      h.equals(k, k) && Bucket(h.hash(k), |table|) == i && Lookup(h, table, k) == Some(v)
  {
    var (k, v) := table[i][0];
    EqualsLaws(h, k, k, k);
    OnlyPosition(h, table[i], i, |table|, 0, k);
  }

  /** Every pair of a placed table is found under its key. */
  lemma PairFound<K(!new), V>(h: Hashing<K>, table: Table<K, V>, i: nat, j: nat)
    requires Coherent(h) && Placed(h, table) && i < |table| && j < |table[i]|
    ensures Lookup(h, table, table[i][j].0) == Some(table[i][j].1)
  {
    var k := table[i][j].0;
    EqualsLaws(h, k, k, k);
    OnlyPosition(h, table[i], i, |table|, j, k);
  }

  /** The start and the end of a rehash. */
  lemma SplitEnds<K(!new), V>(h: Hashing<K>, table: Table<K, V>, n: nat)
    requires |table| > 0 && n > 0 && IsPowerOfTwo(n)
    ensures Placed(h, Empty<K, V>(n)) && Splits(h, table, Empty<K, V>(n), table)
  {
    EmptyTable<K, V>(h, n);
  }

  lemma AllMoved<K(!new), V>(h: Hashing<K>, table: Table<K, V>, moved: Table<K, V>, n: nat)
    requires |table| > 0 && |moved| > 0 && n > 0 && IsPowerOfTwo(n) && Splits(h, table, moved, Empty<K, V>(n))
    ensures Same(h, table, moved)
  {
    EmptyTable<K, V>(h, n);
  }

  /** The two tables hold the same map, pair for pair. */
  ghost predicate Same<K(!new), V>(h: Hashing<K>, table: Table<K, V>, table': Table<K, V>)
    requires |table| > 0 && |table'| > 0
  {
    Count(table) == Count(table') && forall k :: Lookup(h, table', k) == Lookup(h, table, k)
  }

  lemma SameTable<K(!new), V>(h: Hashing<K>, table: Table<K, V>)
    requires Placed(h, table)
    ensures |table| > 0 && Same(h, table, table)
  {
  }

  ghost function Empty<K, V>(n: nat): (t: Table<K, V>)
    ensures |t| == n && forall i | 0 <= i < n :: t[i] == []
  {
    seq(n, _ => [])
  }

  lemma EmptyTable<K(!new), V>(h: Hashing<K>, n: nat)
    requires n > 0 && IsPowerOfTwo(n)
    ensures var t: Table<K, V> := Empty(n); Placed(h, t) && Count(t) == 0 && forall k :: Lookup(h, t, k) == None
  {
    CountEmpty<K, V>(n);
  }

  lemma {:induction false} CountEmpty<K, V>(n: nat)
    ensures Count(Empty<K, V>(n)) == 0
  {
    if n > 0 {
      CountEmpty<K, V>(n - 1);
      assert Empty<K, V>(n)[..n - 1] == Empty<K, V>(n - 1);
    }
  }
}
