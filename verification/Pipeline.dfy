/**
 The sequence pipeline. Elements travel one at a time through the operations, each of which keeps
 its own counter, set or buffer; a sort holds everything back and starts a new phase behind itself.
 The meaning of a pipeline is that its stages run one after another on whole lists.
 */
module Pipelines {
  import opened ArraySorting
  import Bits
  import opened Ordering
  import opened PointerSets
  import opened Sequences

  const OPERATION_LIMIT := 15
  const SORT_OPERATION_LIMIT := 5

  /** An operation with what it remembers of the elements it has seen. */
  datatype Operation<!T(!new)> =
    | Filter(test: T -> bool)
    | Map(operate: T -> T)
    | Peek(consumed: seq<T>)
    | Limit(count: nat, max: nat)
    | Skip(count: nat, max: nat)
    | TakeWhile(test: T -> bool)
    | DropWhile(test: T -> bool)
    | Distinct(seen: seq<T>, id: Identity<T>)
    | Sort(list: seq<T>, cmp: Comparator<T>, algorithm: Algorithm)

  ghost predicate Fresh<T(!new)>(op: Operation<T>) {
    match op
    case Peek(consumed) => consumed == []
    case Limit(count, _) => count == 0
    case Skip(count, _) => count == 0
    case Distinct(seen, _) => seen == []
    case Sort(list, _, _) => list == []
    case _ => true
  }

  // ---------- The meaning: stages on whole lists ----------

  ghost function Where<T>(test: T -> bool, xs: seq<T>): seq<T> {
    if xs == [] then []
    else Where(test, xs[..|xs| - 1]) + if test(xs[|xs| - 1]) then [xs[|xs| - 1]] else []
  }

  /** Every element that the set of those kept so far does not know. */
  ghost function Deduplicated<T(!new)>(id: Identity<T>, xs: seq<T>): seq<T> {
    if xs == [] then []
    else
      var kept, x := Deduplicated(id, xs[..|xs| - 1]), xs[|xs| - 1];
      kept + if Known(id, kept, x) then [] else [x]
  }

  /** What a stage makes of the list that reaches it. `TakeWhile` and `DropWhile` judge each element by itself. */
  ghost function Stage<T(!new)>(op: Operation<T>, xs: seq<T>): seq<T> {
    match op
    case Filter(test) => Where(test, xs)
    case Map(operate) => seq(|xs|, i requires 0 <= i < |xs| => operate(xs[i]))
    case Peek(_) => xs
    case Limit(_, max) => if |xs| <= max then xs else xs[..max]
    case Skip(_, max) => if |xs| <= max then [] else xs[max..]
    case TakeWhile(test) => Where(test, xs)
    case DropWhile(test) => Where(x => !test(x), xs)
    case Distinct(_, id) => Deduplicated(id, xs)
    case Sort(_, cmp, algorithm) => SortBy(algorithm, xs, cmp)
  }

  /** The list that leaves stages `a` to `b`. */
  ghost function Through<T(!new)>(ops: seq<Operation<T>>, a: nat, b: nat, xs: seq<T>): seq<T>
    requires a <= b <= |ops|
    decreases b - a
  {
    if a == b then xs else Stage(ops[b - 1], Through(ops, a, b - 1, xs))
  }

  /** What a fresh operation remembers once the list `xs` has reached it. */
  ghost function After<T(!new)>(op: Operation<T>, xs: seq<T>): Operation<T> {
    match op
    case Peek(_) => Peek(xs)
    case Limit(_, max) => Limit(|xs|, max)
    case Skip(_, max) => Skip(|xs|, max)
    case Distinct(_, id) => Distinct(Deduplicated(id, xs), id)
    case Sort(_, cmp, algorithm) => Sort(xs, cmp, algorithm)
    case _ => op
  }

  /** What one more element makes a stage let through. */
  ghost function Emitted<T(!new)>(op: Operation<T>, xs: seq<T>, x: T): seq<T>
    requires !op.Sort?
  {
    match op
    case Filter(test) => if test(x) then [x] else []
    case Map(operate) => [operate(x)]
    case Peek(_) => [x]
    case Limit(_, max) => if |xs| < max then [x] else []
    case Skip(_, max) => if |xs| < max then [] else [x]
    case TakeWhile(test) => if test(x) then [x] else []
    case DropWhile(test) => if test(x) then [] else [x]
    case Distinct(_, id) => if Known(id, Deduplicated(id, xs), x) then [] else [x]
  }

  lemma StageStep<T(!new)>(op: Operation<T>, xs: seq<T>, x: T)
    requires !op.Sort?
    ensures Stage(op, xs + [x]) == Stage(op, xs) + Emitted(op, xs, x)
  {
    assert (xs + [x])[..|xs|] == xs;
  }

  lemma StageOfNothing<T(!new)>(op: Operation<T>)
    ensures Stage(op, []) == []
    ensures Fresh(op) ==> After(op, []) == op
  {
    if op.Sort? {
      ShortList(op.algorithm, [], op.cmp);
    }
  }

  lemma {:induction false} ThroughOfNothing<T(!new)>(ops: seq<Operation<T>>, a: nat, b: nat)
    requires a <= b <= |ops|
    ensures Through(ops, a, b, []) == []
    decreases b - a
  {
    if a < b {
      ThroughOfNothing(ops, a, b - 1);
      StageOfNothing(ops[b - 1]);
    }
  }

  lemma {:induction false} ThroughJoin<T(!new)>(ops: seq<Operation<T>>, a: nat, b: nat, c: nat, xs: seq<T>)
    requires a <= b <= c <= |ops|
    ensures Through(ops, a, c, xs) == Through(ops, b, c, Through(ops, a, b, xs))
    decreases c - b
  {
    if b < c {
      ThroughJoin(ops, a, b, c - 1, xs);
    }
  }

  lemma {:induction false} DeduplicatedShorter<T(!new)>(id: Identity<T>, xs: seq<T>)
    ensures |Deduplicated(id, xs)| <= |xs|
  {
    hide Known;
    if xs != [] {
      DeduplicatedShorter(id, xs[..|xs| - 1]);
    }
  }

  lemma {:induction false} WhereShorter<T>(test: T -> bool, xs: seq<T>)
    ensures |Where(test, xs)| <= |xs|
  {
    if xs != [] {
      WhereShorter(test, xs[..|xs| - 1]);
    }
  }

  lemma StageShorter<T(!new)>(op: Operation<T>, xs: seq<T>)
    ensures |Stage(op, xs)| <= |xs|
  {
    hide Where, Deduplicated, SortBy;
    match op
    case Filter(test) => WhereShorter(test, xs);
    case TakeWhile(test) => WhereShorter(test, xs);
    case DropWhile(test) => WhereShorter(x => !test(x), xs);
    case Distinct(_, id) => DeduplicatedShorter(id, xs);
    case Sort(_, cmp, algorithm) =>
      EveryAlgorithmSorts(algorithm, xs, cmp);
      assert |multiset(SortBy(algorithm, xs, cmp))| == |multiset(xs)|;
    case _ =>
  }

  /** No stage makes more elements. */
  lemma {:induction false} ThroughShorter<T(!new)>(ops: seq<Operation<T>>, a: nat, b: nat, xs: seq<T>)
    requires a <= b <= |ops|
    ensures |Through(ops, a, b, xs)| <= |xs|
    decreases b - a
  {
    hide Stage;
    if a < b {
      ThroughShorter(ops, a, b - 1, xs);
      StageShorter(ops[b - 1], Through(ops, a, b - 1, xs));
    }
  }

  /** The set of a distinct, if there is one, has a place for each of `n` elements. */
  ghost predicate SetsSuffice<T(!new)>(ops: seq<Operation<T>>, n: nat) {
    FitsTable(n) || forall op | op in ops :: !op.Distinct?
  }

  // ---------- What the simple stages mean ----------

  /** A map applies its function to each element. */
  lemma MapMeaning<T(!new)>(operate: T -> T, xs: seq<T>)
    ensures var r := Stage(Map(operate), xs);
      |r| == |xs| && forall i | 0 <= i < |xs| :: r[i] == operate(xs[i])
  {
  }

  /** A limit lets through that many elements at most, from the beginning, and a skip all the others. */
  lemma LimitAndSkip<T(!new)>(max: nat, xs: seq<T>)
    ensures var first, rest := Stage(Limit(0, max), xs), Stage(Skip(0, max), xs);
      first + rest == xs && |first| <= max && (rest == [] || |first| == max)
  {
  }

  /** A filter, a take-while and a drop-while judge each element by itself, whatever surrounds it. */
  lemma FilterMeaning<T(!new)>(test: T -> bool, xs: seq<T>, ys: seq<T>, x: T)
    ensures var r := Stage(Filter(test), xs + [x] + ys);
      r == Stage(Filter(test), xs) + (if test(x) then [x] else []) + Stage(Filter(test), ys)
    ensures Stage(TakeWhile(test), xs) == Stage(Filter(test), xs)
    ensures Stage(DropWhile(test), xs) == Stage(Filter(y => !test(y)), xs)
  {
    WhereConcat(test, xs + [x], ys);
    WhereConcat(test, xs, [x]);
    assert [x][..0] == [] && Where(test, [x]) == if test(x) then [x] else [];
  }

  // ---------- What "while" means ----------

  /** How many leading elements satisfy the test. */
  ghost function Lead<T>(test: T -> bool, xs: seq<T>): (n: nat)
    ensures n <= |xs| && (forall i | 0 <= i < n :: test(xs[i])) && (n < |xs| ==> !test(xs[n]))
  {
    if xs == [] || !test(xs[0]) then 0 else 1 + Lead(test, xs[1..])
  }

  /** Once the test has failed it does not hold again. */
  ghost predicate Settles<T>(test: T -> bool, xs: seq<T>) {
    forall i, j | 0 <= i < j < |xs| :: test(xs[j]) ==> test(xs[i])
  }

  lemma {:induction false} WhereConcat<T>(test: T -> bool, xs: seq<T>, ys: seq<T>)
    ensures Where(test, xs + ys) == Where(test, xs) + Where(test, ys)
  {
    if ys == [] {
      assert xs + ys == xs;
    } else {
      var init := ys[..|ys| - 1];
      WhereConcat(test, xs, init);
      assert (xs + ys)[..|xs + ys| - 1] == xs + init;
    }
  }

  ghost predicate AllHold<T>(test: T -> bool, xs: seq<T>) {
    forall i | 0 <= i < |xs| :: test(xs[i])
  }

  ghost predicate NoneHold<T>(test: T -> bool, xs: seq<T>) {
    forall i | 0 <= i < |xs| :: !test(xs[i])
  }

  lemma {:induction false} WhereAll<T>(test: T -> bool, xs: seq<T>)
    ensures |Where(test, xs)| <= |xs|
    ensures Where(test, xs) == xs <==> AllHold(test, xs)
  {
    if xs != [] {
      var init := xs[..|xs| - 1];
      WhereAll(test, init);
      assert xs == init + [xs[|xs| - 1]];
      assert AllHold(test, xs) <==> AllHold(test, init) && test(xs[|xs| - 1]);
    }
  }

  lemma {:induction false} WhereNone<T>(test: T -> bool, xs: seq<T>)
    ensures Where(test, xs) == [] <==> NoneHold(test, xs)
  {
    if xs != [] {
      var init := xs[..|xs| - 1];
      WhereNone(test, init);
      assert xs == init + [xs[|xs| - 1]];
      assert NoneHold(test, xs) <==> NoneHold(test, init) && !test(xs[|xs| - 1]);
    }
  }

  lemma FailsBehind<T>(test: T -> bool, xs: seq<T>)
    ensures Settles(test, xs) <==> NoneHold(test, xs[Lead(test, xs)..])
  {
    var n := Lead(test, xs);
    var rest := xs[n..];
    if NoneHold(test, rest) {
      forall j | n <= j < |xs| ensures !test(xs[j]) {
        assert xs[j] == rest[j - n];
      }
    }
    if Settles(test, xs) {
      forall i | 0 <= i < |rest| ensures !test(rest[i]) {
        assert rest[i] == xs[n + i];
      }
    }
  }

  lemma LeadAll<T>(test: T -> bool, xs: seq<T>)
    ensures Where(test, xs) == xs[..Lead(test, xs)] + Where(test, xs[Lead(test, xs)..])
    ensures Where(x => !test(x), xs) == Where(x => !test(x), xs[Lead(test, xs)..])
  {
    var n, fails := Lead(test, xs), (x: T) => !test(x);
    assert xs == xs[..n] + xs[n..];
    WhereConcat(test, xs[..n], xs[n..]);
    WhereConcat(fails, xs[..n], xs[n..]);
    WhereAll(test, xs[..n]);
    WhereNone(fails, xs[..n]);
  }

  /** A take-while keeps the leading elements that satisfy the test exactly when the test settles. */
  lemma TakeWhileIsPrefix<T(!new)>(test: T -> bool, xs: seq<T>)
    ensures Stage(TakeWhile(test), xs) == xs[..Lead(test, xs)] <==> Settles(test, xs)
  {
    hide Where, Lead, Settles, NoneHold;
    LeadAll(test, xs);
    FailsBehind(test, xs);
    WhereNone(test, xs[Lead(test, xs)..]);
    if Where(test, xs) == xs[..Lead(test, xs)] {
      assert |Where(test, xs[Lead(test, xs)..])| == 0;
    }
  }

  /** So does a drop-while drop just those. */
  lemma DropWhileIsSuffix<T(!new)>(test: T -> bool, xs: seq<T>)
    ensures Stage(DropWhile(test), xs) == xs[Lead(test, xs)..] <==> Settles(test, xs)
  {
    hide Where, Lead, Settles;
    LeadAll(test, xs);
    FailsBehind(test, xs);
    WhereAll(x => !test(x), xs[Lead(test, xs)..]);
  }

  lemma WhereOfThree<T>(test: T -> bool, a: T, b: T, c: T)
    requires test(a) && !test(b) && test(c)
    ensures Where(test, [a, b, c]) == [a, c]
  {
    assert [a, b, c][..2] == [a, b] && [a, b][..1] == [a];
    assert Where(test, [a]) == [a];
    assert Where(test, [a, b]) == [a];
  }

  /** The test may hold again: here the last element is let through although an earlier one was not. */
  lemma TakeWhileFilters()
    ensures Stage(TakeWhile((x: int) => x != 1), [0, 1, 2]) == [0, 2]
  {
    hide Where;
    WhereOfThree((x: int) => x != 1, 0, 1, 2);
  }

  // ---------- Terminal operations ----------

  datatype Terminal<!T(!new)> =
    | ForEach(consumed: seq<T>)
    | Reduce(result: T, accumulate: (T, T) -> T)
    | Find(found: Option<T>)
    | Max(best: Option<T>, nil: T, cmp: Comparator<T>)
    | Min(best: Option<T>, nil: T, cmp: Comparator<T>)
    | Match(quantity: Quantity, count: nat, matches: nat, test: T -> bool)
    | Count(count: nat)
    | ToArray(list: seq<T>)

  datatype Quantity = All | Any | NoneOf

  ghost predicate FreshTerminal<T(!new)>(t: Terminal<T>) {
    match t
    case ForEach(consumed) => consumed == []
    case Reduce(_, _) => true
    case Find(found) => found == None
    case Max(best, _, _) => best == None
    case Min(best, _, _) => best == None
    case Match(_, count, matches, _) => count == 0 && matches == 0
    case Count(count) => count == 0
    case ToArray(list) => list == []
  }

  /**
     What one element does to a terminal operation. For a maximum or minimum a null pointer `nil` counts as
     nothing yet.
   */
  function Received<T(!new, ==)>(t: Terminal<T>, x: T): Terminal<T> {
    match t
    case ForEach(consumed) => ForEach(consumed + [x])
    case Reduce(result, accumulate) => Reduce(accumulate(result, x), accumulate)
    case Find(found) => if found == None then Find(Some(x)) else t
    case Max(best, nil, cmp) =>
      if best == None || best.value == nil || cmp(best.value, x) <= 0 then Max(Some(x), nil, cmp) else t
    case Min(best, nil, cmp) =>
      if best == None || best.value == nil || cmp(best.value, x) >= 0 then Min(Some(x), nil, cmp) else t
    case Match(quantity, count, matches, test) =>
      Match(quantity, count + 1, if test(x) then matches + 1 else matches, test)
    case Count(count) => Count(count + 1)
    case ToArray(list) => ToArray(list + [x])
  }

  ghost function Finished<T(!new)>(t: Terminal<T>, xs: seq<T>): Terminal<T> {
    if xs == [] then t else Received(Finished(t, xs[..|xs| - 1]), xs[|xs| - 1])
  }

  datatype Answer<!T> =
    | Nothing
    | Element(element: T)
    | Maybe(option: Option<T>)
    | Truth(truth: bool)
    | Number(number: nat)
    | Elements(elements: seq<T>)

  function Result<T(!new)>(t: Terminal<T>): Answer<T> {
    match t
    case ForEach(_) => Nothing
    case Reduce(result, _) => Element(result)
    case Find(found) => Maybe(found)
    case Max(best, _, _) => Maybe(best)
    case Min(best, _, _) => Maybe(best)
    case Match(All, count, matches, _) => Truth(matches == count)
    case Match(Any, count, matches, _) => Truth(matches > 0)
    case Match(NoneOf, count, matches, _) => Truth(matches == 0)
    case Count(count) => Number(count)
    case ToArray(list) => Elements(list)
  }

  ghost function FoldLeft<T>(accumulate: (T, T) -> T, start: T, xs: seq<T>): T {
    if xs == [] then start else accumulate(FoldLeft(accumulate, start, xs[..|xs| - 1]), xs[|xs| - 1])
  }

  /** The first element is accumulated first, onto what the fold starts with. */
  lemma {:induction false} FoldFirst<T>(accumulate: (T, T) -> T, start: T, x: T, xs: seq<T>)
    ensures FoldLeft(accumulate, start, []) == start
    ensures FoldLeft(accumulate, start, [x] + xs) == FoldLeft(accumulate, accumulate(start, x), xs)
  {
    var all := [x] + xs;
    if xs == [] {
      assert all[..0] == [];
    } else {
      var init := xs[..|xs| - 1];
      FoldFirst(accumulate, start, x, init);
      assert all[..|all| - 1] == [x] + init;
    }
  }

  /** What the terminal operations that collect, fold, find or count make of the list that reaches them. */
  lemma {:induction false} TerminalMeaning<T(!new)>(t: Terminal<T>, xs: seq<T>)
    requires FreshTerminal(t) && !t.Max? && !t.Min? && !t.Match?
    ensures t.ForEach? ==> Finished(t, xs) == ForEach(xs)
    ensures t.Reduce? ==> Finished(t, xs) == Reduce(FoldLeft(t.accumulate, t.result, xs), t.accumulate)
    ensures t.Find? ==> Finished(t, xs) == Find(if xs == [] then None else Some(xs[0]))
    ensures t.Count? ==> Finished(t, xs) == Count(|xs|)
    ensures t.ToArray? ==> Finished(t, xs) == ToArray(xs)
  {
    if xs != [] {
      var init, x := xs[..|xs| - 1], xs[|xs| - 1];
      TerminalMeaning(t, init);
      assert xs == init + [x];
    }
  }

  /** What they answer. */
  lemma TerminalAnswers<T(!new)>(t: Terminal<T>, xs: seq<T>)
    requires FreshTerminal(t) && !t.Max? && !t.Min? && !t.Match?
    ensures t.ForEach? ==> Result(Finished(t, xs)) == Nothing
    ensures t.Reduce? ==> Result(Finished(t, xs)) == Element(FoldLeft(t.accumulate, t.result, xs))
    ensures t.Find? ==> Result(Finished(t, xs)) == Maybe(if xs == [] then None else Some(xs[0]))
    ensures t.Count? ==> Result(Finished(t, xs)) == Number(|xs|)
    ensures t.ToArray? ==> Result(Finished(t, xs)) == Elements(xs)
  {
    TerminalMeaning(t, xs);
  }

  lemma HoldLast<T>(test: T -> bool, xs: seq<T>, x: T)
    ensures AllHold(test, xs + [x]) <==> AllHold(test, xs) && test(x)
    ensures NoneHold(test, xs + [x]) <==> NoneHold(test, xs) && !test(x)
  {
    var more := xs + [x];
    assert forall i | 0 <= i < |xs| :: more[i] == xs[i];
    assert more[|xs|] == x;
  }

  lemma HoldNone<T>(test: T -> bool)
    ensures AllHold(test, []) && NoneHold(test, [])
  {
  }

  lemma HoldMembers<T>(test: T -> bool, xs: seq<T>)
    ensures AllHold(test, xs) <==> forall x | x in xs :: test(x)
    ensures NoneHold(test, xs) <==> forall x | x in xs :: !test(x)
  {
    assert forall i | 0 <= i < |xs| :: xs[i] in xs;
  }

  lemma {:induction false} MatchCounts<T(!new)>(t: Terminal<T>, xs: seq<T>) returns (matches: nat)
    requires FreshTerminal(t) && t.Match?
    ensures Finished(t, xs) == Match(t.quantity, |xs|, matches, t.test) && matches <= |xs|
    ensures matches == |xs| <==> AllHold(t.test, xs)
    ensures matches == 0 <==> NoneHold(t.test, xs)
  {
    hide AllHold, NoneHold;
    matches := 0;
    if xs == [] {
      HoldNone(t.test);
    } else {
      var init, x := xs[..|xs| - 1], xs[|xs| - 1];
      matches := MatchCounts(t, init);
      assert xs == init + [x];
      HoldLast(t.test, init, x);
      if t.test(x) {
        matches := matches + 1;
      }
    }
  }

  /** The matching operations answer with the quantifier they are named for. */
  lemma MatchMeaning<T(!new)>(t: Terminal<T>, xs: seq<T>)
    requires FreshTerminal(t) && t.Match?
    ensures Result(Finished(t, xs)) == Truth(match t.quantity
      case All => forall x | x in xs :: t.test(x)
      case Any => exists x | x in xs :: t.test(x)
      case NoneOf => forall x | x in xs :: !t.test(x))
  {
    hide AllHold, NoneHold;
    var matches := MatchCounts(t, xs);
    HoldMembers(t.test, xs);
  }

  /** `a` comes before `b` in the direction the terminal operation looks for. */
  ghost predicate Yields<T(!new)>(t: Terminal<T>, a: T, b: T)
    requires t.Max? || t.Min?
  {
    if t.Max? then t.cmp(a, b) <= 0 else t.cmp(a, b) >= 0
  }

  /** Null pointers do no harm: there are none, or they come before everything. */
  ghost predicate NullsYield<T(!new)>(t: Terminal<T>, xs: seq<T>)
    requires t.Max? || t.Min?
  {
    t.nil in xs ==> forall z :: Yields(t, t.nil, z)
  }

  /** A maximum or minimum is the last one among its equals. */
  lemma {:induction false} ExtremumMeaning<T(!new)>(t: Terminal<T>, xs: seq<T>) returns (i: nat)
    requires FreshTerminal(t) && (t.Max? || t.Min?) && NullsYield(t, xs)
    ensures xs == [] ==> Finished(t, xs) == t && Result(t) == Maybe(None)
    ensures xs != [] ==>
      && i < |xs| && Result(Finished(t, xs)) == Maybe(Some(xs[i]))
      && Finished(t, xs) == t.(best := Some(xs[i]))
      && (forall j | 0 <= j < |xs| :: Yields(t, xs[j], xs[i]))
      && (forall j | i < j < |xs| :: !Yields(t, xs[i], xs[j]))
    ensures xs != [] && t.Max? ==>
      (forall j | 0 <= j < |xs| :: t.cmp(xs[j], xs[i]) <= 0) && (forall j | i < j < |xs| :: t.cmp(xs[i], xs[j]) > 0)
    ensures xs != [] && t.Min? ==>
      (forall j | 0 <= j < |xs| :: t.cmp(xs[j], xs[i]) >= 0) && (forall j | i < j < |xs| :: t.cmp(xs[i], xs[j]) < 0)
  {
    hide IsComparator;
    i := 0;
    if xs != [] {
      var init, x := xs[..|xs| - 1], xs[|xs| - 1];
      var k := ExtremumMeaning(t, init);
      Reflexive(t.cmp, x);
      if init == [] || init[k] == t.nil || Yields(t, init[k], x) {
        i := |xs| - 1;
        forall j | 0 <= j < |init| ensures Yields(t, xs[j], x) {
          assert Yields(t, init[k], x);
          Laws(t.cmp, init[j], init[k], x);
          Laws(t.cmp, x, init[k], init[j]);
        }
      } else {
        i := k;
        Laws(t.cmp, init[k], x, init[k]);
      }
    }
  }

  /** The answer is an element of the list to which all of them yield. */
  ghost predicate AnswersExtremum<T(!new)>(t: Terminal<T>, xs: seq<T>)
    requires t.Max? || t.Min?
  {
    exists m | m in xs :: Result(Finished(t, xs)) == Maybe(Some(m)) && forall x | x in xs :: Yields(t, x, m)
  }

  /**
     A maximum or minimum is right for all lists exactly when the comparator puts the null pointer before
     everything.
   */
  lemma NullsMustYield<T(!new)>(t: Terminal<T>)
    requires FreshTerminal(t) && (t.Max? || t.Min?)
    ensures (forall xs | xs != [] :: AnswersExtremum(t, xs)) <==> forall z :: Yields(t, t.nil, z)
  {
    hide IsComparator;
    if forall z :: Yields(t, t.nil, z) {
      forall xs | xs != [] ensures AnswersExtremum(t, xs) {
        var i := ExtremumMeaning(t, xs);
        assert xs[i] in xs;
      }
    } else {
      var z :| !Yields(t, t.nil, z);
      assert Finished(t, []) == t && [t.nil, z][..1] == [t.nil] && [t.nil][..0] == [];
      assert Finished(t, [t.nil]) == t.(best := Some(t.nil));
      assert Finished(t, [t.nil, z]) == t.(best := Some(z));
      assert t.nil in [t.nil, z];
      assert !AnswersExtremum(t, [t.nil, z]);
    }
  }

  /** Here the null pointer is the greatest element, and the maximum is another. */
  lemma MaxLosesNull()
    ensures var cmp: Comparator<int> := (x, y) => x - y;
      Result(Finished(Max(None, 0, cmp), [0, -1])) == Maybe(Some(-1)) && cmp(-1, 0) < 0
  {
    assert [0, -1][..1] == [0] && [0][..0] == [];
  }

  // ---------- What "distinct" means ----------

  ghost predicate HasEqual<T>(equals: (T, T) -> bool, xs: seq<T>, x: T) {
    exists y | y in xs :: equals(y, x)
  }

  /** Every element that none before it is equal to. */
  ghost function FirstOfEach<T>(equals: (T, T) -> bool, xs: seq<T>): seq<T> {
    if xs == [] then []
    else
      var init, x := xs[..|xs| - 1], xs[|xs| - 1];
      FirstOfEach(equals, init) + if HasEqual(equals, init, x) then [] else [x]
  }

  /** The first of each has an equal exactly for the elements that have one in the list. */
  lemma {:induction false} FirstOfEachCovers<T(!new)>(equals: (T, T) -> bool, xs: seq<T>, x: T)
    requires Equivalence(equals)
    ensures HasEqual(equals, FirstOfEach(equals, xs), x) <==> HasEqual(equals, xs, x)
  {
    hide Equivalence;
    if xs != [] {
      var init, last := xs[..|xs| - 1], xs[|xs| - 1];
      assert xs == init + [last];
      FirstOfEachCovers(equals, init, x);
      HasEqualLast(equals, init, last, x);
      if HasEqual(equals, init, last) {
        EqualInstead(equals, init, last, x);
      } else {
        HasEqualLast(equals, FirstOfEach(equals, init), last, x);
      }
    }
  }

  lemma HasEqualLast<T>(equals: (T, T) -> bool, xs: seq<T>, last: T, x: T)
    ensures HasEqual(equals, xs + [last], x) <==> HasEqual(equals, xs, x) || equals(last, x)
  {
    if equals(last, x) {
      assert last in xs + [last];
    }
    if y :| y in xs && equals(y, x) {
      assert y in xs + [last];
    }
  }

  lemma EqualInstead<T(!new)>(equals: (T, T) -> bool, xs: seq<T>, last: T, x: T)
    requires Equivalence(equals) && HasEqual(equals, xs, last)
    ensures equals(last, x) ==> HasEqual(equals, xs, x)
  {
    if equals(last, x) {
      var y :| y in xs && equals(y, last);
      assert equals(y, x);
    }
  }

  /** No two of the first of each are equal. */
  lemma {:induction false} FirstOfEachDiffer<T(!new)>(equals: (T, T) -> bool, xs: seq<T>)
    requires Equivalence(equals)
    ensures forall i, j | 0 <= i < j < |FirstOfEach(equals, xs)| ::
      !equals(FirstOfEach(equals, xs)[i], FirstOfEach(equals, xs)[j])
  {
    hide Equivalence;
    if xs != [] {
      var init, x := xs[..|xs| - 1], xs[|xs| - 1];
      FirstOfEachDiffer(equals, init);
      FirstOfEachCovers(equals, init, x);
      var kept := FirstOfEach(equals, init);
      forall i | 0 <= i < |kept| ensures !HasEqual(equals, init, x) ==> !equals(kept[i], x) {
        assert kept[i] in kept;
      }
    }
  }

  lemma FirstOfEachMeaning<T(!new)>(equals: (T, T) -> bool, xs: seq<T>)
    requires Equivalence(equals)
    ensures forall x | x in xs :: HasEqual(equals, FirstOfEach(equals, xs), x)
    ensures forall i, j | 0 <= i < j < |FirstOfEach(equals, xs)| ::
      !equals(FirstOfEach(equals, xs)[i], FirstOfEach(equals, xs)[j])
  {
    FirstOfEachDiffer(equals, xs);
    forall x | x in xs ensures HasEqual(equals, FirstOfEach(equals, xs), x) {
      assert equals(x, x);
      FirstOfEachCovers(equals, xs, x);
    }
  }

  /** The address of an element agrees, modulo the number of buckets, with that of the one it repeats. */
  ghost predicate MeetsLast<T(!new)>(id: Identity<T>, first: seq<T>, x: T) {
    forall i | 0 <= i < |first| && id.equals(first[i], x) ::
      id.address(first[i]) % TableSize(|first|) == id.address(x) % TableSize(|first|)
  }

  /** So does that of every element of the list. */
  ghost predicate Meets<T(!new)>(id: Identity<T>, xs: seq<T>) {
    xs == [] || (Meets(id, xs[..|xs| - 1]) && MeetsLast(id, FirstOfEach(id.equals, xs[..|xs| - 1]), xs[|xs| - 1]))
  }

  /** Among elements that differ an equal one is found exactly when the search meets it. */
  lemma KnownIfMet<T(!new)>(id: Identity<T>, first: seq<T>, x: T)
    requires Equivalence(id.equals) && forall i, j | 0 <= i < j < |first| :: !id.equals(first[i], first[j])
    ensures Known(id, first, x) == HasEqual(id.equals, first, x) <==> MeetsLast(id, first, x)
  {
    hide SameBucket, TableSize;
    forall i | 0 <= i < |first|
      ensures SameBucket(id, first[i], x, TableSize(|first|))
        <==> id.address(first[i]) % TableSize(|first|) == id.address(x) % TableSize(|first|)
    {
      BucketsByAddress(id, first[i], x, |first|);
    }
    forall i, j | 0 <= i < |first| && 0 <= j < |first| && id.equals(first[i], x) && id.equals(first[j], x)
      ensures i == j
    {
      assert id.equals(x, first[i]) && id.equals(x, first[j]);
      assert id.equals(first[i], first[j]) && id.equals(first[j], first[i]);
    }
    if y :| y in first && id.equals(y, x) {
      var i :| 0 <= i < |first| && first[i] == y;
      assert id.equals(first[i], x);
    }
    if i :| 0 <= i < |first| && id.equals(first[i], x) {
      assert first[i] in first;
    }
  }

  lemma KnownHasEqual<T(!new)>(id: Identity<T>, kept: seq<T>, xs: seq<T>, x: T)
    requires Known(id, kept, x) && forall y | y in kept :: y in xs
    ensures HasEqual(id.equals, xs, x)
  {
    hide SameBucket, TableSize;
    var i :| 0 <= i < |kept| && SameBucket(id, kept[i], x, TableSize(|kept|)) && id.equals(kept[i], x);
    assert kept[i] in kept;
  }

  /**
     The distinct stage keeps just the first of equal elements exactly when every address meets that of the
     one it repeats.
   */
  lemma {:induction false} DistinctMeaning<T(!new)>(id: Identity<T>, xs: seq<T>)
    requires Equivalence(id.equals)
    ensures Deduplicated(id, xs) == FirstOfEach(id.equals, xs) <==> Meets(id, xs)
    ensures |Deduplicated(id, xs)| >= |FirstOfEach(id.equals, xs)| && forall y | y in Deduplicated(id, xs) :: y in xs
    ensures |Deduplicated(id, xs)| == |FirstOfEach(id.equals, xs)| ==>
      Deduplicated(id, xs) == FirstOfEach(id.equals, xs)
  {
    hide Known, HasEqual, Equivalence, MeetsLast;
    if xs != [] {
      var init, x := xs[..|xs| - 1], xs[|xs| - 1];
      var kept, first := Deduplicated(id, init), FirstOfEach(id.equals, init);
      DistinctMeaning(id, init);
      if Known(id, kept, x) {
        KnownHasEqual(id, kept, init, x);
      }
      FirstOfEachDiffer(id.equals, init);
      FirstOfEachCovers(id.equals, init, x);
      KnownIfMet(id, first, x);
    }
  }

  /** When only the same pointers are equal, or pointers to the same address, that is so. */
  lemma {:induction false} CoherentMeets<T(!new)>(id: Identity<T>, xs: seq<T>)
    requires forall a, b :: id.equals(a, b) ==> id.address(a) == id.address(b)
    ensures Meets(id, xs)
  {
    hide TableSize;
    if xs != [] {
      CoherentMeets(id, xs[..|xs| - 1]);
    }
  }

  /** Of two equal elements the second is dropped exactly when their addresses agree modulo sixteen. */
  lemma TwoEqual<T(!new)>(id: Identity<T>, a: T, b: T)
    requires id.equals(a, b)
    ensures Stage(Distinct([], id), [a, b]) == if id.address(a) % 16 == id.address(b) % 16 then [a] else [a, b]
  {
    assert TableSize(0) == TableSize(1) == 16;
    hide SameBucket, TableSize;
    assert [a, b][..1] == [a] && [a][..0] == [];
    BucketsByAddress(id, a, b, 1);
    assert Deduplicated(id, [a]) == [a];
  }

  lemma FirstOfTwo<T(!new)>(equals: (T, T) -> bool, a: T, b: T)
    requires equals(a, b)
    ensures FirstOfEach(equals, [a, b]) == [a]
  {
    assert [a, b][..1] == [a] && [a][..0] == [];
    assert FirstOfEach(equals, [a]) == [a];
    assert a in [a];
  }

  /** Here two equal elements, at the addresses 8 and 16, both pass. */
  lemma DistinctMisses()
    ensures var id := Identity((p: int) => if p >= 0 then p else 0, (a: int, b: int) => true);
      Stage(Distinct([], id), [8, 16]) == [8, 16] && FirstOfEach(id.equals, [8, 16]) == [8]
  {
    hide Stage, FirstOfEach;
    var id := Identity((p: int) => if p >= 0 then p else 0, (a: int, b: int) => true);
    TwoEqual(id, 8, 16);
    FirstOfTwo(id.equals, 8, 16);
  }

  /** Adding the elements one after another to a new set of that kind keeps just those that the stage lets through. */
  method DistinctBySet<T(!new)>(id: Identity<T>, xs: seq<T>) returns (kept: seq<T>)
    requires FitsTable(|xs|)
    ensures kept == Stage(Distinct([], id), xs)
  {
    hide Known, TableSize;
    kept := [];
    var known := new PointerSet(id);
    var i := 0;
    while i < |xs|
      invariant 0 <= i <= |xs| && known.Valid() && fresh(known.buckets) && |known.members| <= i
      invariant known.id == id && known.members == kept == Deduplicated(id, xs[..i])
    {
      assert xs[..i + 1][..i] == xs[..i];
      var added, ok := known.Add(xs[i], true, true);
      if added {
        kept := kept + [xs[i]];
      }
      i := i + 1;
    }
    assert xs[..i] == xs;
  }

  // ---------- The interpreter ----------

  /** The first sort from stage `a` on, or the number of stages. */
  ghost function NextSort<T(!new)>(ops: seq<Operation<T>>, a: nat): (b: nat)
    requires a <= |ops|
    ensures a <= b <= |ops| && (b < |ops| ==> ops[b].Sort?) && forall i | a <= i < b :: !ops[i].Sort?
    decreases |ops| - a
  {
    if a == |ops| || ops[a].Sort? then a else NextSort(ops, a + 1)
  }

  /** In the phase that starts at stage `a` and ends at `b`, the elements `xs` have been pushed in. */
  ghost predicate Seen<T(!new)>(ops: seq<Operation<T>>, now: seq<Operation<T>>, a: nat, b: nat, xs: seq<T>) {
    && a <= b <= |ops| == |now|
    && (forall i | a <= i <= b && i < |ops| :: now[i] == After(ops[i], Through(ops, a, i, xs)))
    && (forall i | b < i < |ops| :: now[i] == ops[i])
  }

  /** Within a phase the element `x`, now turned into `e`, has got to stage `i`; the stages behind have not seen it. */
  ghost predicate Travelling<T(!new)>(ops: seq<Operation<T>>, now: seq<Operation<T>>, a: nat, b: nat, i: nat,
                                      xs: seq<T>, x: T, e: T) {
    && a <= i <= b <= |ops| == |now|
    && Through(ops, a, i, xs + [x]) == Through(ops, a, i, xs) + [e]
    && (forall k | a <= k < i :: now[k] == After(ops[k], Through(ops, a, k, xs + [x])))
    && (forall k | i <= k <= b && k < |ops| :: now[k] == After(ops[k], Through(ops, a, k, xs)))
    && (forall k | b < k < |ops| :: now[k] == ops[k])
  }

  /** An element that a stage holds back makes no difference to the stages behind it. */
  lemma {:induction false} HeldBack<T(!new)>(ops: seq<Operation<T>>, a: nat, i: nat, k: nat, xs: seq<T>, ys: seq<T>)
    requires a <= i <= k <= |ops| && Through(ops, a, i, xs) == Through(ops, a, i, ys)
    ensures Through(ops, a, k, xs) == Through(ops, a, k, ys)
    decreases k - i
  {
    hide Stage;
    if i < k {
      HeldBack(ops, a, i, k - 1, xs, ys);
    }
  }

  /** The new memory of stage `i`, and the element it passes on or holds back. */
  ghost predicate Executed<T(!new)>(op: Operation<T>, op': Operation<T>, e: T, e': T, skip: bool, ys: seq<T>) {
    && op' == After(op, ys + [e])
    && (!op.Sort? ==> Emitted(op, ys, e) == if skip then [] else [e'])
    && (op.Sort? ==> skip)
  }

  lemma PassedOn<T(!new)>(ops: seq<Operation<T>>, a: nat, i: nat, xs: seq<T>, x: T, e: T, out: seq<T>)
    requires a <= i < |ops| && !ops[i].Sort?
    requires Through(ops, a, i, xs + [x]) == Through(ops, a, i, xs) + [e]
    requires Emitted(ops[i], Through(ops, a, i, xs), e) == out
    ensures Through(ops, a, i + 1, xs + [x]) == Through(ops, a, i + 1, xs) + out
  {
    hide Stage, Emitted;
    StageStep(ops[i], Through(ops, a, i, xs), e);
  }

  lemma TravelOn<T(!new)>(ops: seq<Operation<T>>, now: seq<Operation<T>>, a: nat, b: nat, i: nat,
                          xs: seq<T>, x: T, e: T, op': Operation<T>, e': T)
    requires Travelling(ops, now, a, b, i, xs, x, e) && i < b == NextSort(ops, a)
    requires Executed(ops[i], op', e, e', false, Through(ops, a, i, xs))
    ensures Travelling(ops, now[i := op'], a, b, i + 1, xs, x, e')
  {
    hide Stage, After, Emitted, Through;
    PassedOn(ops, a, i, xs, x, e, [e']);
  }

  lemma TravelEnds<T(!new)>(ops: seq<Operation<T>>, now: seq<Operation<T>>, a: nat, b: nat, i: nat,
                            xs: seq<T>, x: T, e: T, op': Operation<T>, e': T)
    requires Travelling(ops, now, a, b, i, xs, x, e) && i < |ops| && b == NextSort(ops, a)
    requires Executed(ops[i], op', e, e', true, Through(ops, a, i, xs))
    ensures Seen(ops, now[i := op'], a, b, xs + [x])
    ensures Through(ops, a, b, xs + [x]) == Through(ops, a, b, xs) + if i < b then [] else [e]
  {
    hide Stage, After, Emitted, Through;
    if i < b {
      PassedOn(ops, a, i, xs, x, e, []);
      assert Through(ops, a, i + 1, xs + [x]) == Through(ops, a, i + 1, xs);
      forall k: nat | i < k <= b ensures Through(ops, a, k, xs + [x]) == Through(ops, a, k, xs) {
        HeldBack(ops, a, i + 1, k, xs + [x], xs);
      }
    }
  }

  lemma TravelStarts<T(!new)>(ops: seq<Operation<T>>, now: seq<Operation<T>>, a: nat, b: nat, xs: seq<T>, x: T)
    requires Seen(ops, now, a, b, xs)
    ensures Travelling(ops, now, a, b, a, xs, x, x)
  {
  }

  lemma TravelThrough<T(!new)>(ops: seq<Operation<T>>, now: seq<Operation<T>>, a: nat, xs: seq<T>, x: T, e: T)
    requires Travelling(ops, now, a, |ops|, |ops|, xs, x, e)
    ensures Seen(ops, now, a, |ops|, xs + [x]) && Through(ops, a, |ops|, xs + [x]) == Through(ops, a, |ops|, xs) + [e]
  {
  }

  lemma SeenNothing<T(!new)>(ops: seq<Operation<T>>, now: seq<Operation<T>>, a: nat, b: nat)
    requires a <= b <= |ops| == |now| && now[a..] == ops[a..] && forall op | op in ops :: Fresh(op)
    ensures Seen(ops, now, a, b, [])
  {
    hide Fresh, Through, After;
    forall i | a <= i < |ops| ensures now[i] == ops[i] == After(ops[i], Through(ops, a, i, [])) {
      assert now[i] == now[a..][i - a];
      ThroughOfNothing(ops, a, i);
      StageOfNothing(ops[i]);
    }
  }

  lemma Remembered<T(!new)>(ops: seq<Operation<T>>, now: seq<Operation<T>>, a: nat, b: nat, i: nat, xs: seq<T>, x: T,
                            e: T)
    requires Travelling(ops, now, a, b, i, xs, x, e) && i < |ops| && forall op | op in ops :: Fresh(op)
    ensures now[i] == After(ops[i], Through(ops, a, i, xs)) && Fresh(ops[i])
  {
  }

  lemma NotASort<T(!new)>(op: Operation<T>, op': Operation<T>, e: T, e': T, ys: seq<T>)
    requires Executed(op, op', e, e', false, ys)
    ensures !op.Sort?
  {
  }

  lemma FinishedStart<T(!new)>(t: Terminal<T>)
    ensures Finished(t, []) == t
  {
  }

  lemma FinishedStep<T(!new)>(t: Terminal<T>, xs: seq<T>, x: T)
    ensures Finished(t, xs + [x]) == Received(Finished(t, xs), x)
  {
    assert (xs + [x])[..|xs|] == xs;
  }

  /** The memory of an operation when all is done: a sort's list has been sorted in place. */
  ghost function Settled<T(!new)>(op: Operation<T>, xs: seq<T>): Operation<T> {
    if op.Sort? then Sort(Stage(op, xs), op.cmp, op.algorithm) else After(op, xs)
  }

  ghost predicate SettledTo<T(!new)>(ops: seq<Operation<T>>, now: seq<Operation<T>>, a: nat, xs: seq<T>) {
    a <= |ops| == |now| && forall k | 0 <= k < a :: now[k] == Settled(ops[k], Through(ops, 0, k, xs))
  }

  /** `sorts` lists the sorts in order, the ones from stage `a` on starting at `next`. */
  ghost predicate SortsFrom<T(!new)>(ops: seq<Operation<T>>, sorts: seq<nat>, next: nat, a: nat) {
    && next <= |sorts|
    && (forall j | 0 <= j < |sorts| :: sorts[j] < |ops| && ops[sorts[j]].Sort? && (j < next <==> sorts[j] < a))
    && (forall i, j | 0 <= i < j < |sorts| :: sorts[i] < sorts[j])
    && (forall i | 0 <= i < |ops| && ops[i].Sort? :: i in sorts)
  }

  lemma ChainedSorts<T(!new)>(ops: seq<Operation<T>>, op: Operation<T>, sorts: seq<nat>)
    requires SortsFrom(ops, sorts, 0, 0)
    ensures op.Sort? ==> SortsFrom(ops + [op], sorts + [|ops|], 0, 0)
    ensures !op.Sort? ==> SortsFrom(ops + [op], sorts, 0, 0)
  {
    if op.Sort? {
      forall i | 0 <= i < |ops + [op]| && (ops + [op])[i].Sort? ensures i in sorts + [|ops|] {
        if i < |ops| {
          assert i in sorts;
        } else {
          assert (sorts + [|ops|])[|sorts|] == i;
        }
      }
    }
  }

  lemma NextInLine<T(!new)>(ops: seq<Operation<T>>, sorts: seq<nat>, next: nat, a: nat)
    requires SortsFrom(ops, sorts, next, a) && a <= |ops| && NextSort(ops, a) < |ops|
    ensures next < |sorts| && sorts[next] == NextSort(ops, a)
    ensures SortsFrom(ops, sorts, next + 1, NextSort(ops, a) + 1)
  {
    var b := NextSort(ops, a);
    var j :| 0 <= j < |sorts| && sorts[j] == b;
    assert next <= j;
    assert sorts[next] >= a;
  }

  lemma ThroughStart<T(!new)>(ops: seq<Operation<T>>, xs: seq<T>)
    ensures Through(ops, 0, 0, xs) == xs
  {
  }

  /** A phase leaves its stages with the memory they keep. */
  lemma PhaseEnds<T(!new)>(ops: seq<Operation<T>>, before: seq<Operation<T>>, now: seq<Operation<T>>, a: nat,
                           src: seq<T>, xs: seq<T>)
    requires a <= |ops| == |before| == |now| && before[..a] == now[..a] && SettledTo(ops, before, a, xs)
    requires src == Through(ops, 0, a, xs) && Seen(ops, now, a, NextSort(ops, a), src)
    ensures var b := NextSort(ops, a);
      && Through(ops, a, b, src) == Through(ops, 0, b, xs) && SettledTo(ops, now, b, xs)
      && (b < |ops| ==> now[b] == After(ops[b], Through(ops, 0, b, xs)) && now[b + 1..] == ops[b + 1..])
  {
    hide Stage, After;
    var b := NextSort(ops, a);
    forall k: nat | a <= k <= b ensures Through(ops, 0, k, xs) == Through(ops, a, k, src) {
      ThroughJoin(ops, 0, a, k, xs);
    }
    hide Through;
    forall k | 0 <= k < a ensures now[k] == before[k] {
      assert now[..a][k] == before[..a][k];
    }
  }

  lemma HandsOn<T(!new)>(ops: seq<Operation<T>>, now: seq<Operation<T>>, b: nat, xs: seq<T>)
    requires b < |ops| == |now| && SettledTo(ops, now, b, xs) && ops[b].Sort?
    ensures Stage(ops[b], Through(ops, 0, b, xs)) == Through(ops, 0, b + 1, xs)
    ensures SettledTo(ops, now[b := Settled(ops[b], Through(ops, 0, b, xs))], b + 1, xs)
  {
    hide Stage, After;
  }

  /** When nothing reaches a sort, nothing reaches the stages behind it, and the run is over. */
  lemma NothingLeft<T(!new)>(ops: seq<Operation<T>>, now: seq<Operation<T>>, b: nat, xs: seq<T>)
    requires b < |ops| == |now| && SettledTo(ops, now, b, xs) && Through(ops, 0, b, xs) == []
    requires now[b] == After(ops[b], []) && now[b + 1..] == ops[b + 1..] && forall op | op in ops :: Fresh(op)
    ensures SettledTo(ops, now, |ops|, xs) && Through(ops, 0, |ops|, xs) == []
  {
    hide Stage, After, Fresh, Through, Settled;
    forall k: nat | b <= k <= |ops| ensures Through(ops, 0, k, xs) == [] {
      ThroughJoin(ops, 0, b, k, xs);
      ThroughOfNothing(ops, b, k);
    }
    forall k | b <= k < |ops| ensures now[k] == Settled(ops[k], Through(ops, 0, k, xs)) {
      StageOfNothing(ops[k]);
      SettledNothing(ops[k]);
      if k > b {
        assert now[b + 1..][k - b - 1] == ops[b + 1..][k - b - 1];
      }
    }
  }

  lemma SettledNothing<T(!new)>(op: Operation<T>)
    requires Fresh(op)
    ensures Settled(op, []) == op
  {
    StageOfNothing(op);
  }

  datatype State = Pending | Processing | Buffering | Exhausted | Aborted

  datatype Outcome<!T(!new)> = Answered(answer: Answer<T>) | ProcessingError

  class Sequence<T(!new, ==)> {
    var source: seq<T>
    var position: nat
    var state: State
    var operations: seq<Operation<T>>
    var operationIndex: nat
    var operationLastIndex: nat
    var distinct: bool
    var sorts: seq<nat>
    var sortIndex: nat
    var terminal: Terminal<T>

    /** As the building operations leave a sequence, before a terminal operation starts it. */
    ghost predicate Built()
      reads this
    {
      && state == Pending && position == 0 && operationIndex == 0 && sortIndex == 0
      && SortsFrom(operations, sorts, 0, 0) && forall op | op in operations :: Fresh(op)
    }

    constructor (source: seq<T>, terminal: Terminal<T>)
      ensures Built() && this.source == source && operations == []
    {
      this.source, this.terminal := source, terminal;
      position, state, operations := 0, Pending, [];
      operationIndex, operationLastIndex, distinct, sorts, sortIndex := 0, 0, false, [], 0;
    }

    // ---------- Building ----------

    /** Chains an operation that only the number of operations can keep out; a fifteenth is the last. */
    method Chain(op: Operation<T>) returns (ok: bool)
      requires Built() && Fresh(op) && !op.Sort? && !op.Distinct?
      modifies this`operations
      ensures Built() && ok == (|old(operations)| < OPERATION_LIMIT)
      ensures operations == if ok then old(operations) + [op] else old(operations)
    {
      ok := |operations| < OPERATION_LIMIT;
      if ok {
        ghost var ops := operations;
        operations := operations + [op];
        ChainedSorts(ops, op, sorts);
      }
    }

    /** Chains a limit, which may not be negative. */
    method ChainLimit(max: int) returns (ok: bool)
      requires Built()
      modifies this`operations
      ensures Built() && ok == (|old(operations)| < OPERATION_LIMIT && max >= 0)
      ensures operations == if ok then old(operations) + [Limit(0, max)] else old(operations)
    {
      if max < 0 {
        return false;
      }
      ok := Chain(Limit(0, max));
    }

    /** Chains a skip, which may not be negative. */
    method ChainSkip(count: int) returns (ok: bool)
      requires Built()
      modifies this`operations
      ensures Built() && ok == (|old(operations)| < OPERATION_LIMIT && count >= 0)
      ensures operations == if ok then old(operations) + [Skip(0, count)] else old(operations)
    {
      if count < 0 {
        return false;
      }
      ok := Chain(Skip(0, count));
    }

    /** Only the first distinct of a sequence takes effect; the others are accepted and ignored. */
    method ChainDistinct(id: Identity<T>, available: bool) returns (ok: bool)
      requires Built()
      modifies this`operations, this`distinct
      ensures Built() && (ok ==> distinct)
      ensures ok == (|old(operations)| < OPERATION_LIMIT && (old(distinct) || available))
      ensures operations == if ok && !old(distinct) then old(operations) + [Distinct([], id)] else old(operations)
    {
      if |operations| >= OPERATION_LIMIT {
        return false;
      }
      ok := true;
      if !distinct {
        if !available {
          return false;
        }
        ghost var ops := operations;
        operations := operations + [Distinct([], id)];
        distinct := true;
        ChainedSorts(ops, Distinct([], id), sorts);
      }
    }

    method ChainSort(cmp: Comparator<T>, algorithm: Algorithm, available: bool) returns (ok: bool)
      requires Built()
      modifies this`operations, this`sorts
      ensures Built()
      ensures ok == (|old(operations)| < OPERATION_LIMIT && |old(sorts)| < SORT_OPERATION_LIMIT && available)
      ensures operations == if ok then old(operations) + [Sort([], cmp, algorithm)] else old(operations)
      ensures |sorts| == |old(sorts)| + if ok then 1 else 0
    {
      hide SortsFrom;
      ok := |operations| < OPERATION_LIMIT && |sorts| < SORT_OPERATION_LIMIT && available;
      if ok {
        ghost var ops := operations;
        operations := operations + [Sort([], cmp, algorithm)];
        ChainedSorts(ops, Sort([], cmp, algorithm), sorts);
        sorts := sorts + [|operations| - 1];
      }
    }

    // ---------- Processing ----------

    /** One operation on one element: its new memory, and whether the element is held back. */
    method ExecuteOperation(index: nat, element: T, available: bool, ghost ys: seq<T>, ghost op: Operation<T>)
      returns (skip: bool, passed: T)
      requires index < |operations| && Fresh(op) && operations[index] == After(op, ys) && state != Aborted
      modifies this`operations, this`state, this`operationLastIndex
      ensures available && (op.Distinct? ==> FitsTable(|ys| + 1)) ==> state != Aborted
      ensures state != Aborted ==>
        && |operations| == |old(operations)| && operations == old(operations)[index := operations[index]]
        && Executed(op, operations[index], element, passed, skip, ys)
        && (if op.Sort? then state == Buffering && operationLastIndex == index
            else state == old(state) && operationLastIndex == old(operationLastIndex))
    {
      skip, passed := false, element;
      if op.Distinct? {
        DeduplicatedShorter(op.id, ys);
      }
      match operations[index]
      case Filter(test) =>
        skip := !test(element);
      case Map(operate) =>
        passed := operate(element);
      case Peek(consumed) =>
        operations := operations[index := Peek(consumed + [element])];
      case Limit(count, max) =>
        skip := count >= max;
        operations := operations[index := Limit(count + 1, max)];
      case Skip(count, max) =>
        skip := count < max;
        operations := operations[index := Skip(count + 1, max)];
      case TakeWhile(test) =>
        skip := !test(element);
      case DropWhile(test) =>
        skip := test(element);
      case Distinct(seen, id) =>
        skip := Known(id, seen, element);
        if !skip && !(available && HasRoom(|seen|)) {
          state := Aborted;
          return true, element;
        }
        operations := operations[index := Distinct(if skip then seen else seen + [element], id)];
      case Sort(list, cmp, algorithm) =>
        if !available {
          state := Aborted;
          return true, element;
        }
        operations := operations[index := Sort(list + [element], cmp, algorithm)];
        state := Buffering;
        operationLastIndex := index;
        skip := true;
    }

    /** Half way through a phase that runs from stage `a`: the elements `xs` have been dealt with. */
    ghost predicate InPhase(ops: seq<Operation<T>>, t: Terminal<T>, a: nat, xs: seq<T>)
      reads this
    {
      && a == operationIndex <= |ops| == |operations| && (forall op | op in ops :: Fresh(op))
      && var b := NextSort(ops, a);
      && Seen(ops, operations, a, b, xs)
      && terminal == Finished(t, if b == |ops| then Through(ops, a, b, xs) else [])
      && state == (if b < |ops| && Through(ops, a, b, xs) != [] then Buffering else Processing)
      && (state == Buffering ==> operationLastIndex == b)
    }

    /** Sends one element through the stages of the phase. */
    method PushElement(x: T, plenty: bool, ghost ops: seq<Operation<T>>, ghost t: Terminal<T>, ghost a: nat,
                       ghost xs: seq<T>)
      requires InPhase(ops, t, a, xs)
      modifies this`operations, this`state, this`operationLastIndex, this`terminal
      ensures plenty && SetsSuffice(ops, |xs| + 1) ==> state != Aborted
      ensures state != Aborted ==> InPhase(ops, t, a, xs + [x]) && operations[..a] == old(operations[..a])
    {
      hide Through, After, Executed, Seen, Travelling, Fresh, Finished;
      ghost var b := NextSort(ops, a);
      TravelStarts(ops, operations, a, b, xs, x);
      var e, i := x, operationIndex;
      while i < |operations|
        invariant a <= i <= b && |operations| == |ops|
        invariant Travelling(ops, operations, a, b, i, xs, x, e)
        invariant state == old(state) && operationLastIndex == old(operationLastIndex) && terminal == old(terminal)
        invariant operations[..a] == old(operations[..a])
        decreases |ops| - i
      {
        ghost var before := operations;
        Remembered(ops, operations, a, b, i, xs, x, e);
        ThroughShorter(ops, a, i, xs);
        var available: bool := *;
        var skip, passed := ExecuteOperation(i, e, available || plenty, Through(ops, a, i, xs), ops[i]);
        if state == Aborted {
          return;
        }
        if skip {
          TravelEnds(ops, before, a, b, i, xs, x, e, operations[i], passed);
          assert Seen(ops, operations, a, b, xs + [x]);
          assert i < b ==> Through(ops, a, b, xs + [x]) == Through(ops, a, b, xs);
          assert i == b ==> |Through(ops, a, b, xs + [x])| > 0;
          assert terminal == Finished(t, if b == |ops| then Through(ops, a, b, xs + [x]) else []);
          assert state == Buffering ==> operationLastIndex == b;
          return;
        }
        NotASort(ops[i], operations[i], e, passed, Through(ops, a, i, xs));
        TravelOn(ops, before, a, b, i, xs, x, e, operations[i], passed);
        e, i := passed, i + 1;
      }
      TravelThrough(ops, operations, a, xs, x, e);
      var available: bool := *;
      ExecuteTerminal(e, available || plenty);
      FinishedStep(t, Through(ops, a, b, xs), e);
    }

    method ExecuteTerminal(x: T, available: bool)
      requires state != Aborted
      modifies this`terminal, this`state
      ensures available ==> state != Aborted
      ensures state != Aborted ==> terminal == Received(old(terminal), x) && state == old(state)
    {
      if terminal.ToArray? && !available {
        state := Aborted;
        return;
      }
      terminal := Received(terminal, x);
    }

    /** Runs a phase: all elements of the source, from the stage the phase starts at. */
    method ExecutePipelineOperations(plenty: bool, ghost ops: seq<Operation<T>>, ghost t: Terminal<T>)
      requires state == Pending && position == 0 && operationIndex <= |ops| == |operations|
      requires operations[operationIndex..] == ops[operationIndex..] && terminal == t
        && forall op | op in ops :: Fresh(op)
      modifies this
      ensures plenty && SetsSuffice(ops, |source|) ==> state != Aborted
      ensures unchanged(`operationIndex) && unchanged(`sorts) && unchanged(`sortIndex) && unchanged(`source)
      ensures operationIndex <= |ops|
      ensures state != Aborted ==>
        && |operations| == |ops|
        && var a, b := operationIndex, NextSort(ops, operationIndex);
        && Seen(ops, operations, a, b, source) && operations[..a] == old(operations[..a])
        && terminal == Finished(t, if b == |ops| then Through(ops, a, b, source) else [])
        && (if b < |ops| && Through(ops, a, b, source) != [] then state == Buffering && operationLastIndex == b
            else state == Exhausted)
    {
      hide Through, After, Seen, Fresh, Finished;
      ghost var a, b := operationIndex, NextSort(ops, operationIndex);
      SeenNothing(ops, operations, a, b);
      ThroughOfNothing(ops, a, b);
      FinishedStart(t);
      state := Processing;
      while state != Aborted && position < |source|
        invariant position <= |source| && source == old(source) && operationIndex == a
        invariant sorts == old(sorts) && sortIndex == old(sortIndex)
        invariant plenty && SetsSuffice(ops, |source|) ==> state != Aborted
        invariant state != Aborted ==> InPhase(ops, t, a, source[..position]) && operations[..a] == old(operations[..a])
        decreases |source| - position
      {
        var element := source[position];
        position := position + 1;
        assert source[..position] == source[..position - 1] + [element];
        PushElement(element, plenty, ops, t, a, source[..position - 1]);
      }
      assert state != Aborted ==> source[..position] == source;
      if state == Processing {
        state := Exhausted;
      }
    }

    /** Sorts what the last phase buffered and makes it the source of the next. */
    method ReplacePipelineSource(plenty: bool, ghost ops: seq<Operation<T>>, ghost xs: seq<T>)
      requires state == Buffering && operationIndex <= |ops| == |operations|
      requires operationLastIndex == NextSort(ops, operationIndex) < |ops|
      requires SortsFrom(ops, sorts, sortIndex, operationIndex)
      requires operations[operationLastIndex] == After(ops[operationLastIndex], xs)
      modifies this
      ensures plenty ==> state != Aborted
      ensures state != Aborted ==>
        && old(operationIndex) <= |ops|
        && var b := NextSort(ops, old(operationIndex));
        && state == Pending && position == 0 && operationIndex == b + 1 && terminal == old(terminal)
        && source == Stage(ops[b], xs) && operations == old(operations)[b := Settled(ops[b], xs)]
        && sorts == old(sorts) && SortsFrom(ops, sorts, sortIndex, b + 1)
    {
      hide SortsFrom, SortBy;
      NextInLine(ops, sorts, sortIndex, operationIndex);
      var k := sorts[sortIndex];
      var op := operations[k];
      sortIndex := sortIndex + 1;
      var available: bool := *;
      if !(available || plenty) {
        state := Aborted;
        return;
      }
      source := SortBy(op.algorithm, op.list, op.cmp);
      operations := operations[k := Sort(source, op.cmp, op.algorithm)];
      position := 0;
      operationIndex := operationLastIndex + 1;
      state := Pending;
    }

    /** The answer; that of a to-array takes memory once more. */
    method Finish(plenty: bool) returns (r: Outcome<T>)
      requires state == Exhausted
      modifies this`state
      ensures plenty || !terminal.ToArray? ==> r.Answered?
      ensures r.Answered? ==> r.answer == Result(terminal) && state == Exhausted
      ensures r.ProcessingError? ==> state == Aborted
    {
      var available: bool := *;
      if terminal.ToArray? && !(available || plenty) {
        state := Aborted;
        return ProcessingError;
      }
      r := Answered(Result(terminal));
    }

    /**
       Runs the pipeline. Unless memory runs out, the terminal operation has received exactly the
       list that the stages make of the source one after another, and every stage has seen exactly
       the list that the stages before it make.
     */
    method Process(t: Terminal<T>, plenty: bool) returns (r: Outcome<T>)
      requires Built()
      modifies this
      ensures plenty && SetsSuffice(old(operations), |old(source)|) ==> r.Answered?
      ensures r.Answered? ==>
        r.answer == Result(Finished(t, Through(old(operations), 0, |old(operations)|, old(source))))
      ensures r.Answered? ==> |operations| == |old(operations)| && forall k | 0 <= k < |operations| ::
        operations[k] == Settled(old(operations)[k], Through(old(operations), 0, k, old(source)))
    {
      hide Through, After, Settled, Seen, Fresh, Finished, SortsFrom, Result;
      ghost var ops, xs := operations, source;
      terminal := t;
      ThroughStart(ops, xs);
      FinishedStart(t);
      while true
        invariant state == Pending && position == 0 && operationIndex <= |ops| == |operations| && terminal == t
        invariant SortsFrom(ops, sorts, sortIndex, operationIndex)
        invariant source == Through(ops, 0, operationIndex, xs)
        invariant operations[operationIndex..] == ops[operationIndex..]
        invariant SettledTo(ops, operations, operationIndex, xs)
        decreases |ops| - operationIndex
      {
        ghost var before, a, b := operations, operationIndex, NextSort(ops, operationIndex);
        ghost var src := source;
        ThroughShorter(ops, 0, operationIndex, xs);
        if state == Pending {
          ExecutePipelineOperations(plenty, ops, t);
          if state != Aborted {
            PhaseEnds(ops, before, operations, a, src, xs);
            if b < |ops| {
              if state == Buffering {
                HandsOn(ops, operations, b, xs);
              } else {
                NothingLeft(ops, operations, b, xs);
              }
            }
          }
        }
        if state == Buffering {
          ReplacePipelineSource(plenty, ops, Through(ops, a, b, src));
        }
        if state == Aborted {
          return ProcessingError;
        }
        if state == Exhausted {
          r := Finish(plenty);
          return;
        }
      }
    }
  }
}
