/** What a user of a list iterator sees: the answers and the contents of short runs, from any cursor. */
module CursorLaws {
  import opened Lists
  import opened Sequences

  lemma RunNothing<T>(c: Cursor<T>)
    requires Ready(c)
    ensures Run(c, []) == (c, [])
  {
  }

  lemma RunLast<T>(c: Cursor<T>, commands: seq<Command<T>>, a: Command<T>)
    requires Ready(c)
    ensures var (middle, answers), (end, last) := Run(c, commands), Step(Run(c, commands).0, a, true);
      Run(c, commands + [a]) == (end, answers + [last])
  {
    hide Step;
    assert (commands + [a])[..|commands|] == commands;
  }

  /** A run in two parts. */
  lemma {:induction false} RunJoin<T>(c: Cursor<T>, first: seq<Command<T>>, second: seq<Command<T>>)
    requires Ready(c)
    ensures var (middle, answers), (end, more) := Run(c, first), Run(Run(c, first).0, second);
      Run(c, first + second) == (end, answers + more)
    decreases |second|
  {
    hide Step, Run;
    var (middle, answers) := Run(c, first);
    if second == [] {
      RunNothing(middle);
      assert first + second == first && answers + [] == answers;
    } else {
      var init, a := second[..|second| - 1], second[|second| - 1];
      RunJoin(c, first, init);
      RunLast(c, first + init, a);
      RunLast(middle, init, a);
      assert init + [a] == second && (first + init) + [a] == first + second;
      var (_, more) := Run(middle, init);
      var (_, last) := Step(Run(middle, init).0, a, true);
      assert (answers + more) + [last] == answers + (more + [last]);
    }
  }

  lemma RunOne<T>(c: Cursor<T>, a: Command<T>)
    requires Ready(c)
    ensures var (after, answer) := Step(c, a, true); Run(c, [a]) == (after, [answer])
  {
    hide Step, Run;
    RunNothing(c);
    RunLast(c, [], a);
    assert [] + [a] == [a] && [] + [Step(c, a, true).1] == [Step(c, a, true).1];
  }

  lemma RunTwo<T>(c: Cursor<T>, a: Command<T>, b: Command<T>)
    requires Ready(c)
    ensures var (middle, first) := Step(c, a, true); var (end, second) := Step(middle, b, true);
      Run(c, [a, b]) == (end, [first, second])
  {
    hide Step, Run;
    RunOne(c, a);
    RunLast(c, [a], b);
    var (middle, first) := Step(c, a, true);
    assert [a] + [b] == [a, b] && [first] + [Step(middle, b, true).1] == [first, Step(middle, b, true).1];
  }

  lemma RunThree<T>(c: Cursor<T>, a: Command<T>, b: Command<T>, d: Command<T>)
    requires Ready(c)
    ensures var (middle, first) := Step(c, a, true); var (next, second) := Step(middle, b, true);
      var (end, third) := Step(next, d, true);
      Run(c, [a, b, d]) == (end, [first, second, third])
  {
    hide Step, Run;
    RunTwo(c, a, b);
    RunLast(c, [a, b], d);
    var (next, answers) := Run(c, [a, b]);
    var third := Step(next, d, true).1;
    assert [a, b] + [d] == [a, b, d] && answers + [third] == [answers[0], answers[1], third];
  }

  /** Going forward answers the element behind the cursor, and going back at once the same one. */
  lemma NextAndBack<T>(c: Cursor<T>)
    requires Ready(c)
    ensures c.position < |c.contents| ==>
      var (end, answers) := Run(c, [Next, Previous]);
      && answers == [Element(c.contents[c.position]), Element(c.contents[c.position])]
      && end.contents == c.contents && end.position == c.position
    ensures c.position == |c.contents| ==> Run(c, [Next]) == (c, [Failed(NoSuchElement)])
  {
    hide Run;
    RunOne(c, Next);
    RunTwo(c, Next, Previous);
  }

  /** Going back answers the element before the cursor, and going forward at once the same one. */
  lemma PreviousAndForth<T>(c: Cursor<T>)
    requires Ready(c)
    ensures c.position > 0 ==>
      var (end, answers) := Run(c, [Previous, Next]);
      && answers == [Element(c.contents[c.position - 1]), Element(c.contents[c.position - 1])]
      && end.contents == c.contents && end.position == c.position
    ensures c.position == 0 ==> Run(c, [Previous]) == (c, [Failed(NoSuchElement)])
  {
    hide Run;
    RunOne(c, Previous);
    RunTwo(c, Previous, Next);
  }

  /** `now` is `was` with `x` at position `i`. */
  ghost predicate OnlyChanged<T>(was: seq<T>, now: seq<T>, i: nat, x: T) {
    i < |now| == |was| && now[i] == x && forall k | 0 <= k < |was| && k != i :: now[k] == was[k]
  }

  lemma SteppedNext<T>(c: Cursor<T>)
    requires Ready(c) && c.position < |c.contents|
    ensures Step(c, Next, true) == (Cursor(c.contents, c.position + 1, c.position), Element(c.contents[c.position]))
  {
  }

  lemma SteppedPrevious<T>(c: Cursor<T>)
    requires Ready(c) && c.position > 0
    ensures Step(c, Previous, true)
      == (Cursor(c.contents, c.position - 1, c.position - 1), Element(c.contents[c.position - 1]))
  {
  }

  lemma SteppedSet<T>(c: Cursor<T>, x: T)
    requires Ready(c) && c.last >= 0
    ensures Step(c, Set(x), true) == (Cursor(c.contents[c.last := x], c.position, c.last), Done)
  {
  }

  /** Setting after going forward changes the element answered, and no other; so does setting again. */
  lemma SetAfterNext<T>(c: Cursor<T>, x: T, y: T)
    requires Ready(c) && c.position < |c.contents|
    ensures Run(c, [Next, Set(x)]).1 == [Element(c.contents[c.position]), Done]
    ensures OnlyChanged(c.contents, Run(c, [Next, Set(x)]).0.contents, c.position, x)
    ensures OnlyChanged(c.contents, Run(c, [Next, Set(x), Set(y)]).0.contents, c.position, y)
    ensures Run(c, [Next, Set(x), Previous]).1[2] == Element(x)
  {
    hide Run, Step;
    RunTwo(c, Next, Set(x));
    RunThree(c, Next, Set(x), Set(y));
    RunThree(c, Next, Set(x), Previous);
    SteppedNext(c);
    var c1 := Step(c, Next, true).0;
    SteppedSet(c1, x);
    var c2 := Step(c1, Set(x), true).0;
    SteppedSet(c2, y);
    SteppedPrevious(c2);
  }

  /** So does setting after going back. */
  lemma SetAfterPrevious<T>(c: Cursor<T>, x: T, y: T)
    requires Ready(c) && c.position > 0
    ensures Run(c, [Previous, Set(x)]).1 == [Element(c.contents[c.position - 1]), Done]
    ensures OnlyChanged(c.contents, Run(c, [Previous, Set(x)]).0.contents, c.position - 1, x)
    ensures OnlyChanged(c.contents, Run(c, [Previous, Set(x), Set(y)]).0.contents, c.position - 1, y)
    ensures Run(c, [Previous, Set(x), Next]).1[2] == Element(x)
  {
    hide Run, Step;
    RunTwo(c, Previous, Set(x));
    RunThree(c, Previous, Set(x), Set(y));
    RunThree(c, Previous, Set(x), Next);
    SteppedPrevious(c);
    var c1 := Step(c, Previous, true).0;
    SteppedSet(c1, x);
    var c2 := Step(c1, Set(x), true).0;
    SteppedSet(c2, y);
    SteppedNext(c2);
  }

  lemma SteppedRemove<T>(c: Cursor<T>)
    requires Ready(c) && c.last >= 0
    ensures var s, i := c.contents, c.last;
      Step(c, Remove, true) == (Cursor(s[..i] + s[i + 1..], i, -1), Done)
  {
  }

  /** An element on either side of a cursor, or the report that there is none. */
  ghost function AnswerAt<T>(s: seq<T>, i: int): Answer<T> {
    if 0 <= i < |s| then Element(s[i]) else Failed(NoSuchElement)
  }

  lemma Neighbours<T>(s: seq<T>, i: nat, d: Cursor<T>)
    requires i < |s| && d == Cursor(s[..i] + s[i + 1..], i, -1)
    ensures Ready(d) && Step(d, Next, true).1 == AnswerAt(s, i + 1) && Step(d, Previous, true).1 == AnswerAt(s, i - 1)
  {
  }

  /** Removing after going forward takes out the element answered, and the cursor stands between its neighbours. */
  lemma RemoveAfterNext<T>(c: Cursor<T>)
    requires Ready(c) && c.position < |c.contents|
    ensures var s, i := c.contents, c.position;
      && Run(c, [Next, Remove]).1 == [Element(s[i]), Done] && Run(c, [Next, Remove]).0.contents == s[..i] + s[i + 1..]
      && Run(c, [Next, Remove, Next]).1[2] == AnswerAt(s, i + 1)
      && Run(c, [Next, Remove, Previous]).1[2] == AnswerAt(s, i - 1)
  {
    hide Run, Step;
    RunTwo(c, Next, Remove);
    RunThree(c, Next, Remove, Next);
    RunThree(c, Next, Remove, Previous);
    SteppedNext(c);
    SteppedRemove(Step(c, Next, true).0);
    Neighbours(c.contents, c.position, Step(Step(c, Next, true).0, Remove, true).0);
  }

  /** So does removing after going back. */
  lemma RemoveAfterPrevious<T>(c: Cursor<T>)
    requires Ready(c) && c.position > 0
    ensures var s, i := c.contents, c.position - 1;
      && Run(c, [Previous, Remove]).1 == [Element(s[i]), Done]
      && Run(c, [Previous, Remove]).0.contents == s[..i] + s[i + 1..]
      && Run(c, [Previous, Remove, Next]).1[2] == AnswerAt(s, i + 1)
      && Run(c, [Previous, Remove, Previous]).1[2] == AnswerAt(s, i - 1)
  {
    hide Run, Step;
    RunTwo(c, Previous, Remove);
    RunThree(c, Previous, Remove, Next);
    RunThree(c, Previous, Remove, Previous);
    SteppedPrevious(c);
    SteppedRemove(Step(c, Previous, true).0);
    Neighbours(c.contents, c.position - 1, Step(Step(c, Previous, true).0, Remove, true).0);
  }

  /** Setting does not change which element a removal takes out. */
  lemma RemoveAfterSet<T>(c: Cursor<T>, x: T)
    requires Ready(c)
    ensures c.position < |c.contents| ==>
      Run(c, [Next, Set(x), Remove]).0.contents == c.contents[..c.position] + c.contents[c.position + 1..]
    ensures c.position > 0 ==>
      Run(c, [Previous, Set(x), Remove]).0.contents == c.contents[..c.position - 1] + c.contents[c.position..]
  {
    hide Run;
    RunTwo(c, Next, Set(x));
    RunTwo(c, Previous, Set(x));
    RunThree(c, Next, Set(x), Remove);
    RunThree(c, Previous, Set(x), Remove);
  }

  /** An added element comes between the two parts of the list; going back answers it, going on what followed. */
  lemma AddedBetween<T>(c: Cursor<T>, x: T)
    requires Ready(c)
    ensures var s, p := c.contents, c.position;
      && Run(c, [Add(x), Previous]).1 == [Done, Element(x)]
      && Run(c, [Add(x)]).0.contents == Run(c, [Add(x), Previous]).0.contents == s[..p] + [x] + s[p..]
      && Run(c, [Add(x), Next]).1[1] == (if p < |s| then Element(s[p]) else Failed(NoSuchElement))
  {
    hide Run;
    RunOne(c, Add(x));
    RunTwo(c, Add(x), Previous);
    RunTwo(c, Add(x), Next);
  }

  /** After adding, removing or resetting there is nothing to set or remove. */
  lemma NothingAnswered<T>(c: Cursor<T>, a: Command<T>, b: Command<T>)
    requires Ready(c) && (a.Add? || a.Remove? || a.Reset?) && (b.Set? || b.Remove?)
    ensures Run(c, [a, b]).1[1] == Failed(IllegalState) && Run(c, [a, b]).0 == Run(c, [a]).0
  {
    hide Run;
    RunOne(c, a);
    RunTwo(c, a, b);
  }

  ghost function Times<T>(a: Command<T>, n: nat): (r: seq<Command<T>>)
    ensures |r| == n
  {
    seq(n, _ => a)
  }

  lemma OneMoreTime<T>(a: Command<T>, n: nat)
    ensures Times(a, n + 1) == Times(a, n) + [a] && Times(a, n + 1)[..n] == Times(a, n)
  {
  }

  /** Going forward `n` times from the beginning answers the first `n` elements in order. */
  lemma {:induction false} Traversed<T>(c: Cursor<T>, n: nat)
    requires Ready(c) && c.position + n <= |c.contents|
    ensures var (end, answers) := Run(c, Times(Next, n));
      && end.contents == c.contents && end.position == c.position + n
      && forall k | 0 <= k < n :: answers[k] == Element(c.contents[c.position + k])
  {
    hide Run;
    if n == 0 {
      RunNothing(c);
      assert Times<T>(Next, 0) == [];
    } else {
      OneMoreTime<T>(Next, n - 1);
      RunLast(c, Times(Next, n - 1), Next);
      Traversed(c, n - 1);
    }
  }

  lemma {:induction false} TraversedBack<T>(c: Cursor<T>, n: nat)
    requires Ready(c) && n <= c.position
    ensures var (end, answers) := Run(c, Times(Previous, n));
      && end.contents == c.contents && end.position == c.position - n
      && forall k | 0 <= k < n :: answers[k] == Element(c.contents[c.position - 1 - k])
  {
    hide Run;
    if n == 0 {
      RunNothing(c);
      assert Times<T>(Previous, 0) == [];
    } else {
      OneMoreTime<T>(Previous, n - 1);
      RunLast(c, Times(Previous, n - 1), Previous);
      TraversedBack(c, n - 1);
    }
  }

  /**
     After a reset, going forward as often as there are elements answers the contents in order, and going
     back as often answers them in the opposite order.
   */
  lemma WholeTraversal<T>(c: Cursor<T>)
    requires Ready(c)
    ensures var n := |c.contents|;
      var (end, answers) := Run(c, [Reset] + Times(Next, n));
      && answers[0] == Done && end.contents == c.contents
      && (forall k | 0 <= k < n :: answers[1 + k] == Element(c.contents[k]))
      && Run(end, [Next]).1 == [Failed(NoSuchElement)]
      && forall k | 0 <= k < n :: Run(end, Times(Previous, n)).1[k] == Element(c.contents[n - 1 - k])
  {
    hide Run;
    var n := |c.contents|;
    RunOne(c, Reset);
    var start := Run(c, [Reset]).0;
    Traversed(start, n);
    RunJoin(c, [Reset], Times(Next, n));
    var end := Run(start, Times(Next, n)).0;
    NextAndBack(end);
    TraversedBack(end, n);
  }
}
