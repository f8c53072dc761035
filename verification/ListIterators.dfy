/** The two list iterators, driven by the same commands, cannot be told apart until the array list cannot grow. */
module ListIterators {
  import opened Arithmetic
  import opened ArrayLists
  import opened LinkedLists
  import opened Lists

  lemma RunStep<T>(c: Cursor<T>, commands: seq<Command<T>>, k: nat)
    requires Ready(c) && k < |commands|
    ensures var (before, answers), (after, more) := Run(c, commands[..k]), Run(c, commands[..k + 1]);
      var (next, answer) := Step(before, commands[k], true);
      after == next && more == answers + [answer]
  {
    assert commands[..k + 1][..k] == commands[..k];
  }

  /** Every addition of the run comes to a list of fewer than `most` elements. */
  ghost predicate Fits<T>(c: Cursor<T>, commands: seq<Command<T>>, most: nat)
    requires Ready(c)
  {
    forall k | 0 <= k < |commands| && commands[k].Add? :: |Run(c, commands[..k]).0.contents| < most
  }

  function Additions<T>(commands: seq<Command<T>>): nat {
    if commands == [] then 0
    else Additions(commands[..|commands| - 1]) + if commands[|commands| - 1].Add? then 1 else 0
  }

  /** In particular a run fits that adds no more elements than there are places left, however long it is. */
  lemma {:induction false} FewAdditionsFit<T>(c: Cursor<T>, commands: seq<Command<T>>, most: nat)
    requires Ready(c) && |c.contents| + Additions(commands) <= most
    ensures Fits(c, commands, most) && |Run(c, commands).0.contents| <= |c.contents| + Additions(commands)
    decreases |commands|
  {
    hide Step;
    if commands != [] {
      var n := |commands| - 1;
      var fewer := commands[..n];
      FewAdditionsFit(c, fewer, most);
      StepSize(Run(c, fewer).0, commands[n]);
      forall k | 0 <= k < |commands| && commands[k].Add? ensures |Run(c, commands[..k]).0.contents| < most {
        if k < n {
          assert commands[..k] == fewer[..k] && fewer[k].Add?;
        }
      }
    }
  }

  /** So it does when the number of places needed, times one more than the factor, is within the largest capacity. */
  lemma PlacesSuffice<T>(c: Cursor<T>, commands: seq<Command<T>>, most: nat, growth: Growth)
    requires Ready(c) && most * (growth.up + growth.down) > MAX_CAPACITY * growth.down
    ensures var places := |c.contents| + Additions(commands);
      places <= most || places * (growth.up + growth.down) <= MAX_CAPACITY * growth.down ==> Fits(c, commands, most)
  {
    hide Fits;
    var places := |c.contents| + Additions(commands);
    if places > most {
      MulMono(most, places, growth.up + growth.down);
    } else {
      FewAdditionsFit(c, commands, most);
    }
  }

  lemma StepSize<T>(c: Cursor<T>, command: Command<T>)
    requires Ready(c)
    ensures |Step(c, command, true).0.contents| <= |c.contents| + if command.Add? then 1 else 0
  {
  }

  /** One command on both, which agree beforehand, and afterwards unless it is an addition the array has no room for. */
  method DoBoth<T(!new, 0)>(a: ArrayIterator<T>, l: LinkedIterator<T>, command: Command<T>)
    returns (fromArray: Answer<T>, fromLinked: Answer<T>)
    requires a.Valid() && l.Valid() && a.State() == l.State()
    modifies a, a.list, a.list.elements, l, l.list, l.list.nodes
    ensures l.Valid() && (l.State(), fromLinked) == Step(old(a.State()), command, true)
    ensures a.list.Valid() && a.list.MostElements() == old(a.list.MostElements())
    ensures fromArray == fromLinked <==> !(command.Add? && old(a.list.size >= a.list.MostElements()))
    ensures fromArray == fromLinked <==> fromArray != Failed(OutOfMemory)
    ensures fromArray == fromLinked ==> a.Valid() && a.State() == l.State()
    ensures a.list.elements == old(a.list.elements) || fresh(a.list.elements)
    ensures forall i | 0 <= i < |l.list.nodes| :: l.list.nodes[i] in old(l.list.nodes) || fresh(l.list.nodes[i])
  {
    hide Growth.Refuses, Chain, Elements, Step, ArrayStep, Limit;
    a.list.RoomBelowLimit(true);
    FailedAddition(a.State(), command);
    fromArray := a.Do(command, true);
    fromLinked := l.Do(command, true);
  }

  lemma FailedAddition<T>(c: Cursor<T>, command: Command<T>)
    requires Ready(c)
    ensures command.Add? ==> Step(c, command, true).1 == Done && ArrayStep(c, command, false).1 == Failed(OutOfMemory)
    ensures !command.Add? ==> Step(c, command, false) == Step(c, command, true) == ArrayStep(c, command, false)
    ensures ArrayStep(c, command, true) == Step(c, command, true) && Step(c, command, true).1 != Failed(OutOfMemory)
  {
  }

  /**
     Any run of commands, as long as there is memory: the answers are the same, and with them contents and
     cursor, exactly when no addition comes to an array that is full and cannot grow. At the first that does
     the iterators part, and the run ends.
   */
  method RunBoth<T(!new, 0)>(a: ArrayIterator<T>, l: LinkedIterator<T>, commands: seq<Command<T>>)
    returns (fromArray: seq<Answer<T>>, fromLinked: seq<Answer<T>>)
    requires a.Valid() && l.Valid() && a.State() == l.State()
    modifies a, a.list, a.list.elements, l, l.list, l.list.nodes
    ensures fromArray == fromLinked <==> Fits(old(a.State()), commands, old(a.list.MostElements()))
    ensures
      var places := old(a.list.size) + Additions(commands);
      (places <= old(a.list.elements.Length) ||
       places * (a.list.growth.up + a.list.growth.down) <= MAX_CAPACITY * a.list.growth.down) ==>
      fromArray == fromLinked
    ensures fromArray == fromLinked ==>
      a.Valid() && l.Valid() && (a.State(), fromArray) == (l.State(), fromLinked) == Run(old(a.State()), commands)
  {
    hide Step, Run, Growth.Refuses, Growth.Valid, Chain, Elements, Limit, Fits, LinkedIterator.State;
    fromArray, fromLinked := [], [];
    ghost var was, most := a.State(), a.list.MostElements();
    PlacesSuffice(was, commands, most, a.list.growth);
    var k := 0;
    FitsSoFar(was, commands, 0, most);
    RunNothing(was, commands[..0]);
    while k < |commands|
      invariant 0 <= k <= |commands| && Fits(was, commands[..k], most)
      invariant a.Valid() && l.Valid() && a.list.MostElements() == most
      invariant a.list.elements == old(a.list.elements) || fresh(a.list.elements)
      invariant forall i | 0 <= i < |l.list.nodes| :: l.list.nodes[i] in old(l.list.nodes) || fresh(l.list.nodes[i])
      invariant (a.State(), fromArray) == Run(was, commands[..k]) == (l.State(), fromLinked)
    {
      RunStep(was, commands, k);
      FitsSoFar(was, commands, k, most);
      var fromA, fromL := DoBoth(a, l, commands[k]);
      fromArray, fromLinked := fromArray + [fromA], fromLinked + [fromL];
      if fromA.Failed? && fromA.error.OutOfMemory? {
        assert fromArray[k] != fromLinked[k];
        return;
      }
      k := k + 1;
    }
    assert commands[..k] == commands;
  }

  lemma RunNothing<T>(c: Cursor<T>, commands: seq<Command<T>>)
    requires Ready(c) && commands == []
    ensures Run(c, commands) == (c, [])
  {
  }

  lemma FitsSoFar<T>(c: Cursor<T>, commands: seq<Command<T>>, k: nat, most: nat)
    requires Ready(c) && k <= |commands|
    ensures k == 0 ==> Fits(c, commands[..k], most)
    ensures k < |commands| && Fits(c, commands[..k], most) ==>
      (Fits(c, commands[..k + 1], most) <==> !(commands[k].Add? && |Run(c, commands[..k]).0.contents| >= most))
    ensures k < |commands| && commands[k].Add? && |Run(c, commands[..k]).0.contents| >= most ==>
      !Fits(c, commands, most)
  {
    hide Run, Step;
    if k < |commands| {
      var more := commands[..k + 1];
      forall j | 0 <= j <= k ensures more[..j] == commands[..j] && more[j] == commands[j] {
      }
      forall j | 0 <= j < k ensures commands[..k][..j] == commands[..j] {
      }
    }
  }
}
