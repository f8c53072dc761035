/**
 What both list implementations promise: the errors their operations report, rotation, and the
 cursor that a list iterator moves over the elements.
 */
module Lists {
  import opened Arithmetic
  import opened Sequences

  datatype Error = IndexOutOfBounds | OutOfMemory | NoSuchElement | IllegalState | ConcurrentModification

  datatype Result<+T> = Ok(value: T) | Err(error: Error)

  // ---------- Rotation ----------

  /** Every element moves `distance` places towards the end, around the corner; negative distances move it back. */
  function Rotated<T>(s: seq<T>, distance: int): (r: seq<T>)
    ensures |r| == |s|
  {
    if s == [] then [] else var d := distance % |s|; s[|s| - d..] + s[..|s| - d]
  }

  lemma RotatedAt<T>(s: seq<T>, distance: int, i: nat)
    requires i < |s|
    ensures Rotated(s, distance)[(i + distance) % |s|] == s[i]
  {
    var n, d := |s|, distance % |s|;
    SumMod(distance, i, n);
    if i + d < n {
      DivMod(i + d, 0, i + d, n);
    } else {
      DivMod(i + d, 1, i + d - n, n);
    }
  }

  lemma RotationsAdd<T>(s: seq<T>, a: int, b: int)
    ensures Rotated(Rotated(s, a), b) == Rotated(s, a + b)
  {
    hide Rotated;
    forall i: nat | i < |s| ensures Rotated(Rotated(s, a), b)[i] == Rotated(s, a + b)[i] {
      RotatedTwiceAt(s, a, b, i);
    }
  }

  /** Rotations add up; rotating back restores the list. */
  lemma RotatedTwice<T>(s: seq<T>, a: int, b: int)
    ensures Rotated(Rotated(s, a), b) == Rotated(s, a + b)
    ensures Rotated(Rotated(s, a), -a) == s
  {
    hide Rotated;
    RotationsAdd(s, a, b);
    RotationsAdd(s, a, -a);
    NoRotation(s, 0);
    assert a + -a == 0;
  }

  lemma RotatedTwiceAt<T>(s: seq<T>, a: int, b: int, i: nat)
    requires i < |s|
    ensures Rotated(Rotated(s, a), b)[i] == Rotated(s, a + b)[i]
  {
    hide Rotated;
    var n := |s|;
    var from := (i - a - b) % n;
    SumMod(i - a - b, a + b, n);
    DivMod(i, 0, i, n);
    SumMod(from + a, b, n);
    RotatedAt(s, a + b, from);
    RotatedAt(s, a, from);
    RotatedAt(Rotated(s, a), b, (from + a) % n);
    assert (from + (a + b)) % n == i && from + a + b == from + (a + b);
  }

  lemma NoRotation<T>(s: seq<T>, distance: int)
    requires |s| <= 1 || distance % |s| == 0
    ensures Rotated(s, distance) == s
  {
  }

  /** Positions `start` to `end` in the opposite order. */
  function ReversedRange<T>(s: seq<T>, start: int, end: int): (r: seq<T>)
    requires 0 <= start <= end + 1 <= |s|
    ensures |r| == |s|
  {
    seq(|s|, i requires 0 <= i < |s| => if start <= i <= end then s[start + end - i] else s[i])
  }

  lemma ReversedRangeMeans<T>(s: seq<T>, start: int, end: int)
    requires 0 <= start <= end + 1 <= |s|
    ensures var r := ReversedRange(s, start, end);
      && r[..start] == s[..start] && r[end + 1..] == s[end + 1..]
      && (forall i | start <= i <= end :: r[i] == s[start + end - i])
      && ReversedRange(r, start, end) == s
  {
  }

  lemma ThreeReversals<T>(s: seq<T>, d: nat)
    requires d < |s|
    ensures var n := |s|;
      ReversedRange(ReversedRange(ReversedRange(s, 0, n - 1), 0, d - 1), d, n - 1) == s[n - d..] + s[..n - d]
  {
  }

  lemma RotatedBy<T>(s: seq<T>, distance: int, d: nat)
    requires s != [] && d == distance % |s|
    ensures Rotated(s, distance) == s[|s| - d..] + s[..|s| - d]
    ensures d == 0 ==> Rotated(s, distance) == s
  {
  }

  // ---------- The cursor machine ----------

  /** A list under an iterator: the cursor sits between elements; `last` is the position returned last, or -1. */
  datatype Cursor<T> = Cursor(contents: seq<T>, position: int, last: int)

  datatype Command<T> = Next | Previous | Add(element: T) | Set(element: T) | Remove | Reset

  datatype Answer<T> = Element(element: T) | Done | Failed(error: Error)

  ghost predicate Ready<T>(c: Cursor<T>) {
    && 0 <= c.position <= |c.contents|
    && (c.last == -1 || ((c.last == c.position || c.last == c.position - 1) && 0 <= c.last < |c.contents|))
  }

  /** One command, with `room` telling whether memory for an added element can be had. */
  ghost function Step<T>(c: Cursor<T>, command: Command<T>, room: bool): (r: (Cursor<T>, Answer<T>))
    requires Ready(c)
    ensures Ready(r.0)
  {
    match command
    case Next =>
      if c.position < |c.contents|
      then (Cursor(c.contents, c.position + 1, c.position), Element(c.contents[c.position]))
      else (c, Failed(NoSuchElement))
    case Previous =>
      if c.position > 0
      then (Cursor(c.contents, c.position - 1, c.position - 1), Element(c.contents[c.position - 1]))
      else (c, Failed(NoSuchElement))
    case Add(x) =>
      if room then (Cursor(Inserted(c.contents, c.position, x), c.position + 1, -1), Done) else (c, Failed(OutOfMemory))
    case Set(x) =>
      if c.last >= 0 then (c.(contents := c.contents[c.last := x]), Done) else (c, Failed(IllegalState))
    case Remove =>
      if c.last < 0 then (c, Failed(IllegalState))
      else (Cursor(Without(c.contents, c.last), if c.last < c.position then c.position - 1 else c.position, -1), Done)
    case Reset =>
      (c.(position := 0, last := -1), Done)
  }

  /** What the array list makes of a command: an `Add` that finds no memory still advances the cursor. */
  ghost function ArrayStep<T>(c: Cursor<T>, command: Command<T>, room: bool): (Cursor<T>, Answer<T>)
    requires Ready(c)
  {
    if command.Add? && !room
    then (Cursor(c.contents, c.position + 1, -1), Failed(OutOfMemory)) else Step(c, command, room)
  }

  /** Where such an `Add` at the end leaves the cursor: behind the list. */
  ghost predicate Astray<T>(c: Cursor<T>) {
    c.position > |c.contents| && c.last == -1
  }

  /**
     There nothing follows, nothing can be set or removed, and an `Add` is out of bounds and leads further
     away; `Reset` leads back.
   */
  ghost function AstrayStep<T>(c: Cursor<T>, command: Command<T>): (r: (Cursor<T>, Answer<T>))
    requires Astray(c) && !command.Previous?
    ensures r.0.contents == c.contents && if command.Reset? then Ready(r.0) else Astray(r.0) && r.1.Failed?
  {
    match command
    case Next => (c, Failed(NoSuchElement))
    case Add(_) => (c.(position := c.position + 1), Failed(IndexOutOfBounds))
    case Set(_) => (c, Failed(IllegalState))
    case Remove => (c, Failed(IllegalState))
    case Reset => (c.(position := 0), Done)
  }

  /** The two list iterators part exactly when an element cannot be added for want of memory. */
  lemma IteratorsPart<T>(c: Cursor<T>, command: Command<T>, room: bool)
    requires Ready(c)
    ensures ArrayStep(c, command, room) == Step(c, command, room) <==> !(command.Add? && !room)
    ensures Ready(ArrayStep(c, command, room).0) <==> !(command.Add? && !room && c.position == |c.contents|)
    ensures command.Add? && !room ==>
      ArrayStep(c, command, room) == (Cursor(c.contents, c.position + 1, -1), Failed(OutOfMemory))
  {
  }

  lemma StepsStray<T>(c: Cursor<T>, command: Command<T>)
    requires Ready(c)
    ensures var failed := ArrayStep(c, command, false).0;
      command.Add? ==> if c.position == |c.contents| then Astray(failed) else Ready(failed)
  {
  }

  /** The final cursor and the answers of a run that never wants for memory. */
  ghost function Run<T>(c: Cursor<T>, commands: seq<Command<T>>): (r: (Cursor<T>, seq<Answer<T>>))
    requires Ready(c)
    ensures Ready(r.0) && |r.1| == |commands|
  {
    if commands == [] then (c, [])
    else
      var (before, answers) := Run(c, commands[..|commands| - 1]);
      var (after, answer) := Step(before, commands[|commands| - 1], true);
      (after, answers + [answer])
  }
}
