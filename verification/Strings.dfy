/** Replacing substrings and splitting: in both, a counting pass fixes the room that a second pass fills. */
module Strings {

  ghost predicate Matches(s: string, i: int, target: string) {
    0 <= i && i + |target| <= |s| && s[i..i + |target|] == target
  }

  /** The leftmost occurrence is replaced, then the rest behind it is dealt with alike. */
  function Replaced(s: string, target: string, replacement: string): string
    requires target != []
  {
    if |s| < |target| then s
    else if s[..|target|] == target then replacement + Replaced(s[|target|..], target, replacement)
    else [s[0]] + Replaced(s[1..], target, replacement)
  }

  /** How many leftmost, non-overlapping occurrences there are. */
  ghost function Occurrences(s: string, target: string): nat
    requires target != []
  {
    if |s| < |target| then 0
    else if s[..|target|] == target then 1 + Occurrences(s[|target|..], target)
    else Occurrences(s[1..], target)
  }

  /** The counted matches fix the length of the result. */
  lemma {:induction false} ReplacedLength(s: string, target: string, replacement: string)
    requires target != []
    ensures |Replaced(s, target, replacement)| == |s| + Occurrences(s, target) * (|replacement| - |target|)
  {
    if |s| >= |target| {
      if s[..|target|] == target {
        ReplacedLength(s[|target|..], target, replacement);
        Distributes(Occurrences(s[|target|..], target), |replacement| - |target|);
      } else {
        ReplacedLength(s[1..], target, replacement);
      }
    }
  }

  lemma Distributes(n: nat, d: int)
    ensures (1 + n) * d == d + n * d
  {
  }

  /** Replacing a target by itself changes nothing. */
  lemma {:induction false} ReplacedByItself(s: string, target: string)
    requires target != []
    ensures Replaced(s, target, target) == s
  {
    if |s| >= |target| {
      if s[..|target|] == target {
        ReplacedByItself(s[|target|..], target);
        assert s == s[..|target|] + s[|target|..];
      } else {
        ReplacedByItself(s[1..], target);
      }
    }
  }

  /** Where the target does not occur nothing is replaced. */
  lemma {:induction false} NothingReplaced(s: string, target: string, replacement: string)
    requires target != [] && forall i :: !Matches(s, i, target)
    ensures Replaced(s, target, replacement) == s && Occurrences(s, target) == 0
  {
    if |s| >= |target| {
      assert s[0..0 + |target|] == s[..|target|];
      assert !Matches(s, 0, target);
      forall i ensures !Matches(s[1..], i, target) {
        if 0 <= i && i + |target| <= |s[1..]| {
          assert s[1..][i..i + |target|] == s[i + 1..i + 1 + |target|];
          assert !Matches(s, i + 1, target);
        }
      }
      NothingReplaced(s[1..], target, replacement);
    }
  }

  /** One step: a match in front is replaced, otherwise one character stays. */
  lemma ReplacedOnce(s: string, target: string, replacement: string)
    requires target != [] && |target| <= |s|
    ensures Replaced(s, target, replacement) ==
      if Matches(s, 0, target) then replacement + Replaced(s[|target|..], target, replacement)
      else [s[0]] + Replaced(s[1..], target, replacement)
  {
    assert s[0..0 + |target|] == s[..|target|];
  }

  lemma MatchBehind(s: string, j: nat, target: string)
    requires s != []
    ensures Matches(s[1..], j, target) <==> Matches(s, j + 1, target)
  {
    if j + 1 + |target| <= |s| {
      assert s[1..][j..j + |target|] == s[j + 1..j + 1 + |target|];
    }
  }

  /** The leftmost match is replaced: what is before it stays, and what is behind it is dealt with on its own. */
  lemma {:induction false} ReplacedFirst(s: string, target: string, replacement: string, i: nat)
    requires target != [] && i + |target| <= |s|
    requires Matches(s, i, target) && forall j | 0 <= j < i :: !Matches(s, j, target)
    ensures Replaced(s, target, replacement) == s[..i] + replacement + Replaced(s[i + |target|..], target, replacement)
  {
    hide Matches, Replaced;
    ReplacedOnce(s, target, replacement);
    if i == 0 {
      assert s[..0] + replacement == replacement;
    } else {
      forall j | 0 <= j < i ensures Matches(s[1..], j, target) <==> j == i - 1 {
        MatchBehind(s, j, target);
      }
      ReplacedFirst(s[1..], target, replacement, i - 1);
      BehindMatch(s, i, |target|);
      Regrouped(s[0], s[1..][..i - 1], replacement, Replaced(s[i + |target|..], target, replacement));
    }
  }

  lemma Regrouped(c: char, a: string, b: string, d: string)
    ensures [c] + (a + b + d) == [c] + a + b + d
  {
  }

  lemma BehindMatch(s: string, i: nat, n: nat)
    requires 0 < i && i + n <= |s|
    ensures s[1..][i - 1 + n..] == s[i + n..] && s[..i] == [s[0]] + s[1..][..i - 1]
  {
  }

  /** The comparison of memory at a position. */
  method SameAt(s: string, i: nat, target: string) returns (same: bool)
    requires i + |target| <= |s|
    ensures same == (s[i..][..|target|] == target)
  {
    var j := 0;
    while j < |target| && s[i + j] == target[j]
      invariant 0 <= j <= |target| && forall k | 0 <= k < j :: s[i + k] == target[k]
    {
      j := j + 1;
    }
    same := j == |target|;
    if same {
      assert s[i..][..|target|] == target;
    } else {
      assert s[i..][..|target|][j] != target[j];
    }
  }

  /** The counting pass. */
  method CountMatches(s: string, target: string) returns (count: nat)
    requires target != []
    ensures count == Occurrences(s, target)
  {
    count := 0;
    var i := 0;
    assert s[0..] == s;
    while i <= |s| - |target|
      invariant 0 <= i <= |s|
      invariant count + Occurrences(s[i..], target) == Occurrences(s, target)
    {
      var same := SameAt(s, i, target);
      assert s[i..][1..] == s[i + 1..] && s[i..][|target|..] == s[i + |target|..];
      if same {
        count := count + 1;
        i := i + |target| - 1;
      }
      i := i + 1;
    }
  }

  /**
     Both passes: the output ends exactly at the length computed beforehand. An empty target is refused, as
     is a lack of memory.
   */
  method ReplaceSubstring(s: string, target: string, replacement: string, available: bool) returns (r: array?<char>)
    ensures r == null <==> target == [] || !available
    ensures r != null ==> fresh(r) && r[..] == Replaced(s, target, replacement)
  {
    if |target| == 0 {
      return null;
    }
    var count := CountMatches(s, target);
    ReplacedLength(s, target, replacement);
    if !available {
      return null;
    }
    r := CopyReplacing(s, target, replacement, |s| + count * (|replacement| - |target|));
  }

  /** The copying pass. */
  method CopyReplacing(s: string, target: string, replacement: string, length: int) returns (output: array<char>)
    requires target != [] && length == |Replaced(s, target, replacement)|
    ensures fresh(output) && output[..] == Replaced(s, target, replacement)
  {
    hide Replaced;
    output := new char[length];
    var input, index := 0, 0;
    ghost var all := Replaced(s, target, replacement);
    assert s[0..] == s && output[..0] == [];
    while input < |s|
      invariant 0 <= input <= |s| && 0 <= index <= output.Length
      invariant output[..index] + Replaced(s[input..], target, replacement) == all
    {
      var same := false;
      if input <= |s| - |target| {
        same := SameAt(s, input, target);
      }
      ReplacedStep(s, input, target, replacement);
      ghost var done := output[..index];
      if same {
        CopyInto(output, index, replacement);
        index := index + |replacement|;
        input := input + |target|;
      } else {
        output[index] := s[input];
        index, input := index + 1, input + 1;
        assert output[..index] == done + [s[input - 1]];
      }
    }
    NothingLeft(target, replacement);
    assert s[input..] == [];
    assert output[..index] == output[..];
  }

  lemma NothingLeft(target: string, replacement: string)
    requires target != []
    ensures Replaced([], target, replacement) == []
  {
  }

  lemma ReplacedStep(s: string, i: nat, target: string, replacement: string)
    requires target != [] && i < |s|
    ensures i + |target| <= |s| && s[i..][..|target|] == target ==>
      Replaced(s[i..], target, replacement) == replacement + Replaced(s[i + |target|..], target, replacement)
    ensures !(i + |target| <= |s| && s[i..][..|target|] == target) ==>
      Replaced(s[i..], target, replacement) == [s[i]] + Replaced(s[i + 1..], target, replacement)
  {
    var rest := s[i..];
    assert rest[1..] == s[i + 1..];
    if i + |target| <= |s| {
      assert rest[|target|..] == s[i + |target|..];
    } else {
      assert Replaced(rest, target, replacement) == rest && Replaced(rest[1..], target, replacement) == rest[1..];
    }
  }

  method CopyInto(to: array<char>, at: nat, from: string)
    requires at + |from| <= to.Length
    modifies to
    ensures to[..at + |from|] == old(to[..at]) + from
  {
    for i := 0 to |from|
      invariant to[..at + i] == old(to[..at]) + from[..i]
    {
      to[at + i] := from[i];
    }
  }

  // ---------- Splitting ----------

  /** The pieces between the delimiters. */
  function Pieces(s: string, delimiter: char): (r: seq<string>)
    ensures |r| > 0
  {
    if s == [] then [[]]
    else
      var rest := Pieces(s[1..], delimiter);
      if s[0] == delimiter then [[]] + rest else [[s[0]] + rest[0]] + rest[1..]
  }

  function Joined(pieces: seq<string>, delimiter: char): string
    requires |pieces| > 0
  {
    if |pieces| == 1 then pieces[0] else pieces[0] + [delimiter] + Joined(pieces[1..], delimiter)
  }

  /** Joining the pieces gives the string back, and no piece contains the delimiter. */
  lemma {:induction false} SplitRoundTrip(s: string, delimiter: char)
    ensures Joined(Pieces(s, delimiter), delimiter) == s
    ensures forall p | p in Pieces(s, delimiter) :: delimiter !in p
  {
    if s != [] {
      var rest := Pieces(s[1..], delimiter);
      SplitRoundTrip(s[1..], delimiter);
      var pieces := Pieces(s, delimiter);
      if s[0] == delimiter {
        assert pieces[1..] == rest;
      } else {
        assert pieces[1..] == rest[1..];
      }
    }
  }

  function Delimiters(s: string, delimiter: char): nat {
    if s == [] then 0 else (if s[|s| - 1] == delimiter then 1 else 0) + Delimiters(s[..|s| - 1], delimiter)
  }

  lemma {:induction false} OnePiece(s: string, delimiter: char)
    requires delimiter !in s
    ensures Pieces(s, delimiter) == [s]
  {
    if s != [] {
      OnePiece(s[1..], delimiter);
      assert s == [s[0]] + s[1..];
    }
  }

  /** A piece without delimiters behind the last delimiter. */
  lemma {:induction false} TailPiece(s: string, delimiter: char, tail: string)
    requires delimiter !in tail
    ensures Pieces(s + [delimiter] + tail, delimiter) == Pieces(s, delimiter) + [tail]
  {
    var all := s + [delimiter] + tail;
    if s == [] {
      assert all[1..] == tail;
      OnePiece(tail, delimiter);
    } else {
      TailPiece(s[1..], delimiter, tail);
      assert all[1..] == s[1..] + [delimiter] + tail;
    }
  }

  /** The pieces before position `start`, which is the beginning or comes behind a delimiter. */
  ghost function PiecesBefore(s: string, delimiter: char, start: nat): seq<string>
    requires start <= |s|
  {
    if start == 0 then [] else Pieces(s[..start - 1], delimiter)
  }

  ghost predicate PieceStarts(s: string, delimiter: char, start: nat, i: nat) {
    start <= i <= |s| && delimiter !in s[start..i] && (start > 0 ==> s[start - 1] == delimiter)
  }

  lemma PieceEnds(s: string, delimiter: char, start: nat, i: nat)
    requires PieceStarts(s, delimiter, start, i)
    ensures PiecesBefore(s, delimiter, start) + [s[start..i]] == Pieces(s[..i], delimiter)
  {
    if start == 0 {
      assert s[..i] == s[0..i];
      OnePiece(s[..i], delimiter);
    } else {
      TailPiece(s[..start - 1], delimiter, s[start..i]);
      assert s[..i] == s[..start - 1] + [delimiter] + s[start..i];
    }
  }

  lemma AsManyAsDelimiters(s: string, delimiter: char, i: nat)
    requires i <= |s|
    ensures |Pieces(s[..i], delimiter)| == 1 + Delimiters(s[..i], delimiter)
    ensures Delimiters(s[..i], delimiter) <= Delimiters(s, delimiter)
    ensures i < |s| && s[i] == delimiter ==> Delimiters(s[..i], delimiter) < Delimiters(s, delimiter)
  {
    CountPieces(s[..i], delimiter);
    DelimitersGrow(s, delimiter, i);
  }

  lemma {:induction false} CountPieces(s: string, delimiter: char)
    ensures |Pieces(s, delimiter)| == 1 + Delimiters(s, delimiter)
  {
    if s != [] {
      var init, c := s[..|s| - 1], s[|s| - 1];
      CountPieces(init, delimiter);
      assert s == init + [c];
      LastCharacter(init, c, delimiter);
    }
  }

  lemma {:induction false} LastCharacter(s: string, c: char, delimiter: char)
    ensures |Pieces(s + [c], delimiter)| == |Pieces(s, delimiter)| + if c == delimiter then 1 else 0
  {
    if s == [] {
      assert (s + [c])[1..] == [];
    } else {
      LastCharacter(s[1..], c, delimiter);
      assert (s + [c])[1..] == s[1..] + [c];
    }
  }

  method CountDelimiters(s: string, delimiter: char) returns (count: nat)
    ensures count == 1 + Delimiters(s, delimiter)
  {
    count := 1;
    for i := 0 to |s|
      invariant count == 1 + Delimiters(s[..i], delimiter)
    {
      assert s[..i + 1][..i] == s[..i];
      if s[i] == delimiter {
        count := count + 1;
      }
    }
    assert s[..|s|] == s;
  }

  /**
     The counted delimiters fix the number of pieces; every slot is filled. `memory` tells which allocations
     succeed, the array coming first and the pieces after it; without any of them there is no result.
   */
  method Split(s: string, delimiter: char, memory: int -> bool) returns (strings: array?<string>)
    ensures strings != null <==> forall k | 0 <= k <= |Pieces(s, delimiter)| :: memory(k)
    ensures strings != null ==> fresh(strings) && strings[..] == Pieces(s, delimiter)
  {
    hide Pieces, Delimiters;
    var count := CountDelimiters(s, delimiter);
    AsManyAsDelimiters(s, delimiter, |s|);
    assert s[..|s|] == s;
    if !memory(0) {
      return null;
    }
    var slots := new string[count];
    var index, start, i := 0, 0, 0;
    while i <= |s|
      invariant 0 <= index <= count && i <= |s| + 1
      invariant i <= |s| ==> PieceStarts(s, delimiter, start, i) && slots[..index] == PiecesBefore(s, delimiter, start)
      invariant i > |s| ==> slots[..index] == Pieces(s, delimiter)
      invariant forall k | 0 <= k <= index :: memory(k)
    {
      AsManyAsDelimiters(s, delimiter, i);
      PieceEnds(s, delimiter, start, i);
      if i == |s| || s[i] == delimiter {
        if !memory(index + 1) {
          return null;
        }
        slots[index] := s[start..i];
        index := index + 1;
        start := i + 1;
      }
      i := i + 1;
    }
    assert slots[..] == slots[..index];
    strings := slots;
  }

  lemma {:induction false} DelimitersGrow(s: string, delimiter: char, i: nat)
    requires i <= |s|
    ensures Delimiters(s[..i], delimiter) <= Delimiters(s, delimiter)
    ensures i < |s| && s[i] == delimiter ==> Delimiters(s[..i], delimiter) < Delimiters(s, delimiter)
    decreases |s| - i
  {
    if i == |s| {
      assert s[..i] == s;
    } else {
      DelimitersGrow(s, delimiter, i + 1);
      assert s[..i + 1][..i] == s[..i];
    }
  }
}
