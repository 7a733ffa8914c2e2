/**
  Toggling a task checkbox inside a note's text.

  A note marks each task item with a private-use sentinel character: U+E000
  for an unchecked task and U+E001 for a checked one. When a rendered task is
  clicked, its ordinal among the rendered tasks (`taskIndex`, possibly -1 when
  the element is not found) selects which matched character of the text is
  replaced. The text is scanned left to right; a counter numbers every
  character the pattern matches; the matched character whose number equals
  `taskIndex` is replaced by U+E001 if it is U+E000 and by U+E000 otherwise.

  The pattern written in the source is the bracket class `[\ue000|\ue001]`,
  which also matches a literal '|'. `CharClass.AsWritten` models that class
  and is what the click handler uses; `CharClass.Intended` is the class of the
  two sentinels alone, the evidently intended reading.

  JavaScript strings are sequences of UTF-16 code units, while a Dafny `char`
  is a Unicode scalar value. The pattern has no `u` flag and matches single
  code units; both sentinels and '|' are single code units that are not
  surrogates, and so are both replacements. Positions and lengths here are
  therefore counted in scalar values, which agrees with the source's code-unit
  counts for text without characters outside the Basic Multilingual Plane.
*/
module TaskToggle {
  import opened Wrappers

  /** The sentinel of an unchecked task item. */
  const Unchecked: char := '\U{E000}'
  /** The sentinel of a checked task item. */
  const Checked: char := '\U{E001}'
  /** The character the source's bracket class matches besides the sentinels. */
  const Pipe: char := '|'

  datatype CharClass = AsWritten | Intended

  /** Whether the substitution's pattern matches `c`. */
  predicate Matches(cls: CharClass, c: char)
  {
    c == Unchecked || c == Checked || (cls == AsWritten && c == Pipe)
  }

  /** The replacement for the targeted match: U+E000 becomes U+E001, and any
      other matched character becomes U+E000. */
  function Flip(c: char): (r: char)
    ensures r == Unchecked || r == Checked
    ensures r != c
    ensures r == Checked <==> c == Unchecked
  {
    if c == Unchecked then Checked else Unchecked
  }

  /** The number of characters of `s` the pattern matches. The ordinal of the
      match at position `i` is `Count(cls, s[..i])`. */
  function Count(cls: CharClass, s: seq<char>): (n: nat)
    ensures n <= |s|
  {
    if |s| == 0 then 0
    else Count(cls, s[..|s| - 1]) + (if Matches(cls, s[|s| - 1]) then 1 else 0)
  }

  /** The text after the substitution with target ordinal `k`: every position
      keeps its character except a match whose ordinal is `k`, which is
      flipped. */
  function Toggled(cls: CharClass, s: seq<char>, k: int): (r: seq<char>)
    ensures |r| == |s|
    ensures forall i :: 0 <= i < |s| && !Matches(cls, s[i]) ==> r[i] == s[i]
    ensures forall i :: 0 <= i < |s| ==> (Matches(cls, r[i]) <==> Matches(cls, s[i]))
  {
    seq(|s|, i requires 0 <= i < |s| =>
      if Matches(cls, s[i]) && Count(cls, s[..i]) == k then Flip(s[i]) else s[i])
  }

  /** The position of the match whose ordinal is `k`, if there is one. */
  function TargetPosition(cls: CharClass, s: seq<char>, k: int): (p: Option<nat>)
    ensures p.Some? <==> 0 <= k < Count(cls, s)
    ensures p.Some? ==> p.value < |s| && Matches(cls, s[p.value]) && Count(cls, s[..p.value]) == k
  {
    if |s| == 0 then None
    else if Matches(cls, s[|s| - 1]) && Count(cls, s[..|s| - 1]) == k then Some(|s| - 1)
    else
      var p := TargetPosition(cls, s[..|s| - 1], k);
      assert p.Some? ==> s[..|s| - 1][..p.value] == s[..p.value];
      p
  }

  /** The substitution as the source performs it: one left-to-right pass with
      a mutable match counter, comparing the counter's value before its
      increment with `taskIndex`. */
  method ReplaceMatches(cls: CharClass, content: seq<char>, taskIndex: int) returns (result: seq<char>)
    ensures result == Toggled(cls, content, taskIndex)
  {
    var matchCount := 0;
    result := [];
    var i := 0;
    while i < |content|
      invariant 0 <= i <= |content|
      invariant matchCount == Count(cls, content[..i])
      invariant result == Toggled(cls, content, taskIndex)[..i]
    {
      var c := content[i];
      if Matches(cls, c) {
        var replacement := if matchCount == taskIndex then Flip(c) else c;
        matchCount := matchCount + 1;
        result := result + [replacement];
      } else {
        result := result + [c];
      }
      assert content[..i + 1][..i] == content[..i];
      i := i + 1;
    }
  }

  /** Ordinals never decrease along the text, and a match at `i` has a
      smaller ordinal than every later position. */
  lemma {:induction false} CountPrefixMonotone(cls: CharClass, s: seq<char>, i: nat, j: nat)
    requires i <= j <= |s|
    ensures Count(cls, s[..i]) <= Count(cls, s[..j])
    ensures i < j && Matches(cls, s[i]) ==> Count(cls, s[..i]) < Count(cls, s[..j])
  {
    if i < j {
      CountPrefixMonotone(cls, s, i, j - 1);
      assert s[..j][..j - 1] == s[..j - 1];
    }
  }

  /** Two distinct matches never share an ordinal. */
  lemma OrdinalsDistinct(cls: CharClass, s: seq<char>, i: nat, j: nat)
    requires i < |s| && j < |s| && i != j
    requires Matches(cls, s[i]) && Matches(cls, s[j])
    ensures Count(cls, s[..i]) != Count(cls, s[..j])
  {
    if i < j {
      CountPrefixMonotone(cls, s, i, j);
    } else {
      CountPrefixMonotone(cls, s, j, i);
    }
  }

  /** The ordinal of every match is below the total number of matches. */
  lemma OrdinalBelowCount(cls: CharClass, s: seq<char>, i: nat)
    requires i < |s| && Matches(cls, s[i])
    ensures Count(cls, s[..i]) < Count(cls, s)
  {
    CountPrefixMonotone(cls, s, i, |s|);
    assert s[..|s|] == s;
  }

  /** The substitution changes the text at the target position only, and
      there it flips the character; without a target the text is unchanged. */
  lemma ToggleChangesOnlyTarget(cls: CharClass, s: seq<char>, k: int)
    ensures Toggled(cls, s, k) == match TargetPosition(cls, s, k)
      case Some(p) => s[p := Flip(s[p])]
      case None => s
  {
    var t := Toggled(cls, s, k);
    match TargetPosition(cls, s, k)
    case Some(p) =>
      forall i | 0 <= i < |s| && i != p
        ensures t[i] == s[i]
      {
        if Matches(cls, s[i]) {
          OrdinalsDistinct(cls, s, i, p);
        }
      }
    case None =>
      forall i | 0 <= i < |s|
        ensures t[i] == s[i]
      {
        if Matches(cls, s[i]) {
          OrdinalBelowCount(cls, s, i);
        }
      }
  }

  /** A position changes exactly when it is the match whose ordinal equals
      the task index. */
  lemma ChangedPositionIsTarget(cls: CharClass, s: seq<char>, k: int, i: nat)
    requires i < |s|
    ensures Toggled(cls, s, k)[i] != s[i] <==> TargetPosition(cls, s, k) == Some(i)
  {
    ToggleChangesOnlyTarget(cls, s, k);
  }

  /** A task index of -1 (the clicked element was not found) or one past the
      last match leaves the text as it was. */
  lemma OutOfRangeIndexLeavesContent(cls: CharClass, s: seq<char>, k: int)
    requires k < 0 || k >= Count(cls, s)
    ensures Toggled(cls, s, k) == s
  {
    ToggleChangesOnlyTarget(cls, s, k);
  }

  /** Two texts of equal length that match at the same positions number their
      matches alike. */
  lemma {:induction false} CountsAgree(cls: CharClass, a: seq<char>, b: seq<char>, i: nat)
    requires |a| == |b| && i <= |a|
    requires forall j :: 0 <= j < |a| ==> (Matches(cls, a[j]) <==> Matches(cls, b[j]))
    ensures Count(cls, a[..i]) == Count(cls, b[..i])
  {
    if i > 0 {
      CountsAgree(cls, a, b, i - 1);
      assert a[..i][..i - 1] == a[..i - 1];
      assert b[..i][..i - 1] == b[..i - 1];
    }
  }

  /** The substitution keeps the number of matches, and every task keeps its
      ordinal: each index selects the same position before and after. */
  lemma TaskOrdinalsPreserved(cls: CharClass, s: seq<char>, k: int, j: int)
    ensures Count(cls, Toggled(cls, s, k)) == Count(cls, s)
    ensures TargetPosition(cls, Toggled(cls, s, k), j) == TargetPosition(cls, s, j)
  {
    var t := Toggled(cls, s, k);
    CountsAgree(cls, t, s, |s|);
    assert t[..|t|] == t && s[..|s|] == s;
    var pt, ps := TargetPosition(cls, t, j), TargetPosition(cls, s, j);
    if pt.Some? {
      CountsAgree(cls, t, s, pt.value);
      CountsAgree(cls, t, s, ps.value);
      if pt.value != ps.value {
        OrdinalsDistinct(cls, s, pt.value, ps.value);
      }
    }
  }

  /** Toggling the same index twice flips the target twice: a sentinel comes
      back, but a targeted '|' ends as a checked sentinel. */
  lemma ToggleTwice(cls: CharClass, s: seq<char>, k: int)
    ensures Toggled(cls, Toggled(cls, s, k), k) == s <==>
      (TargetPosition(cls, s, k).None? || s[TargetPosition(cls, s, k).value] != Pipe)
    ensures TargetPosition(cls, s, k).Some? && s[TargetPosition(cls, s, k).value] == Pipe ==>
      Toggled(cls, Toggled(cls, s, k), k) == s[TargetPosition(cls, s, k).value := Checked]
  {
    var t := Toggled(cls, s, k);
    TaskOrdinalsPreserved(cls, s, k, k);
    ToggleChangesOnlyTarget(cls, s, k);
    ToggleChangesOnlyTarget(cls, t, k);
    match TargetPosition(cls, s, k)
    case Some(p) =>
      assert Toggled(cls, t, k) == s[p := Flip(Flip(s[p]))];
      if s[p] == Pipe {
        assert Toggled(cls, t, k)[p] != s[p];
      }
    case None =>
  }

  /** With the corrected class, toggling an index twice always restores the
      text and a '|' is never altered. */
  lemma IntendedToggleIsInvolution(s: seq<char>, k: int)
    ensures Toggled(Intended, Toggled(Intended, s, k), k) == s
    ensures forall i :: 0 <= i < |s| && s[i] == Pipe ==> Toggled(Intended, s, k)[i] == Pipe
  {
    ToggleTwice(Intended, s, k);
  }

  /** With the class as written, a '|' before the first task takes ordinal 0:
      clicking the first task turns the '|' into an unchecked sentinel and
      leaves the task as it was, where the corrected class checks the task. */
  lemma PipeTakesFirstTaskOrdinal()
    ensures Toggled(AsWritten, [Pipe, Unchecked], 0) == [Unchecked, Unchecked]
    ensures Toggled(Intended, [Pipe, Unchecked], 0) == [Pipe, Checked]
  {
    var s := [Pipe, Unchecked];
    assert s[..1][..0] == [];
  }
}
