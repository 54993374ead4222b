/** The handful of Go `strings` operations the title heuristic relies on
    (Index, LastIndex, Contains, Split, Join, TrimSpace), restated over
    `seq<char>`.  Every cut point the heuristic uses is a separator
    boundary, so character positions give the same cuts as Go's byte
    offsets. */
module Strings {

  /** Pattern `p` occurs in `s` starting at position `i`. */
  predicate OccursAt(s: string, p: string, i: int)
  {
    0 <= i && i + |p| <= |s| && s[i..i + |p|] == p
  }

  /** `p` occurs somewhere in `s`. */
  predicate Contains(s: string, p: string)
  {
    exists i :: 0 <= i <= |s| && OccursAt(s, p, i)
  }

  /** `i` is the leftmost occurrence of `p` in `s`. */
  ghost predicate IsFirstOccurrence(s: string, p: string, i: int)
  {
    OccursAt(s, p, i) && forall j :: 0 <= j < i ==> !OccursAt(s, p, j)
  }

  /** `i` is the rightmost occurrence of `p` in `s`. */
  ghost predicate IsLastOccurrence(s: string, p: string, i: int)
  {
    OccursAt(s, p, i) && forall j :: i < j ==> !OccursAt(s, p, j)
  }

  lemma OccursInPrefix(s: string, p: string, m: nat, j: int)
    requires m <= |s| && OccursAt(s[..m], p, j)
    ensures OccursAt(s, p, j)
  {
    assert s[..m][j..j + |p|] == s[j..j + |p|];
  }

  lemma OccursInSuffix(s: string, p: string, k: nat, j: int)
    requires k <= |s| && 0 <= j
    ensures OccursAt(s[k..], p, j) <==> OccursAt(s, p, k + j)
  {
    if k + j + |p| <= |s| {
      assert s[k..][j..j + |p|] == s[k + j..k + j + |p|];
    }
  }

  /** Leftmost occurrence of `p` at or after `i`, or -1. */
  function IndexFrom(s: string, p: string, i: nat): (r: int)
    decreases |s| - i
    ensures r == -1 || (i <= r && OccursAt(s, p, r))
    ensures forall j :: i <= j && (r == -1 || j < r) ==> !OccursAt(s, p, j)
  {
    if i + |p| > |s| then -1
    else if s[i..i + |p|] == p then i
    else IndexFrom(s, p, i + 1)
  }

  /** Go's `strings.Index`: the leftmost occurrence of `p`, or -1. */
  function Index(s: string, p: string): (r: int)
    ensures r == -1 <==> !Contains(s, p)
    ensures r != -1 ==> IsFirstOccurrence(s, p, r)
  {
    IndexFrom(s, p, 0)
  }

  /** Rightmost occurrence of `p` starting at or before `i`, or -1. */
  function LastIndexAtOrBefore(s: string, p: string, i: int): (r: int)
    decreases i
    ensures r == -1 || (0 <= r <= i && OccursAt(s, p, r))
    ensures forall j :: r < j <= i ==> !OccursAt(s, p, j)
  {
    if i < 0 then -1
    else if OccursAt(s, p, i) then i
    else LastIndexAtOrBefore(s, p, i - 1)
  }

  /** Go's `strings.LastIndex`: the rightmost occurrence of `p`, or -1. */
  function LastIndex(s: string, p: string): (r: int)
    ensures r == -1 <==> !Contains(s, p)
    ensures r != -1 ==> IsLastOccurrence(s, p, r)
  {
    LastIndexAtOrBefore(s, p, |s| - |p|)
  }

  /** Go's `strings.Join`: the fields with `sep` between neighbours. */
  function Join(fields: seq<string>, sep: string): string
  {
    if |fields| == 0 then ""
    else if |fields| == 1 then fields[0]
    else fields[0] + sep + Join(fields[1..], sep)
  }

  lemma JoinCons(head: string, rest: seq<string>, sep: string)
    requires |rest| >= 1
    ensures Join([head] + rest, sep) == head + sep + Join(rest, sep)
  {
    assert ([head] + rest)[1..] == rest;
  }

  /** A join of two or more fields ends with the separator and the last field. */
  lemma {:induction false} JoinLast(fields: seq<string>, sep: string)
    requires |fields| >= 2
    ensures Join(fields, sep) == Join(fields[..|fields| - 1], sep) + sep + fields[|fields| - 1]
  {
    if |fields| > 2 {
      var tail := fields[1..];
      JoinLast(tail, sep);
      assert tail[..|tail| - 1] == fields[..|fields| - 1][1..];
    }
  }

  /** A join of two or more fields: the earlier fields joined, then the
      last two fields, with separators between. */
  lemma JoinLastTwo(fields: seq<string>, sep: string)
    requires |fields| >= 2
    ensures var n := |fields|;
            Join(fields, sep) == (if n == 2 then "" else Join(fields[..n - 2], sep) + sep)
                                 + fields[n - 2] + sep + fields[n - 1]
  {
    var n := |fields|;
    JoinLast(fields, sep);
    if n > 2 {
      var init := fields[..n - 1];
      JoinLast(init, sep);
      assert init[..n - 2] == fields[..n - 2];
    }
  }

  /** A pattern one of whose characters is missing from `s` does not
      occur in `s`. */
  lemma MissingCharacter(s: string, p: string, k: int)
    requires 0 <= k < |p| && p[k] !in s
    ensures !Contains(s, p)
  {
    forall j | 0 <= j <= |s| ensures !OccursAt(s, p, j) {
      if j + |p| <= |s| {
        assert s[j..j + |p|][k] == s[j + k];
      }
    }
  }

  /** Putting a character that does not start the pattern in front of a
      string without the pattern does not create an occurrence. */
  lemma ConsWithoutOccurrence(c: char, t: string, p: string)
    requires p != [] && c != p[0] && !Contains(t, p)
    ensures !Contains([c] + t, p)
  {
    var s := [c] + t;
    forall j | 0 <= j <= |s| ensures !OccursAt(s, p, j) {
      if 1 <= j && j + |p| <= |s| {
        assert s[j..j + |p|] == t[j - 1..j - 1 + |p|];
        assert !OccursAt(t, p, j - 1);
      }
    }
  }

  /** `x + t` has no occurrence of `p` when `t` has none and no occurrence
      can start inside `x`, because the second character of `p` is neither
      in `x` nor at the start of `t`. */
  lemma NoOccurrenceAcross(x: string, t: string, p: string)
    requires |p| >= 2 && p[1] !in x && (t == [] || t[0] != p[1]) && !Contains(t, p)
    ensures !Contains(x + t, p)
  {
    var s := x + t;
    forall j | 0 <= j <= |s| ensures !OccursAt(s, p, j) {
      if j + |p| <= |s| {
        if j < |x| {
          assert s[j..j + |p|][1] == s[j + 1];
          assert j + 1 < |x| ==> s[j + 1] == x[j + 1];
        } else {
          assert s[j..j + |p|] == t[j - |x|..j - |x| + |p|];
          assert !OccursAt(t, p, j - |x|);
        }
      }
    }
  }

  /** In `x + p + y` the leftmost occurrence of `p` is the one right after
      `x` when no occurrence can start inside `x`: either the first
      character of `p` is not in `x`, or its second character is not in
      `x` and differs from its first. */
  lemma FirstOccurrenceAfter(x: string, p: string, y: string)
    requires p != []
    requires p[0] !in x || (|p| >= 2 && p[1] !in x && p[0] != p[1])
    ensures var s := x + p + y;
            Index(s, p) == |x| && s[..|x|] == x && s[|x| + |p|..] == y
  {
    var s := x + p + y;
    assert OccursAt(s, p, |x|);
    forall j | 0 <= j < |x| ensures !OccursAt(s, p, j) {
      assert s[j] == x[j];
      if |p| >= 2 {
        assert s[j..j + |p|][1] == s[j + 1];
        assert j + 1 < |x| ==> s[j + 1] == x[j + 1];
        assert j + 1 == |x| ==> s[j + 1] == p[0];
      }
    }
    assert IsFirstOccurrence(s, p, |x|);
    assert IsFirstOccurrence(s, p, Index(s, p));
  }

  /** In `x + p + y` where `p` does not occur in `p[1..] + y`, the
      rightmost occurrence of `p` is the one right after `x`. */
  lemma LastOccurrenceBefore(x: string, p: string, y: string)
    requires p != [] && !Contains(p[1..] + y, p)
    ensures var s := x + p + y;
            LastIndex(s, p) == |x| && s[..|x|] == x && s[|x| + |p|..] == y
  {
    var s := x + p + y;
    var t := p[1..] + y;
    assert OccursAt(s, p, |x|);
    assert s[|x| + 1..] == t;
    forall j | |x| < j ensures !OccursAt(s, p, j) {
      OccursInSuffix(s, p, |x| + 1, j - |x| - 1);
      assert !OccursAt(t, p, j - |x| - 1);
    }
    assert IsLastOccurrence(s, p, |x|);
    assert IsLastOccurrence(s, p, LastIndex(s, p));
  }

  /** Splitting `x + p + y` when the leftmost separator is the one after
      `x` gives `x` followed by the fields of `y`. */
  lemma SplitAfterFirst(x: string, p: string, y: string)
    requires p != []
    requires p[0] !in x || (|p| >= 2 && p[1] !in x && p[0] != p[1])
    ensures Split(x + p + y, p) == [x] + Split(y, p)
  {
    FirstOccurrenceAfter(x, p, y);
  }

  /** Go's `strings.Split` for a non-empty separator: the pieces between
      the non-overlapping occurrences of `sep`, found left to right. */
  function Split(s: string, sep: string): (fields: seq<string>)
    requires sep != []
    decreases |s|
    ensures |fields| >= 1
    ensures |fields| == 1 <==> !Contains(s, sep)
  {
    var m := Index(s, sep);
    if m < 0 then [s]
    else
      var head, tail := s[..m], s[m + |sep|..];
      var rest := Split(tail, sep);
      [head] + rest
  }

  /** Split unfolded once, with the first separator still written as a
      call of Index.  Kept in a lemma of its own so that the one-step
      unfolding is not searched for next to the unfolding of Index. */
  lemma {:induction false} SplitUnfold(s: string, sep: string)
    requires sep != []
    ensures Split(s, sep) == if Index(s, sep) < 0 then [s]
                             else [s[..Index(s, sep)]] + Split(s[Index(s, sep) + |sep|..], sep)
  {
  }

  /** One step of Split: the text before the first separator, then the
      fields of what follows it. */
  lemma {:induction false} SplitAtFirst(s: string, sep: string, m: int)
    requires sep != [] && m == Index(s, sep) && m >= 0
    ensures Split(s, sep) == [s[..m]] + Split(s[m + |sep|..], sep)
  {
    assert !(Index(s, sep) < 0);
    var head, tail := s[..m], s[m + |sep|..];
    SplitUnfold(s, sep);
    assert Split(s, sep) == [head] + Split(tail, sep);
  }

  /** Joining the fields of a split gives back the original string. */
  lemma {:induction false} JoinSplit(s: string, sep: string)
    requires sep != []
    decreases |s|
    ensures Join(Split(s, sep), sep) == s
  {
    var m := Index(s, sep);
    if m >= 0 {
      var head, tail := s[..m], s[m + |sep|..];
      var rest := Split(tail, sep);
      calc {
        Join(Split(s, sep), sep);
        { SplitAtFirst(s, sep, m); }
        Join([head] + rest, sep);
        { JoinCons(head, rest, sep); }
        head + sep + Join(rest, sep);
        { JoinSplit(tail, sep); }
        head + sep + tail;
        { CutAtOccurrence(s, sep, m); }
        s;
      }
    }
  }

  /** A string is the text before an occurrence, the pattern, and the rest. */
  lemma CutAtOccurrence(s: string, p: string, i: int)
    requires OccursAt(s, p, i)
    ensures s == s[..i] + p + s[i + |p|..]
  {
    assert s == s[..i] + s[i..i + |p|] + s[i + |p|..];
  }

  /** No field of a split contains the separator. */
  lemma {:induction false} SplitFieldsHaveNoSeparator(s: string, sep: string)
    requires sep != []
    decreases |s|
    ensures forall k :: 0 <= k < |Split(s, sep)| ==> !Contains(Split(s, sep)[k], sep)
  {
    var m := Index(s, sep);
    if m >= 0 {
      var tail := s[m + |sep|..];
      HeadHasNoSeparator(s, sep, m);
      SplitFieldsHaveNoSeparator(tail, sep);
      SplitAtFirst(s, sep, m);
      NoSeparatorThenNone(Split(s, sep), s[..m], Split(tail, sep), sep);
    } else {
      SplitUnfold(s, sep);
    }
  }

  /** A field without the separator, in front of fields without it,
      keeps them all without it. */
  lemma NoSeparatorThenNone(fields: seq<string>, head: string, rest: seq<string>, sep: string)
    requires fields == [head] + rest
    requires !Contains(head, sep)
    requires forall k :: 0 <= k < |rest| ==> !Contains(rest[k], sep)
    ensures forall k :: 0 <= k < |fields| ==> !Contains(fields[k], sep)
  {
    forall k | 1 <= k < |fields| ensures !Contains(fields[k], sep) {
      assert fields[k] == rest[k - 1];
    }
  }

  /** Each field but the last ends where the leftmost separator of the
      text that remains begins: followed by the separator, the field has
      its first occurrence of it right after the field.  With JoinSplit
      and SplitFieldsHaveNoSeparator this fixes the fields: the cuts are
      the leftmost non-overlapping occurrences, taken left to right. */
  lemma {:induction false} SplitCutsAtFirstOccurrences(s: string, sep: string)
    requires sep != []
    decreases |s|
    ensures forall k :: 0 <= k < |Split(s, sep)| - 1 ==>
              IsFirstOccurrence(Split(s, sep)[k] + sep, sep, |Split(s, sep)[k]|)
  {
    var m := Index(s, sep);
    if m >= 0 {
      var head, tail := s[..m], s[m + |sep|..];
      HeadThenSeparator(s, sep, m);
      SplitCutsAtFirstOccurrences(tail, sep);
      SplitAtFirst(s, sep, m);
      FirstCutThenCuts(Split(s, sep), head, Split(tail, sep), sep);
    }
  }

  /** A field cut at the first separator, in front of fields that are
      each cut at the first separator, keeps them all cut so. */
  lemma FirstCutThenCuts(fields: seq<string>, head: string, rest: seq<string>, sep: string)
    requires fields == [head] + rest
    requires IsFirstOccurrence(head + sep, sep, |head|)
    requires forall k :: 0 <= k < |rest| - 1 ==> IsFirstOccurrence(rest[k] + sep, sep, |rest[k]|)
    ensures forall k :: 0 <= k < |fields| - 1 ==> IsFirstOccurrence(fields[k] + sep, sep, |fields[k]|)
  {
    forall k | 1 <= k < |fields| - 1 ensures IsFirstOccurrence(fields[k] + sep, sep, |fields[k]|) {
      assert fields[k] == rest[k - 1];
    }
  }

  /** The text before the first occurrence of `sep`, followed by `sep`,
      has that occurrence as its first. */
  lemma HeadThenSeparator(s: string, sep: string, m: int)
    requires IsFirstOccurrence(s, sep, m)
    ensures IsFirstOccurrence(s[..m] + sep, sep, m)
  {
    var t := s[..m] + sep;
    assert t == s[..m + |sep|];
    forall j | 0 <= j < m ensures !OccursAt(t, sep, j) {
      assert !OccursAt(s, sep, j);
      if j + |sep| <= |t| {
        assert t[j..j + |sep|] == s[j..j + |sep|];
      }
    }
    assert t[m..m + |sep|] == sep;
  }

  /** The text before the first occurrence of `sep` does not contain it. */
  lemma HeadHasNoSeparator(s: string, sep: string, m: int)
    requires sep != [] && IsFirstOccurrence(s, sep, m)
    ensures !Contains(s[..m], sep)
  {
    forall j | 0 <= j <= m && OccursAt(s[..m], sep, j) ensures false {
      OccursInPrefix(s, sep, m, j);
    }
  }

  /** Unicode white space as Go's `unicode.IsSpace` classifies it.  The
      left-to-right mark U+200E is a format character and is not here. */
  predicate IsSpace(c: char)
  {
    c == '\t' || c == '\n' || c == '\U{0B}' || c == '\U{0C}' || c == '\r' || c == ' '
    || c == '\U{85}' || c == '\U{A0}' || c == '\U{1680}'
    || ('\U{2000}' <= c <= '\U{200A}')
    || c == '\U{2028}' || c == '\U{2029}' || c == '\U{202F}' || c == '\U{205F}' || c == '\U{3000}'
  }

  /** Neither end of `s` is white space. */
  predicate IsTrimmed(s: string)
  {
    s == [] || (!IsSpace(s[0]) && !IsSpace(s[|s| - 1]))
  }

  /** `r` is `s` with exactly its leading and trailing white space removed,
      the kept part starting at position `i`. */
  ghost predicate TrimmedAt(s: string, r: string, i: int)
  {
    && 0 <= i && i + |r| <= |s| && r == s[i..i + |r|]
    && (forall k :: 0 <= k < i ==> IsSpace(s[k]))
    && (forall k :: i + |r| <= k < |s| ==> IsSpace(s[k]))
    && IsTrimmed(r)
  }

  function TrimLeft(s: string): string
  {
    if |s| > 0 && IsSpace(s[0]) then TrimLeft(s[1..]) else s
  }

  function TrimRight(s: string): string
  {
    if |s| > 0 && IsSpace(s[|s| - 1]) then TrimRight(s[..|s| - 1]) else s
  }

  /** Go's `strings.TrimSpace`. */
  function TrimSpace(s: string): string
  {
    TrimRight(TrimLeft(s))
  }

  /** TrimLeft drops exactly the leading white space. */
  lemma {:induction false} TrimLeftSpec(s: string)
    ensures var r := TrimLeft(s);
            && |r| <= |s| && r == s[|s| - |r|..]
            && (forall k :: 0 <= k < |s| - |r| ==> IsSpace(s[k]))
            && (r == [] || !IsSpace(r[0]))
  {
    if |s| > 0 && IsSpace(s[0]) {
      var t, r := s[1..], TrimLeft(s);
      TrimLeftSpec(t);
      assert r == TrimLeft(t);
      assert s[|s| - |r|..] == t[|t| - |r|..];
      forall k | 0 <= k < |s| - |r| ensures IsSpace(s[k]) {
        if k > 0 {
          assert s[k] == t[k - 1];
        }
      }
    }
  }

  /** TrimRight drops exactly the trailing white space. */
  lemma {:induction false} TrimRightSpec(s: string)
    ensures var r := TrimRight(s);
            && |r| <= |s| && r == s[..|r|]
            && (forall k :: |r| <= k < |s| ==> IsSpace(s[k]))
            && (r == [] || !IsSpace(r[|r| - 1]))
  {
    if |s| > 0 && IsSpace(s[|s| - 1]) {
      var t, r := s[..|s| - 1], TrimRight(s);
      TrimRightSpec(t);
      assert r == TrimRight(t);
      assert s[..|r|] == t[..|r|];
      forall k | |r| <= k < |s| ensures IsSpace(s[k]) {
        if k < |t| {
          assert s[k] == t[k];
        }
      }
    }
  }

  /** TrimSpace keeps a contiguous part of the string, drops only white
      space around it, and leaves no white space at either end. */
  lemma TrimSpaceSpec(s: string)
    ensures exists i :: TrimmedAt(s, TrimSpace(s), i)
  {
    var left := TrimLeft(s);
    var r := TrimRight(left);
    TrimLeftSpec(s);
    TrimRightSpec(left);
    TrimmedAtOfSides(s, left, r);
    assert TrimSpace(s) == r;
  }

  /** Dropping the leading white space and then the trailing white space
      of what is left keeps the middle of the string and trims it. */
  lemma TrimmedAtOfSides(s: string, left: string, r: string)
    requires |left| <= |s| && left == s[|s| - |left|..]
    requires forall k :: 0 <= k < |s| - |left| ==> IsSpace(s[k])
    requires left == [] || !IsSpace(left[0])
    requires |r| <= |left| && r == left[..|r|]
    requires forall k :: |r| <= k < |left| ==> IsSpace(left[k])
    requires r == [] || !IsSpace(r[|r| - 1])
    ensures TrimmedAt(s, r, |s| - |left|)
  {
    var i := |s| - |left|;
    assert r == s[i..][..|r|] == s[i..i + |r|];
    forall k | i + |r| <= k < |s| ensures IsSpace(s[k]) {
      assert s[k] == left[k - i];
    }
    assert r != [] ==> r[0] == left[0];
  }

  /** Trimming never lengthens a string. */
  lemma TrimSpaceShorter(s: string)
    ensures |TrimSpace(s)| <= |s|
  {
    TrimSpaceSpec(s);
  }

  /** The trimming of a string is determined by the string: two results
      that both meet TrimSpace's contract are equal. */
  lemma TrimmedAtUnique(s: string, r1: string, i1: int, r2: string, i2: int)
    requires TrimmedAt(s, r1, i1) && TrimmedAt(s, r2, i2)
    ensures r1 == r2
  {
    assert r1 != [] ==> !IsSpace(s[i1]) && !IsSpace(s[i1 + |r1| - 1]);
    assert r2 != [] ==> !IsSpace(s[i2]) && !IsSpace(s[i2 + |r2| - 1]);
  }

  /** Trimming a string without white space at either end leaves it alone. */
  lemma TrimSpaceOfTrimmed(s: string)
    requires IsTrimmed(s)
    ensures TrimSpace(s) == s
  {
    assert TrimmedAt(s, s, 0);
    TrimSpaceSpec(s);
    var i :| TrimmedAt(s, TrimSpace(s), i);
    TrimmedAtUnique(s, TrimSpace(s), i, s, 0);
  }

  /** Trimming is idempotent. */
  lemma TrimSpaceIdempotent(s: string)
    ensures TrimSpace(TrimSpace(s)) == TrimSpace(s)
  {
    TrimSpaceSpec(s);
    var i :| TrimmedAt(s, TrimSpace(s), i);
    TrimSpaceOfTrimmed(TrimSpace(s));
  }
}
