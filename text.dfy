/** The string operations the merchant rule relies on: substring search,
    `str.strip`, `str.splitlines` and `str.upper`. */
module Text {
  import opened Chars

  /** `needle` occurs in `hay` starting at index `i`. */
  ghost predicate OccursAt(needle: string, hay: string, i: nat) {
    i + |needle| <= |hay| && hay[i..i + |needle|] == needle
  }

  /** `sub` is a contiguous substring of `s`. */
  ghost predicate IsInfix(sub: string, s: string) {
    exists i: nat :: OccursAt(sub, s, i)
  }

  /** Every character of `s` is whitespace. */
  ghost predicate AllSpace(s: string) {
    forall k :: 0 <= k < |s| ==> IsSpace(s[k])
  }

  lemma {:induction false} InfixTransitive(a: string, b: string, c: string)
    requires IsInfix(a, b) && IsInfix(b, c)
    ensures IsInfix(a, c)
  {
    var i: nat :| OccursAt(a, b, i);
    var j: nat :| OccursAt(b, c, j);
    forall k | 0 <= k < |a| ensures c[j + i + k] == a[k] {
      assert a[k] == b[i..i + |a|][k] == b[i + k];
      assert b[i + k] == c[j..j + |b|][i + k];
    }
    assert c[j + i..j + i + |a|] == a;
    assert OccursAt(a, c, j + i);
  }

  /** A substring of an all-whitespace string is all whitespace. */
  lemma InfixOfSpace(sub: string, s: string)
    requires IsInfix(sub, s) && AllSpace(s)
    ensures AllSpace(sub)
  {
    var i: nat :| OccursAt(sub, s, i);
    forall k | 0 <= k < |sub| ensures IsSpace(sub[k]) {
      assert sub[k] == s[i..i + |sub|][k] == s[i + k];
    }
  }

  /** The first index at or after `i` whose character fails `P` (or `|s|`):
      the end of a greedy run such as `\d+` or of the scan for a boundary. */
  function SkipWhile(s: string, i: nat, P: char -> bool): (j: nat)
    requires i <= |s|
    ensures i <= j <= |s|
    ensures forall k :: i <= k < j ==> P(s[k])
    ensures j == |s| || !P(s[j])
    decreases |s| - i
  {
    if i < |s| && P(s[i]) then SkipWhile(s, i + 1, P) else i
  }

  /** The run that `SkipWhile` skips is determined by where `P` first fails. */
  lemma SkipWhileStopsAt(s: string, i: nat, j: nat, P: char -> bool)
    requires i <= j <= |s|
    requires forall k :: i <= k < j ==> P(s[k])
    requires j == |s| || !P(s[j])
    ensures SkipWhile(s, i, P) == j
  {
  }

  predicate IsTextChar(c: char) {
    !IsLineBreak(c)
  }

  // ---------------------------------------------------------------------
  // Substring search (an alternation of literal words in `re.search`)
  // ---------------------------------------------------------------------

  function ContainsFrom(hay: string, needle: string, from: nat): (b: bool)
    ensures b <==> exists i: nat :: from <= i && OccursAt(needle, hay, i)
    decreases |hay| - from
  {
    if from + |needle| > |hay| then
      assert forall i: nat :: from <= i ==> !OccursAt(needle, hay, i);
      false
    else if hay[from..from + |needle|] == needle then
      assert OccursAt(needle, hay, from);
      true
    else
      ContainsFrom(hay, needle, from + 1)
  }

  /** `needle` is a substring of `hay`. */
  function Contains(hay: string, needle: string): (b: bool)
    ensures b <==> IsInfix(needle, hay)
  {
    ContainsFrom(hay, needle, 0)
  }

  // ---------------------------------------------------------------------
  // str.upper
  // ---------------------------------------------------------------------

  function Upper(s: string): (u: string)
    ensures |u| == |s|
    ensures forall k :: 0 <= k < |s| ==> u[k] == ToUpper(s[k])
  {
    if s == [] then [] else [ToUpper(s[0])] + Upper(s[1..])
  }

  /** An upper-case letter appears in the upper-cased text only where the
      text has that letter in one case or the other. */
  lemma UpperLacksLetter(s: string, c: char)
    requires 'A' <= c <= 'Z'
    requires c !in s && (c as int + 32) as char !in s
    ensures c !in Upper(s)
  {
    var u := Upper(s);
    forall k | 0 <= k < |u| ensures u[k] != c {
      if 'a' <= s[k] <= 'z' {
        assert s[k] != (c as int + 32) as char;
      }
    }
  }

  // ---------------------------------------------------------------------
  // str.strip()
  // ---------------------------------------------------------------------

  /** `r` is what `s.strip()` returns: `s` without its leading and trailing
      whitespace, and nothing else removed. */
  ghost predicate IsStripOf(r: string, s: string) {
    && (exists a: nat :: && OccursAt(r, s, a)
                         && AllSpace(s[..a])
                         && AllSpace(s[a + |r|..]))
    && (r == [] || (!IsSpace(r[0]) && !IsSpace(r[|r| - 1])))
  }

  /** Going down from `j`, the first index above `lo` preceded by non-whitespace. */
  function SkipSpaceBack(s: string, lo: nat, j: nat): (b: nat)
    requires lo <= j <= |s|
    ensures lo <= b <= j
    ensures forall k :: b <= k < j ==> IsSpace(s[k])
    ensures b == lo || !IsSpace(s[b - 1])
    decreases j
  {
    if lo < j && IsSpace(s[j - 1]) then SkipSpaceBack(s, lo, j - 1) else j
  }

  function Strip(s: string): (r: string)
    ensures IsStripOf(r, s)
    ensures r == [] <==> AllSpace(s)
  {
    var a := SkipWhile(s, 0, IsSpace);
    var b := SkipSpaceBack(s, a, |s|);
    StripBounds(s, a, b);
    s[a..b]
  }

  /** Cutting the leading and the trailing whitespace run strips. */
  lemma StripBounds(s: string, a: nat, b: nat)
    requires a == SkipWhile(s, 0, IsSpace) && a <= |s| && b == SkipSpaceBack(s, a, |s|)
    ensures IsStripOf(s[a..b], s)
    ensures s[a..b] == [] <==> AllSpace(s)
  {
    var r := s[a..b];
    assert a + |r| == b;
    assert OccursAt(r, s, a);
    assert AllSpace(s[..a]);
    assert AllSpace(s[b..]);
    if r == [] {
      assert a == |s|;
    } else {
      assert r[0] == s[a] && !IsSpace(s[a]);
      assert r[|r| - 1] == s[b - 1];
    }
  }

  // ---------------------------------------------------------------------
  // str.splitlines()
  // ---------------------------------------------------------------------

  ghost predicate NoLineBreak(s: string) {
    forall k :: 0 <= k < |s| ==> !IsLineBreak(s[k])
  }

  /** `s` with every line-boundary character deleted. */
  ghost function DropBreaks(s: string): (r: string)
    decreases |s|
  {
    if s == [] then []
    else (if IsLineBreak(s[0]) then [] else [s[0]]) + DropBreaks(s[1..])
  }

  ghost function Concat(lines: seq<string>): string {
    if lines == [] then [] else lines[0] + Concat(lines[1..])
  }

  lemma {:induction false} DropBreaksAppend(s: string, t: string)
    ensures DropBreaks(s + t) == DropBreaks(s) + DropBreaks(t)
    decreases |s|
  {
    if s == [] {
      assert s + t == t;
    } else {
      assert (s + t)[1..] == s[1..] + t;
      DropBreaksAppend(s[1..], t);
    }
  }

  lemma {:induction false} DropBreaksOfLine(s: string)
    requires NoLineBreak(s)
    ensures DropBreaks(s) == s
    decreases |s|
  {
    if s != [] {
      DropBreaksOfLine(s[1..]);
    }
  }

  /** Where the next line starts once the line ending at `j` is cut off:
      `\r\n` is one boundary, every other boundary is one character. */
  function NextLineStart(s: string, j: nat): (n: nat)
    requires j <= |s|
    requires j == |s| || IsLineBreak(s[j])
    ensures j <= n <= |s|
    ensures j < |s| ==> j < n
    ensures forall k :: j <= k < n ==> IsLineBreak(s[k])
  {
    if j == |s| then j
    else if s[j] == '\r' && j + 1 < |s| && s[j + 1] == '\n' then j + 2
    else j + 1
  }

  function SplitLinesFrom(s: string, i: nat): (lines: seq<string>)
    requires i <= |s|
    ensures lines == [] <==> i == |s|
    decreases |s| - i
  {
    if i == |s| then []
    else
      var j := SkipWhile(s, i, IsTextChar);
      [s[i..j]] + SplitLinesFrom(s, NextLineStart(s, j))
  }

  /** `s.splitlines()`: the lines of `s` without their boundaries, with no
      trailing empty line when `s` ends in a boundary. */
  function SplitLines(s: string): seq<string> {
    SplitLinesFrom(s, 0)
  }

  /** Every line the split yields from `i` on is break-free and is a piece
      of the text at or after `i`. */
  lemma {:induction false} SplitLinesFromSpec(s: string, i: nat)
    requires i <= |s|
    ensures forall l :: l in SplitLinesFrom(s, i) ==>
      NoLineBreak(l) && exists a: nat :: i <= a && OccursAt(l, s, a)
    decreases |s| - i
  {
    if i < |s| {
      var j := SkipWhile(s, i, IsTextChar);
      var n := NextLineStart(s, j);
      SplitLinesFromSpec(s, n);
      assert OccursAt(s[i..j], s, i);
      assert SplitLinesFrom(s, i) == [s[i..j]] + SplitLinesFrom(s, n);
    }
  }

  /** `l` is a whole line of `s` at `a`: a break-free run that starts at the
      start of `s` or right after a boundary, and ends at the end of `s` or
      right before one. */
  ghost predicate IsLineOf(l: string, s: string, a: nat) {
    && OccursAt(l, s, a) && NoLineBreak(l)
    && (a == 0 || IsLineBreak(s[a - 1]))
    && (a + |l| == |s| || IsLineBreak(s[a + |l|]))
  }

  lemma {:induction false} SplitLinesFromMaximal(s: string, i: nat)
    requires i <= |s| && (i == 0 || IsLineBreak(s[i - 1]))
    ensures forall l :: l in SplitLinesFrom(s, i) ==> exists a: nat :: i <= a && IsLineOf(l, s, a)
    decreases |s| - i
  {
    if i < |s| {
      var j := SkipWhile(s, i, IsTextChar);
      var n := NextLineStart(s, j);
      assert IsLineOf(s[i..j], s, i);
      assert SplitLinesFrom(s, i) == [s[i..j]] + SplitLinesFrom(s, n);
      if j < |s| {
        assert IsLineBreak(s[n - 1]);
        SplitLinesFromMaximal(s, n);
      } else {
        assert SplitLinesFrom(s, n) == [];
      }
    }
  }

  /** Every line `splitlines()` yields is a whole line of the text: it is cut
      at boundaries only, never inside a run of text. */
  lemma SplitLinesMaximal(s: string)
    ensures forall l :: l in SplitLines(s) ==> exists a: nat :: IsLineOf(l, s, a)
  {
    SplitLinesFromMaximal(s, 0);
  }

  /** `starts[k]` is where `lines[k]` stands in `s`: each is a whole line
      of `s` there, and each starts after the previous one and the
      boundary that ends it. */
  ghost predicate LinesAt(lines: seq<string>, s: string, starts: seq<nat>) {
    && |starts| == |lines|
    && (forall k :: 0 <= k < |starts| ==> IsLineOf(lines[k], s, starts[k]))
    && (forall k :: 0 < k < |starts| ==> starts[k - 1] + |lines[k - 1]| < starts[k])
  }

  /** Where the lines of the split from `i` on start. */
  ghost function LineStartsFrom(s: string, i: nat): seq<nat>
    requires i <= |s|
    decreases |s| - i
  {
    if i == |s| then []
    else [i] + LineStartsFrom(s, NextLineStart(s, SkipWhile(s, i, IsTextChar)))
  }

  lemma {:induction false} SplitLinesFromInOrder(s: string, i: nat)
    requires i <= |s| && (i == 0 || IsLineBreak(s[i - 1]))
    ensures LinesAt(SplitLinesFrom(s, i), s, LineStartsFrom(s, i))
    decreases |s| - i
  {
    if i < |s| {
      var j := SkipWhile(s, i, IsTextChar);
      var n := NextLineStart(s, j);
      var l := s[i..j];
      var lines := SplitLinesFrom(s, i);
      var starts := LineStartsFrom(s, i);
      var rest := SplitLinesFrom(s, n);
      var restStarts := LineStartsFrom(s, n);
      assert lines == [l] + rest;
      assert starts == [i] + restStarts;
      assert IsLineOf(l, s, i);
      if j < |s| {
        assert IsLineBreak(s[n - 1]);
        SplitLinesFromInOrder(s, n);
        assert restStarts != [] ==> restStarts[0] == n;
      } else {
        assert rest == [] && restStarts == [];
      }
      LinesAtCons(l, rest, s, i, restStarts);
    }
  }

  /** A whole line in front of the lines that follow it. */
  lemma LinesAtCons(l: string, rest: seq<string>, s: string, i: nat, restStarts: seq<nat>)
    requires IsLineOf(l, s, i) && LinesAt(rest, s, restStarts)
    requires restStarts != [] ==> i + |l| < restStarts[0]
    ensures LinesAt([l] + rest, s, [i] + restStarts)
  {
    var lines := [l] + rest;
    var starts := [i] + restStarts;
    forall k | 0 <= k < |starts| ensures IsLineOf(lines[k], s, starts[k]) {
      if k > 0 {
        assert lines[k] == rest[k - 1] && starts[k] == restStarts[k - 1];
      }
    }
    forall k | 0 < k < |starts| ensures starts[k - 1] + |lines[k - 1]| < starts[k] {
      if k > 1 {
        assert lines[k - 1] == rest[k - 2] && starts[k - 1] == restStarts[k - 2];
        assert starts[k] == restStarts[k - 1];
      }
    }
  }

  /** The lines `splitlines()` yields are the whole lines of the text in the
      order they stand in it, none overlapping the next. */
  lemma SplitLinesInOrder(s: string)
    ensures exists starts: seq<nat> :: LinesAt(SplitLines(s), s, starts)
  {
    SplitLinesFromInOrder(s, 0);
    assert LinesAt(SplitLines(s), s, LineStartsFrom(s, 0));
  }

  lemma SplitLinesSpec(s: string)
    ensures forall l :: l in SplitLines(s) ==> NoLineBreak(l) && IsInfix(l, s)
  {
    SplitLinesFromSpec(s, 0);
  }

  /** A line followed by its boundary characters loses exactly those
      characters. */
  lemma LineThenBreaks(s: string, i: nat, j: nat, n: nat)
    requires i <= j <= n <= |s|
    requires forall k :: i <= k < j ==> !IsLineBreak(s[k])
    requires forall k :: j <= k < n ==> IsLineBreak(s[k])
    ensures DropBreaks(s[i..]) == s[i..j] + DropBreaks(s[n..])
  {
    assert s[i..] == s[i..j] + (s[j..n] + s[n..]);
    DropBreaksAppend(s[i..j], s[j..n] + s[n..]);
    DropBreaksAppend(s[j..n], s[n..]);
    DropBreaksOfLine(s[i..j]);
    AllBreaksDropped(s[j..n]);
  }

  /** Joining the lines gives back the text minus its line boundaries: the
      split loses the boundaries and nothing else, and keeps the order. */
  lemma {:induction false} SplitLinesFromLosesOnlyBreaks(s: string, i: nat)
    requires i <= |s|
    ensures Concat(SplitLinesFrom(s, i)) == DropBreaks(s[i..])
    decreases |s| - i
  {
    if i < |s| {
      var j := SkipWhile(s, i, IsTextChar);
      var n := NextLineStart(s, j);
      SplitLinesFromLosesOnlyBreaks(s, n);
      LineThenBreaks(s, i, j, n);
      var lines := SplitLinesFrom(s, i);
      assert lines == [s[i..j]] + SplitLinesFrom(s, n);
      assert lines[0] == s[i..j] && lines[1..] == SplitLinesFrom(s, n);
    } else {
      assert s[i..] == [];
    }
  }

  lemma {:induction false} AllBreaksDropped(s: string)
    requires forall k :: 0 <= k < |s| ==> IsLineBreak(s[k])
    ensures DropBreaks(s) == []
    decreases |s|
  {
    if s != [] {
      AllBreaksDropped(s[1..]);
    }
  }

  lemma SplitLinesLosesOnlyBreaks(s: string)
    ensures Concat(SplitLines(s)) == DropBreaks(s)
  {
    SplitLinesFromLosesOnlyBreaks(s, 0);
    assert s[0..] == s;
  }

  /** Lines joined with `\n`, the inverse of the split. */
  function JoinLines(lines: seq<string>): string
    decreases |lines|
  {
    if lines == [] then []
    else if |lines| == 1 then lines[0]
    else lines[0] + "\n" + JoinLines(lines[1..])
  }

  /** A break-free line at `i` that the end of the text or a boundary
      follows is exactly the line the scan cuts there. */
  lemma LineAt(s: string, i: nat, l: string)
    requires i + |l| <= |s| && s[i..i + |l|] == l && NoLineBreak(l)
    requires i + |l| == |s| || IsLineBreak(s[i + |l|])
    ensures SkipWhile(s, i, IsTextChar) == i + |l|
  {
    forall k | i <= k < i + |l| ensures IsTextChar(s[k]) {
      assert s[k] == l[k - i];
    }
    SkipWhileStopsAt(s, i, i + |l|, IsTextChar);
  }

  lemma JoinedAt(s: string, i: nat, l: string, rest: string)
    requires i <= |s| && s[i..] == l + "\n" + rest
    ensures i + |l| < |s| && s[i..i + |l|] == l && s[i + |l|] == '\n' && s[i + |l| + 1..] == rest
  {
    assert s[i..][..|l|] == l;
    assert s[i..][|l|] == '\n';
    assert s[i..][|l| + 1..] == rest;
  }

  /** One step of the split: the line at `i`, then the lines after its
      `\n`, or nothing more when it runs to the end of the text. */
  lemma SplitStep(s: string, i: nat, l: string)
    requires i < |s| && i + |l| <= |s| && s[i..i + |l|] == l && NoLineBreak(l)
    requires i + |l| == |s| || s[i + |l|] == '\n'
    ensures i + |l| == |s| ==> SplitLinesFrom(s, i) == [l]
    ensures i + |l| < |s| ==> SplitLinesFrom(s, i) == [l] + SplitLinesFrom(s, i + |l| + 1)
  {
    LineAt(s, i, l);
  }

  lemma SplitJoinCons(s: string, i: nat, l: string, j: nat, rest: seq<string>)
    requires j == i + |l| + 1 <= |s| && s[i..i + |l|] == l && NoLineBreak(l) && s[i + |l|] == '\n'
    requires SplitLinesFrom(s, j) == rest
    ensures SplitLinesFrom(s, i) == [l] + rest
  {
    SplitStep(s, i, l);
  }

  lemma {:induction false} SplitLinesFromJoin(s: string, i: nat, lines: seq<string>)
    requires i <= |s| && s[i..] == JoinLines(lines)
    requires forall k :: 0 <= k < |lines| ==> NoLineBreak(lines[k])
    requires lines != [] ==> lines[|lines| - 1] != []
    ensures SplitLinesFrom(s, i) == lines
    decreases |lines|
  {
    if lines == [] {
      assert |s[i..]| == 0;
    } else if |lines| == 1 {
      assert s[i..] == lines[0];
      SplitStep(s, i, lines[0]);
      assert lines == [lines[0]];
    } else {
      var l, rest := lines[0], lines[1..];
      assert JoinLines(lines) == l + "\n" + JoinLines(rest);
      JoinedAt(s, i, l, JoinLines(rest));
      var j := i + |l| + 1;
      assert NoLineBreak(l);
      SplitLinesFromJoin(s, j, rest);
      SplitJoinCons(s, i, l, j, rest);
      assert lines == [l] + rest;
    }
  }

  /** Splitting lines that were joined with `\n` gives them back, provided
      none holds a boundary and the last is not empty (a final empty line
      would read as a trailing boundary). */
  lemma SplitJoinedLines(lines: seq<string>)
    requires forall l :: l in lines ==> NoLineBreak(l)
    requires lines != [] ==> lines[|lines| - 1] != []
    ensures SplitLines(JoinLines(lines)) == lines
  {
    var s := JoinLines(lines);
    assert s[0..] == s;
    assert forall k :: 0 <= k < |lines| ==> NoLineBreak(lines[k]) by {
      forall k | 0 <= k < |lines| ensures NoLineBreak(lines[k]) {
        assert lines[k] in lines;
      }
    }
    SplitLinesFromJoin(s, 0, lines);
  }

  /** A string without surrounding whitespace strips to itself. */
  lemma StripTrimmed(s: string)
    requires s != [] ==> !IsSpace(s[0]) && !IsSpace(s[|s| - 1])
    ensures Strip(s) == s
  {
    if s != [] {
      assert SkipWhile(s, 0, IsSpace) == 0;
      assert SkipSpaceBack(s, 0, |s|) == |s|;
    }
  }

  /** Stripping twice is stripping once. */
  lemma StripIdempotent(s: string)
    ensures Strip(Strip(s)) == Strip(s)
  {
    StripTrimmed(Strip(s));
  }

  /** A string cannot occur inside one that lacks one of its characters. */
  lemma MissingCharRulesOutInfix(sub: string, s: string, c: char)
    requires c in sub && c !in s
    ensures !IsInfix(sub, s)
  {
  }
}
