/** The four regular expressions of the receipt parser, each given twice:
    as the language it accepts (with the context `\b` looks at), and as a
    matcher that returns where the match starting at a position ends.

    For these four patterns the match Python's backtracking engine reports
    at a start position is the LONGEST span that the pattern accepts there:
    the greedy `\s?`, `\d+` and `(?:\.\d{1,2})?` of the currency pattern can
    always keep what they took, and the bare-decimal and date patterns admit
    at most one span per start.  `re.search` then reports the match at the
    smallest start that has one.  That leftmost-longest reading is what the
    contracts below state. */
module Patterns {
  import opened Wrappers
  import opened Chars
  import opened Text

  predicate AllDigits(s: string) {
    forall k :: 0 <= k < |s| ==> IsDigit(s[k])
  }

  /** `\d+(?:\.\d{1,2})?` */
  ghost predicate IsNumeral(s: string) {
    || (|s| >= 1 && AllDigits(s))
    || (exists k: nat :: && 1 <= k && k + 2 <= |s| <= k + 3 && s[k] == '.'
                         && AllDigits(s[..k]) && AllDigits(s[k + 1..]))
  }

  /** `(\$|₹|€)\s?(\d+(?:\.\d{1,2})?)` */
  ghost predicate IsCurrencyAmount(s: string) {
    && |s| >= 2
    && IsCurrencySymbol(s[0])
    && (IsNumeral(s[1..]) || (IsSpace(s[1]) && IsNumeral(s[2..])))
  }

  /** `\d{1,5}\.\d{2}` (the `\b` on each side is context, see Matches) */
  predicate IsBareDecimal(s: string) {
    && 4 <= |s| <= 8
    && AllDigits(s[..|s| - 3]) && s[|s| - 3] == '.' && AllDigits(s[|s| - 2..])
  }

  /** `\d{2}[/-]\d{2}[/-]\d{4}` */
  predicate IsDayFirstDate(s: string) {
    && |s| == 10
    && AllDigits(s[..2]) && IsDateSeparator(s[2])
    && AllDigits(s[3..5]) && IsDateSeparator(s[5])
    && AllDigits(s[6..])
  }

  /** `\d{4}[/-]\d{2}[/-]\d{2}` */
  predicate IsYearFirstDate(s: string) {
    && |s| == 10
    && AllDigits(s[..4]) && IsDateSeparator(s[4])
    && AllDigits(s[5..7]) && IsDateSeparator(s[7])
    && AllDigits(s[8..])
  }

  /** `\b` at position `p`: exactly one of the characters around `p` is a
      word character (outside the text counts as a non-word character). */
  predicate WordBoundary(text: string, p: nat)
    requires p <= |text|
  {
    (0 < p && IsWordChar(text[p - 1])) != (p < |text| && IsWordChar(text[p]))
  }

  datatype Pattern =
    | CurrencyAmount  // the currency-prefixed amount
    | BareDecimal     // the bare-decimal fallback amount
    | DayFirstDate    // the dd/mm/yyyy date
    | YearFirstDate   // the yyyy/mm/dd fallback date

  /** Pattern `p` matches `text[i..e]` when the engine starts at `i`. */
  ghost predicate Matches(p: Pattern, text: string, i: nat, e: nat) {
    && i <= e <= |text|
    && match p
       case CurrencyAmount => IsCurrencyAmount(text[i..e])
       case BareDecimal => WordBoundary(text, i) && IsBareDecimal(text[i..e]) && WordBoundary(text, e)
       case DayFirstDate => IsDayFirstDate(text[i..e])
       case YearFirstDate => IsYearFirstDate(text[i..e])
  }

  /** `r` is the end of the longest match of `p` starting at `i`, or None
      when no match starts at `i`. */
  ghost predicate LongestMatchAt(p: Pattern, text: string, i: nat, r: Option<nat>) {
    match r
    case Some(e) => Matches(p, text, i, e) && forall e': nat :: e < e' ==> !Matches(p, text, i, e')
    case None => forall e: nat :: !Matches(p, text, i, e)
  }

  ghost predicate NoMatch(p: Pattern, text: string) {
    forall i: nat, e: nat :: !Matches(p, text, i, e)
  }

  /** `text[s..e]` is what `re.search(p, text)` reports: no match starts
      before `s`, and `e` is the end of the longest match starting at `s`. */
  ghost predicate IsFirstMatch(p: Pattern, text: string, s: nat, e: nat) {
    && LongestMatchAt(p, text, s, Some(e))
    && forall j: nat, e': nat :: j < s ==> !Matches(p, text, j, e')
  }

  // ---------------------------------------------------------------------
  // \d+(?:\.\d{1,2})?
  // ---------------------------------------------------------------------

  /** A digit run, a point and one or two digits form a numeral. */
  lemma NumeralOfParts(text: string, d: nat, j: nat, n: nat)
    requires d < j && j + 2 <= n <= j + 3 && n <= |text| && text[j] == '.'
    requires forall k :: d <= k < j ==> IsDigit(text[k])
    requires forall k :: j < k < n ==> IsDigit(text[k])
    ensures IsNumeral(text[d..n])
  {
    var s := text[d..n];
    var k: nat := j - d;
    assert s[k] == '.';
    assert AllDigits(s[..k]) by {
      forall m | 0 <= m < k ensures IsDigit(s[..k][m]) {
        assert s[..k][m] == text[d + m];
      }
    }
    var decimals := s[k + 1..];
    assert AllDigits(decimals) by {
      forall m | 0 <= m < |decimals| ensures IsDigit(decimals[m]) {
        assert decimals[m] == text[j + 1 + m];
      }
    }
  }

  /** End of the greedy `\d+(?:\.\d{1,2})?` starting at the digit `text[d]`. */
  function NumeralEnd(text: string, d: nat): (n: nat)
    requires d < |text| && IsDigit(text[d])
    ensures d < n <= |text| && IsNumeral(text[d..n])
  {
    var j := SkipWhile(text, d, IsDigit);
    if j + 1 < |text| && text[j] == '.' && IsDigit(text[j + 1]) then
      var n := if j + 2 < |text| && IsDigit(text[j + 2]) then j + 3 else j + 2;
      NumeralOfParts(text, d, j, n);
      n
    else
      assert AllDigits(text[d..j]) by {
        forall m | 0 <= m < j - d ensures IsDigit(text[d..j][m]) {
          assert text[d..j][m] == text[d + m];
        }
      }
      j
  }

  /** Any numeral starting at `d` begins with a digit and ends no later than
      the greedy one. */
  lemma NumeralBound(text: string, d: nat, e: nat)
    requires d <= e <= |text| && IsNumeral(text[d..e])
    ensures d < |text| && IsDigit(text[d]) && e <= NumeralEnd(text, d)
  {
    var s := text[d..e];
    if |s| >= 1 && AllDigits(s) {
      forall m | d <= m < e ensures IsDigit(text[m]) {
        assert s[m - d] == text[m];
      }
      DigitRunBound(text, d, e);
    } else {
      var k: nat :| && 1 <= k && k + 2 <= |s| <= k + 3 && s[k] == '.'
                    && AllDigits(s[..k]) && AllDigits(s[k + 1..]);
      forall m | d <= m < d + k ensures IsDigit(text[m]) {
        assert s[..k][m - d] == text[m];
      }
      forall m | d + k < m < e ensures IsDigit(text[m]) {
        assert s[k + 1..][m - d - k - 1] == text[m];
      }
      assert text[d + k] == s[k];
      PointedNumeralBound(text, d, d + k, e);
    }
  }

  /** The greedy numeral takes at least the whole digit run. */
  lemma DigitRunBound(text: string, d: nat, e: nat)
    requires d < e <= |text|
    requires forall m :: d <= m < e ==> IsDigit(text[m])
    ensures e <= NumeralEnd(text, d)
  {
    var j := SkipWhile(text, d, IsDigit);
    assert e <= j;
  }

  /** The greedy numeral takes the whole digit run and then as many of the
      (at most two) decimals as there are. */
  lemma PointedNumeralBound(text: string, d: nat, j: nat, e: nat)
    requires d < j && j + 2 <= e <= j + 3 && e <= |text| && text[j] == '.'
    requires forall m :: d <= m < j ==> IsDigit(text[m])
    requires forall m :: j < m < e ==> IsDigit(text[m])
    ensures e <= NumeralEnd(text, d)
  {
    SkipWhileStopsAt(text, d, j, IsDigit);
  }

  // ---------------------------------------------------------------------
  // (\$|₹|€)\s?(\d+(?:\.\d{1,2})?)
  // ---------------------------------------------------------------------

  /** Where the number of a currency amount starting at `i` must start:
      `\s?` takes one whitespace character only when a digit follows it. */
  function NumberStart(text: string, i: nat): (d: nat)
    requires i < |text|
    ensures d == i + 1 || d == i + 2
  {
    if i + 2 < |text| && IsSpace(text[i + 1]) && IsDigit(text[i + 2]) then i + 2 else i + 1
  }

  /** A currency amount `text[i..e]` has its number at `NumberStart`. */
  lemma CurrencyAmountShape(text: string, i: nat, e: nat)
    requires Matches(CurrencyAmount, text, i, e)
    ensures i < |text| && IsCurrencySymbol(text[i])
    ensures NumberStart(text, i) <= e && IsNumeral(text[NumberStart(text, i)..e])
  {
    var s := text[i..e];
    assert s[0] == text[i];
    if IsNumeral(s[1..]) {
      assert s[1..] == text[i + 1..e];
      NumeralBound(text, i + 1, e);
    } else {
      assert IsSpace(s[1]) && s[1] == text[i + 1];
      assert s[2..] == text[i + 2..e];
      NumeralBound(text, i + 2, e);
    }
  }

  /** Text without a currency symbol has no currency amount. */
  lemma CurrencyNeedsSymbol(text: string)
    requires '$' !in text && RUPEE !in text && EURO !in text
    ensures NoMatch(CurrencyAmount, text)
  {
    forall i: nat, e: nat | Matches(CurrencyAmount, text, i, e) ensures false {
      CurrencyAmountShape(text, i, e);
    }
  }

  function CurrencyEnd(text: string, i: nat): (r: Option<nat>)
    requires i <= |text|
    ensures LongestMatchAt(CurrencyAmount, text, i, r)
  {
    if i < |text| && IsCurrencySymbol(text[i]) then
      var d := NumberStart(text, i);
      if d < |text| && IsDigit(text[d]) then
        var n := NumeralEnd(text, d);
        assert text[i..n][d - i..] == text[d..n];
        assert forall e: nat :: n < e ==> !Matches(CurrencyAmount, text, i, e) by {
          forall e: nat | n < e && Matches(CurrencyAmount, text, i, e) ensures false {
            CurrencyAmountShape(text, i, e);
            NumeralBound(text, d, e);
          }
        }
        Some(n)
      else
        assert forall e: nat :: !Matches(CurrencyAmount, text, i, e) by {
          forall e: nat | Matches(CurrencyAmount, text, i, e) ensures false {
            CurrencyAmountShape(text, i, e);
            NumeralBound(text, d, e);
          }
        }
        None
    else
      assert forall e: nat :: !Matches(CurrencyAmount, text, i, e) by {
        forall e: nat | Matches(CurrencyAmount, text, i, e) ensures false {
          CurrencyAmountShape(text, i, e);
        }
      }
      None
  }

  // ---------------------------------------------------------------------
  // \b\d{1,5}\.\d{2}\b
  // ---------------------------------------------------------------------

  /** A bare decimal starting at `i` is the whole digit run from `i` followed
      by `.` and two digits. */
  lemma BareDecimalShape(text: string, i: nat, e: nat)
    requires Matches(BareDecimal, text, i, e)
    ensures var j := SkipWhile(text, i, IsDigit);
      && e == j + 3 && i < j <= i + 5 && j + 2 < |text|
      && text[j] == '.' && IsDigit(text[j + 1]) && IsDigit(text[j + 2])
  {
    var s := text[i..e];
    var j := SkipWhile(text, i, IsDigit);
    var m := |s| - 3;
    forall k | i <= k < i + m ensures IsDigit(text[k]) {
      assert s[..m][k - i] == text[k];
    }
    assert text[i + m] == s[m];
    assert s[m + 1..][0] == text[i + m + 2 - 1];
    assert s[m + 1..][1] == text[i + m + 2];
  }

  /** The shape `BareDecimalEnd` tests for at `i`: a word boundary, one to
      five digits, a point, two digits and another word boundary. */
  predicate BareDecimalFrom(text: string, i: nat, j: nat)
    requires i <= j <= |text|
  {
    && WordBoundary(text, i) && i < j <= i + 5 && j + 2 < |text|
    && text[j] == '.' && IsDigit(text[j + 1]) && IsDigit(text[j + 2])
    && WordBoundary(text, j + 3)
  }

  lemma BareDecimalLongest(text: string, i: nat)
    requires i <= |text|
    requires BareDecimalFrom(text, i, SkipWhile(text, i, IsDigit))
    ensures var j := SkipWhile(text, i, IsDigit);
      LongestMatchAt(BareDecimal, text, i, Some(j + 3))
  {
    var j := SkipWhile(text, i, IsDigit);
    BareDecimalOfParts(text, i, j);
    forall e: nat | j + 3 < e ensures !Matches(BareDecimal, text, i, e) {
      if Matches(BareDecimal, text, i, e) {
        BareDecimalShape(text, i, e);
      }
    }
  }

  /** A digit run, a point and two digits between word boundaries form a
      bare-decimal match. */
  lemma BareDecimalOfParts(text: string, i: nat, j: nat)
    requires i <= |text| && j == SkipWhile(text, i, IsDigit) && BareDecimalFrom(text, i, j)
    ensures Matches(BareDecimal, text, i, j + 3)
  {
    var s := text[i..j + 3];
    assert s[..j - i] == text[i..j];
    assert s[j - i + 1..] == text[j + 1..j + 3];
  }

  lemma NoBareDecimalAt(text: string, i: nat)
    requires i <= |text|
    requires !BareDecimalFrom(text, i, SkipWhile(text, i, IsDigit))
    ensures LongestMatchAt(BareDecimal, text, i, None)
  {
    forall e: nat ensures !Matches(BareDecimal, text, i, e) {
      if Matches(BareDecimal, text, i, e) {
        BareDecimalShape(text, i, e);
      }
    }
  }

  function BareDecimalEnd(text: string, i: nat): (r: Option<nat>)
    requires i <= |text|
    ensures LongestMatchAt(BareDecimal, text, i, r)
  {
    var j := SkipWhile(text, i, IsDigit);
    if BareDecimalFrom(text, i, j) then
      BareDecimalLongest(text, i);
      Some(j + 3)
    else
      NoBareDecimalAt(text, i);
      None
  }

  // ---------------------------------------------------------------------
  // \d{2}[/-]\d{2}[/-]\d{4} and \d{4}[/-]\d{2}[/-]\d{2}
  // ---------------------------------------------------------------------

  function DateEnd(p: Pattern, text: string, i: nat): (r: Option<nat>)
    requires p == DayFirstDate || p == YearFirstDate
    requires i <= |text|
    ensures LongestMatchAt(p, text, i, r)
  {
    if i + 10 <= |text| && (if p == DayFirstDate then IsDayFirstDate(text[i..i + 10])
                                                  else IsYearFirstDate(text[i..i + 10]))
    then Some(i + 10)
    else None
  }

  // ---------------------------------------------------------------------
  // re.search
  // ---------------------------------------------------------------------

  /** The end of the match of `p` the engine finds when it starts at `i`. */
  function MatchEnd(p: Pattern, text: string, i: nat): (r: Option<nat>)
    requires i <= |text|
    ensures LongestMatchAt(p, text, i, r)
  {
    match p
    case CurrencyAmount => CurrencyEnd(text, i)
    case BareDecimal => BareDecimalEnd(text, i)
    case _ => DateEnd(p, text, i)
  }

  datatype Span = Span(start: nat, end: nat)

  function SearchFrom(p: Pattern, text: string, from: nat): (r: Option<Span>)
    requires from <= |text|
    ensures r.Some? ==> from <= r.value.start && LongestMatchAt(p, text, r.value.start, Some(r.value.end))
    ensures r.Some? ==> forall j: nat, e: nat :: from <= j < r.value.start ==> !Matches(p, text, j, e)
    ensures r.None? ==> forall j: nat, e: nat :: from <= j ==> !Matches(p, text, j, e)
    decreases |text| - from
  {
    match MatchEnd(p, text, from)
    case Some(e) => Some(Span(from, e))
    case None =>
      if from == |text| then None else SearchFrom(p, text, from + 1)
  }

  /** `re.search(p, text)`: the leftmost start with a match and the longest
      match there, or None when the pattern matches nowhere. */
  function Search(p: Pattern, text: string): (r: Option<Span>)
    ensures r.Some? ==> IsFirstMatch(p, text, r.value.start, r.value.end)
    ensures r.Some? ==> r.value.start <= r.value.end <= |text|
    ensures r.None? <==> NoMatch(p, text)
  {
    SearchFrom(p, text, 0)
  }

  /** The search reports the match at the first start where the engine
      finds one. */
  lemma SearchFindsFirst(p: Pattern, text: string, s: nat, e: nat)
    requires s <= |text|
    requires forall j :: 0 <= j < s ==> MatchEnd(p, text, j).None?
    requires MatchEnd(p, text, s) == Some(e)
    ensures Search(p, text) == Some(Span(s, e))
  {
    assert IsFirstMatch(p, text, s, e) by {
      forall j: nat, e': nat | j < s ensures !Matches(p, text, j, e') {
        assert MatchEnd(p, text, j).None?;
      }
    }
    var r := Search(p, text).value;
    FirstMatchUnique(p, text, s, e, r.start, r.end);
  }

  /** The characters a day-first date at `i` fixes. */
  lemma DayFirstDateChars(text: string, i: nat)
    requires i + 10 <= |text|
    ensures IsDayFirstDate(text[i..i + 10]) ==>
            && IsDigit(text[i]) && IsDigit(text[i + 1]) && IsDateSeparator(text[i + 2])
            && IsDigit(text[i + 3]) && IsDigit(text[i + 4]) && IsDateSeparator(text[i + 5])
            && IsDigit(text[i + 6]) && IsDigit(text[i + 7]) && IsDigit(text[i + 8]) && IsDigit(text[i + 9])
  {
    var s := text[i..i + 10];
    assert s[..2][0] == text[i] && s[..2][1] == text[i + 1] && s[2] == text[i + 2];
    assert s[3..5][0] == text[i + 3] && s[3..5][1] == text[i + 4] && s[5] == text[i + 5];
    assert s[6..][0] == text[i + 6] && s[6..][1] == text[i + 7];
    assert s[6..][2] == text[i + 8] && s[6..][3] == text[i + 9];
  }

  /** The match `re.search` reports is determined by the text. */
  lemma FirstMatchUnique(p: Pattern, text: string, s: nat, e: nat, s': nat, e': nat)
    requires IsFirstMatch(p, text, s, e) && IsFirstMatch(p, text, s', e')
    ensures s == s' && e == e'
  {
  }
}
