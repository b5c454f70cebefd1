/** Concrete receipts and what the extractor makes of them.

    Each example takes its receipt text as a parameter `t` fixed by a
    `requires t == "..."` rather than writing the literal into the
    contract.  The two say the same thing; the parameter form only keeps
    the verifier from unfolding every function on the literal in full,
    which makes these proofs far cheaper. */
module ReceiptExamples {
  import opened Wrappers
  import opened Chars
  import opened Text
  import opened Patterns
  import opened Receipt

  /** The decimal part takes at most two digits. */
  lemma CurrencyKeepsTwoDecimals(t: string)
    requires t == "$12.345"
    ensures AMOUNT in ParseReceipt(t) && ParseReceipt(t)[AMOUNT] == "$12.34"
  {
    SkipWhileStopsAt(t, 3, 3, IsDigit);
    SkipWhileStopsAt(t, 1, 3, IsDigit);
    assert NumeralEnd(t, 1) == 6;
    assert CurrencyEnd(t, 0) == Some(6);
    assert Search(CurrencyAmount, t) == Some(Span(0, 6));
    RecordFields(t);
  }

  /** A point with no digit after it is left out of the amount. */
  lemma CurrencyDropsBarePoint(t: string)
    requires t == "$12."
    ensures AMOUNT in ParseReceipt(t) && ParseReceipt(t)[AMOUNT] == "$12"
  {
    SkipWhileStopsAt(t, 3, 3, IsDigit);
    SkipWhileStopsAt(t, 1, 3, IsDigit);
    assert NumeralEnd(t, 1) == 3;
    assert CurrencyEnd(t, 0) == Some(3);
    assert Search(CurrencyAmount, t) == Some(Span(0, 3));
    RecordFields(t);
  }

  /** One whitespace character may separate the symbol from the number. */
  lemma CurrencyAfterOneSpace(t: string)
    requires t == "Total \U{20B9} 250.5"
    ensures AMOUNT in ParseReceipt(t) && ParseReceipt(t)[AMOUNT] == "\U{20B9} 250.5"
  {
    SkipWhileStopsAt(t, 11, 11, IsDigit);
    SkipWhileStopsAt(t, 8, 11, IsDigit);
    assert NumeralEnd(t, 8) == 13;
    assert CurrencyEnd(t, 6) == Some(13);
    forall j | 0 <= j < 6 ensures MatchEnd(CurrencyAmount, t, j).None? {
      assert !IsCurrencySymbol(t[j]);
    }
    SearchFindsFirst(CurrencyAmount, t, 6, 13);
    assert t[6..13] == "\U{20B9} 250.5";
    assert ExtractAmount(t) == Some("\U{20B9} 250.5");
    RecordFields(t);
  }

  /** A currency amount wins over a bare decimal that comes before it. */
  lemma CurrencyBeatsEarlierDecimal(t: string)
    requires t == "9.99 $5"
    ensures Matches(BareDecimal, t, 0, 4)
    ensures AMOUNT in ParseReceipt(t) && ParseReceipt(t)[AMOUNT] == "$5"
  {
    assert t[0..4] == "9.99";
    assert IsBareDecimal("9.99") by {
      assert "9.99"[..1] == "9" && "9.99"[2..] == "99";
    }
    assert WordBoundary(t, 0) && WordBoundary(t, 4);
    SkipWhileStopsAt(t, 6, 7, IsDigit);
    assert CurrencyEnd(t, 5) == Some(7);
    forall j | 0 <= j < 5 ensures MatchEnd(CurrencyAmount, t, j).None? {
      assert !IsCurrencySymbol(t[j]);
    }
    SearchFindsFirst(CurrencyAmount, t, 5, 7);
    assert t[5..7] == "$5";
    RecordFields(t);
  }

  /** Without a currency symbol the bare decimal is the amount. */
  lemma BareDecimalFallback(t: string)
    requires t == "Due 123.45"
    ensures AMOUNT in ParseReceipt(t) && ParseReceipt(t)[AMOUNT] == "123.45"
  {
    DueSearch(t);
    assert t[4..10] == "123.45";
    RecordFields(t);
  }

  lemma DueSearch(t: string)
    requires t == "Due 123.45"
    ensures Search(CurrencyAmount, t) == None
    ensures Search(BareDecimal, t) == Some(Span(4, 10))
  {
    CurrencyNeedsSymbol(t);
    forall j | 0 <= j < 4 ensures MatchEnd(BareDecimal, t, j).None? {
      SkipWhileStopsAt(t, j, j, IsDigit);
    }
    SkipWhileStopsAt(t, 4, 7, IsDigit);
    assert BareDecimalEnd(t, 4) == Some(10);
    SearchFindsFirst(BareDecimal, t, 4, 10);
  }

  /** More than five integer digits: no bare-decimal amount. */
  lemma NoAmountWithSixIntegerDigits(t: string)
    requires t == "123456.78"
    ensures AMOUNT !in ParseReceipt(t)
  {
    CurrencyNeedsSymbol(t);
    forall i: nat, e: nat | Matches(BareDecimal, t, i, e) ensures false {
      BareDecimalShape(t, i, e);
    }
    AmountAbsent(t);
  }

  /** More than two decimals: no bare-decimal amount. */
  lemma NoAmountWithThreeDecimals(t: string)
    requires t == "12.345"
    ensures AMOUNT !in ParseReceipt(t)
  {
    CurrencyNeedsSymbol(t);
    forall i: nat, e: nat | Matches(BareDecimal, t, i, e) ensures false {
      BareDecimalShape(t, i, e);
    }
    AmountAbsent(t);
  }

  /** A letter glued to the front leaves no word boundary: no amount. */
  lemma NoAmountAfterLetter(t: string)
    requires t == "A12.34"
    ensures AMOUNT !in ParseReceipt(t)
  {
    CurrencyNeedsSymbol(t);
    forall i: nat, e: nat | Matches(BareDecimal, t, i, e) ensures false {
      BareDecimalShape(t, i, e);
    }
    AmountAbsent(t);
  }

  /** No day-first date starts in the first eleven positions of the
      mixed-date text. */
  lemma NoDayFirstDateBefore(t: string)
    requires t == "2024-05-12 12/05/2024"
    ensures forall j :: 0 <= j < 11 ==> DateEnd(DayFirstDate, t, j).None?
  {
    forall j | 0 <= j < 11 ensures DateEnd(DayFirstDate, t, j).None? {
      DayFirstDateChars(t, j);
      if j < 6 {
        assert j == 0 || j == 1 || j == 2 || j == 3 || j == 4 || j == 5;
      } else {
        assert j == 6 || j == 7 || j == 8 || j == 9 || j == 10;
      }
    }
  }

  /** A day-first date wins over a year-first date that comes before it. */
  lemma DayFirstBeatsEarlierYearFirst(t: string)
    requires t == "2024-05-12 12/05/2024"
    ensures DATE in ParseReceipt(t) && ParseReceipt(t)[DATE] == "12/05/2024"
  {
    assert t[11..21] == "12/05/2024";
    assert IsDayFirstDate("12/05/2024") by {
      assert "12/05/2024"[..2] == "12" && "12/05/2024"[3..5] == "05" && "12/05/2024"[6..] == "2024";
    }
    assert DateEnd(DayFirstDate, t, 11) == Some(21);
    NoDayFirstDateBefore(t);
    assert forall j :: 0 <= j < 11 ==> MatchEnd(DayFirstDate, t, j).None?;
    SearchFindsFirst(DayFirstDate, t, 11, 21);
    assert Search(DayFirstDate, t) == Some(Span(11, 21));
    RecordFields(t);
  }

  /** Without a day-first date the year-first date is taken; the two
      separators need not agree. */
  lemma YearFirstFallbackMixedSeparators(t: string)
    requires t == "2024-05/12"
    ensures DATE in ParseReceipt(t) && ParseReceipt(t)[DATE] == "2024-05/12"
  {
    forall i: nat, e: nat | Matches(DayFirstDate, t, i, e) ensures false {
      DayFirstDateChars(t, i);
    }
    assert IsYearFirstDate(t) by {
      assert t[..4] == "2024" && t[5..7] == "05" && t[8..] == "12";
    }
    assert t[0..10] == t;
    SearchFindsFirst(YearFirstDate, t, 0, 10);
    DateFallback(t);
  }

  /** The receipt `Joe's Deli` / `Thank you` / `STORE #4` splits into its
      three lines, which need no stripping. */
  lemma DeliLines(t: string, lines: seq<string>)
    requires t == "Joe's Deli\nThank you\nSTORE #4"
    requires lines == ["Joe's Deli", "Thank you", "STORE #4"]
    ensures MerchantLines(t) == lines
  {
    assert JoinLines(lines[2..]) == "STORE #4";
    assert JoinLines(lines[1..]) == "Thank you\nSTORE #4";
    assert t == JoinLines(lines);
    DeliLinesAreClean(lines);
    SplitJoinedLines(lines);
    NonEmptyStrippedKeepsTrimmed(lines);
  }

  lemma DeliLinesAreClean(lines: seq<string>)
    requires lines == ["Joe's Deli", "Thank you", "STORE #4"]
    ensures forall l :: l in lines ==> NoLineBreak(l)
    ensures forall l :: l in lines ==> l != [] && !IsSpace(l[0]) && !IsSpace(l[|l| - 1])
  {
    PlainLine(lines[0]);
    PlainLine(lines[1]);
    PlainLine(lines[2]);
    assert forall l :: l in lines ==> l == lines[0] || l == lines[1] || l == lines[2];
  }

  /** A line of printable ASCII that neither starts nor ends with a space
      holds no line boundary and is already trimmed. */
  lemma PlainLine(l: string)
    requires l != [] && forall k :: 0 <= k < |l| ==> ' ' <= l[k] <= '~'
    requires l[0] != ' ' && l[|l| - 1] != ' '
    ensures NoLineBreak(l) && !IsSpace(l[0]) && !IsSpace(l[|l| - 1])
  {
  }

  /** A line that lacks, in either case, one letter of every keyword holds
      no keyword. */
  lemma NoKeywordWhenLettersMissing(line: string, missing: seq<char>)
    requires |missing| == |KEYWORDS|
    requires forall i :: 0 <= i < |KEYWORDS| ==> 'A' <= missing[i] <= 'Z' && missing[i] in KEYWORDS[i]
    requires forall i :: 0 <= i < |KEYWORDS| ==>
               missing[i] !in line && (missing[i] as int + 32) as char !in line
    ensures !HasKeyword(line)
  {
    forall i | 0 <= i < |KEYWORDS| ensures !IsInfix(KEYWORDS[i], Upper(line)) {
      UpperLacksLetter(line, missing[i]);
      MissingCharRulesOutInfix(KEYWORDS[i], Upper(line), missing[i]);
    }
    assert forall kw :: kw in KEYWORDS ==> !IsInfix(kw, Upper(line));
  }

  lemma DeliFirstLineHasNoKeyword(line: string)
    requires line == "Joe's Deli"
    ensures !HasKeyword(line)
  {
    NoKeywordWhenLettersMissing(line, "RRHCMHC");
  }

  lemma DeliSecondLineHasNoKeyword(line: string)
    requires line == "Thank you"
    ensures !HasKeyword(line)
  {
    NoKeywordWhenLettersMissing(line, "RSECRSC");
  }

  lemma DeliThirdLineHasKeyword(line: string)
    requires line == "STORE #4"
    ensures HasKeyword(line)
  {
    assert Upper(line) == "STORE #4";
    assert OccursAt("STORE", "STORE #4", 0);
  }

  /** The line with a keyword overrides the first line. */
  lemma KeywordLineIsMerchant(t: string)
    requires t == "Joe's Deli\nThank you\nSTORE #4"
    ensures MERCHANT in ParseReceipt(t) && ParseReceipt(t)[MERCHANT] == "STORE #4"
  {
    var lines := ["Joe's Deli", "Thank you", "STORE #4"];
    DeliLines(t, lines);
    DeliFirstLineHasNoKeyword(lines[0]);
    DeliSecondLineHasNoKeyword(lines[1]);
    DeliThirdLineHasKeyword(lines[2]);
    assert IsFirstKeywordLine(lines, 2) by {
      forall j | 0 <= j < 2 ensures !HasKeyword(lines[j]) {
        assert j == 0 || j == 1;
      }
    }
    MerchantChoice(t);
  }

  /** Empty text gives the empty record. */
  lemma EmptyTextEmptyRecord()
    ensures ParseReceipt("") == map[]
  {
    BlankTextYieldsEmptyRecord("");
  }
}
