/** The receipt field extractor: `parse_receipt_text` of app.py.

    The structured record is a map with at most the keys "amount", "date"
    and "merchant"; a field whose rules all fail is left out. */
module Receipt {
  import opened Wrappers
  import opened Chars
  import opened Text
  import opened Patterns

  const AMOUNT: string := "amount"
  const DATE: string := "date"
  const MERCHANT: string := "merchant"

  /** The alternatives of `(RESTAURANT|STORE|HOTEL|CAFE|MART|SHOP|COMPANY)`. */
  const KEYWORDS: seq<string> := ["RESTAURANT", "STORE", "HOTEL", "CAFE", "MART", "SHOP", "COMPANY"]

  // ---------------------------------------------------------------------
  // Amount and date: ordered regex rules, first match wins
  // ---------------------------------------------------------------------

  /** `match.group()` of a search result. */
  function Group(text: string, r: Option<Span>): Option<string>
    requires r.Some? ==> r.value.start <= r.value.end <= |text|
  {
    match r
    case Some(span) => Some(text[span.start..span.end])
    case None => None
  }

  /** The currency-prefixed amount, else the bare-decimal fallback. */
  function ExtractAmount(text: string): Option<string> {
    var currency := Search(CurrencyAmount, text);
    if currency.Some? then Group(text, currency) else Group(text, Search(BareDecimal, text))
  }

  /** The day-first date, else the year-first date. */
  function ExtractDate(text: string): Option<string> {
    var dayFirst := Search(DayFirstDate, text);
    if dayFirst.Some? then Group(text, dayFirst) else Group(text, Search(YearFirstDate, text))
  }

  // ---------------------------------------------------------------------
  // Merchant: first keyword line, else first non-empty line
  // ---------------------------------------------------------------------

  /** `hay` contains one of `needles`: a search for an alternation of words. */
  function ContainsAny(hay: string, needles: seq<string>): (b: bool)
    ensures b <==> exists kw :: kw in needles && IsInfix(kw, hay)
    decreases |needles|
  {
    if needles == [] then false
    else
      assert forall kw :: kw in needles <==> kw == needles[0] || kw in needles[1..];
      Contains(hay, needles[0]) || ContainsAny(hay, needles[1..])
  }

  /** `re.search(keywords, line.upper())` finds a keyword. */
  predicate HasKeyword(line: string) {
    ContainsAny(Upper(line), KEYWORDS)
  }

  /** `[line.strip() for line in lines if line.strip()]` */
  function NonEmptyStripped(lines: seq<string>): seq<string> {
    if lines == [] then []
    else
      var t := Strip(lines[0]);
      (if t == [] then [] else [t]) + NonEmptyStripped(lines[1..])
  }

  /** The kept lines are the stripped lines that are not blank. */
  lemma {:induction false} NonEmptyStrippedSpec(lines: seq<string>)
    ensures var r := NonEmptyStripped(lines);
      && (forall x :: x in r ==> x != [] && exists l :: l in lines && IsStripOf(x, l))
      && (r == [] <==> forall l :: l in lines ==> AllSpace(l))
  {
    if lines != [] {
      NonEmptyStrippedSpec(lines[1..]);
      assert forall l :: l in lines[1..] ==> l in lines;
      assert forall l :: l in lines ==> l == lines[0] || l in lines[1..];
    }
  }

  /** A single line is kept, stripped, exactly when it is not blank. */
  lemma NonEmptyStrippedOne(l: string)
    ensures NonEmptyStripped([l]) == if AllSpace(l) then [] else [Strip(l)]
  {
    assert [l][1..] == [];
  }

  /** The comprehension works line by line: the kept lines of two pieces of
      input, in order, are the kept lines of the whole. */
  lemma {:induction false} NonEmptyStrippedAppend(a: seq<string>, b: seq<string>)
    ensures NonEmptyStripped(a + b) == NonEmptyStripped(a) + NonEmptyStripped(b)
  {
    if a == [] {
      assert a + b == b;
    } else {
      assert (a + b)[0] == a[0];
      assert (a + b)[1..] == a[1..] + b;
      NonEmptyStrippedAppend(a[1..], b);
    }
  }

  /** Lines that are already trimmed and not blank are all kept as they are. */
  lemma {:induction false} NonEmptyStrippedKeepsTrimmed(lines: seq<string>)
    requires forall l :: l in lines ==> l != [] && !IsSpace(l[0]) && !IsSpace(l[|l| - 1])
    ensures NonEmptyStripped(lines) == lines
  {
    if lines != [] {
      StripTrimmed(lines[0]);
      assert forall l :: l in lines[1..] ==> l in lines;
      NonEmptyStrippedKeepsTrimmed(lines[1..]);
    }
  }

  /** The candidate merchant lines of the text, in order. */
  function MerchantLines(text: string): seq<string> {
    NonEmptyStripped(SplitLines(text))
  }

  function FirstKeywordLine(lines: seq<string>, from: nat): (r: Option<nat>)
    requires from <= |lines|
    ensures r.Some? ==> && from <= r.value < |lines| && HasKeyword(lines[r.value])
                        && forall j :: from <= j < r.value ==> !HasKeyword(lines[j])
    ensures r.None? ==> forall j :: from <= j < |lines| ==> !HasKeyword(lines[j])
    decreases |lines| - from
  {
    if from == |lines| then None
    else if HasKeyword(lines[from]) then Some(from)
    else
      match FirstKeywordLine(lines, from + 1)
      case Some(k) => NoKeywordPrepends(lines, from, k); Some(k)
      case None => NoKeywordPrepends(lines, from, |lines|); None
  }

  /** The first line with a keyword, or else the first line. */
  function ChooseMerchant(lines: seq<string>): (r: Option<string>)
    ensures r.None? <==> lines == []
    ensures r.Some? ==> r.value in lines
  {
    if lines == [] then None
    else match FirstKeywordLine(lines, 0)
      case Some(k) => Some(lines[k])
      case None => Some(lines[0])
  }

  function ExtractMerchant(text: string): Option<string> {
    ChooseMerchant(MerchantLines(text))
  }

  // ---------------------------------------------------------------------
  // The structured record
  // ---------------------------------------------------------------------

  function Put(m: map<string, string>, key: string, v: Option<string>): map<string, string> {
    match v
    case Some(x) => m[key := x]
    case None => m
  }

  /** What `parse_receipt_text(text)` returns. */
  function ParseReceipt(text: string): (r: map<string, string>)
    ensures r.Keys <= {AMOUNT, DATE, MERCHANT}
  {
    var withAmount := Put(map[], AMOUNT, ExtractAmount(text));
    var withDate := Put(withAmount, DATE, ExtractDate(text));
    Put(withDate, MERCHANT, ExtractMerchant(text))
  }

  /** `parse_receipt_text`: the record is filled in place, field by field;
      the merchant scan keeps the first line and overrides it with the
      first keyword line, stopping there. */
  method ParseReceiptText(text: string) returns (result: map<string, string>)
    ensures result == ParseReceipt(text)
  {
    result := map[];

    var amountMatch := Search(CurrencyAmount, text);
    if amountMatch.Some? {
      result := result[AMOUNT := text[amountMatch.value.start..amountMatch.value.end]];
    } else {
      var fallbackAmount := Search(BareDecimal, text);
      if fallbackAmount.Some? {
        result := result[AMOUNT := text[fallbackAmount.value.start..fallbackAmount.value.end]];
      }
    }
    AmountStep(text, result);

    var dateMatch := Search(DayFirstDate, text);
    if dateMatch.None? {
      dateMatch := Search(YearFirstDate, text);
    }
    ghost var withAmount := result;
    if dateMatch.Some? {
      result := result[DATE := text[dateMatch.value.start..dateMatch.value.end]];
    }
    DateStep(text, withAmount, dateMatch, result);

    var lines := MerchantLines(text);
    ghost var withDate := result;
    if |lines| > 0 {
      var possibleMerchant := ScanForMerchant(lines);
      result := result[MERCHANT := possibleMerchant];
    }
    MerchantStep(text, withDate, result);
  }

  /** The amount step of `parse_receipt_text` leaves the record holding
      exactly the extracted amount. */
  lemma AmountStep(text: string, m: map<string, string>)
    requires var c := Search(CurrencyAmount, text);
             var b := Search(BareDecimal, text);
             m == if c.Some? then map[AMOUNT := text[c.value.start..c.value.end]]
                  else if b.Some? then map[AMOUNT := text[b.value.start..b.value.end]]
                  else map[]
    ensures m == Put(map[], AMOUNT, ExtractAmount(text))
  {
  }

  /** The date step adds exactly the extracted date. */
  lemma DateStep(text: string, before: map<string, string>, dateMatch: Option<Span>, after: map<string, string>)
    requires before == Put(map[], AMOUNT, ExtractAmount(text))
    requires dateMatch == (var d := Search(DayFirstDate, text); if d.None? then Search(YearFirstDate, text) else d)
    requires after == if dateMatch.Some? then before[DATE := text[dateMatch.value.start..dateMatch.value.end]] else before
    ensures after == Put(before, DATE, ExtractDate(text))
  {
  }

  /** The merchant step adds exactly the chosen merchant. */
  lemma MerchantStep(text: string, before: map<string, string>, after: map<string, string>)
    requires before == Put(Put(map[], AMOUNT, ExtractAmount(text)), DATE, ExtractDate(text))
    requires var lines := MerchantLines(text);
             after == if |lines| > 0 then before[MERCHANT := ChooseMerchant(lines).value] else before
    ensures after == ParseReceipt(text)
  {
  }

  /** The merchant scan of `parse_receipt_text`: start from the first line,
      and on the first line holding a keyword take it and stop. */
  method ScanForMerchant(lines: seq<string>) returns (possibleMerchant: string)
    requires lines != []
    ensures Some(possibleMerchant) == ChooseMerchant(lines)
  {
    possibleMerchant := lines[0];
    var k := 0;
    while k < |lines|
      invariant k <= |lines|
      invariant possibleMerchant == lines[0]
      invariant forall j :: 0 <= j < k ==> !HasKeyword(lines[j])
    {
      if HasKeyword(lines[k]) {
        possibleMerchant := lines[k];
        ChooseFirstKeywordLine(lines, k);
        break;
      }
      NoKeywordExtends(lines, k);
      k := k + 1;
    }
    if k == |lines| {
      ChooseFirstLine(lines);
    }
  }

  /** A keyword-free prefix of lines grows by a keyword-free line. */
  lemma NoKeywordExtends(lines: seq<string>, k: nat)
    requires k < |lines| && !HasKeyword(lines[k])
    requires forall j :: 0 <= j < k ==> !HasKeyword(lines[j])
    ensures forall j :: 0 <= j < k + 1 ==> !HasKeyword(lines[j])
  {
  }

  /** A keyword-free range of lines grows by a keyword-free line in front. */
  lemma NoKeywordPrepends(lines: seq<string>, from: nat, hi: nat)
    requires from < hi <= |lines| && !HasKeyword(lines[from])
    requires forall j :: from + 1 <= j < hi ==> !HasKeyword(lines[j])
    ensures forall j :: from <= j < hi ==> !HasKeyword(lines[j])
  {
    forall j | from <= j < hi ensures !HasKeyword(lines[j]) {
      if j != from {
        assert from + 1 <= j;
      }
    }
  }

  /** The first keyword line is the one chosen. */
  lemma ChooseFirstKeywordLine(lines: seq<string>, k: nat)
    requires IsFirstKeywordLine(lines, k)
    ensures ChooseMerchant(lines) == Some(lines[k])
  {
    var r := FirstKeywordLine(lines, 0);
    assert HasKeyword(lines[k]);
    assert r.Some?;
    assert HasKeyword(lines[r.value]);
    assert r.value >= k;
    assert r.value <= k;
  }

  /** With no keyword line, the first line is chosen. */
  lemma ChooseFirstLine(lines: seq<string>)
    requires lines != []
    requires forall j :: 0 <= j < |lines| ==> !HasKeyword(lines[j])
    ensures ChooseMerchant(lines) == Some(lines[0])
  {
    var r := FirstKeywordLine(lines, 0);
  }

  // ---------------------------------------------------------------------
  // Properties of the record
  // ---------------------------------------------------------------------

  lemma RecordFields(text: string)
    ensures var r := ParseReceipt(text);
      && (AMOUNT in r <==> ExtractAmount(text).Some?)
      && (AMOUNT in r ==> r[AMOUNT] == ExtractAmount(text).value)
      && (DATE in r <==> ExtractDate(text).Some?)
      && (DATE in r ==> r[DATE] == ExtractDate(text).value)
      && (MERCHANT in r <==> ExtractMerchant(text).Some?)
      && (MERCHANT in r ==> r[MERCHANT] == ExtractMerchant(text).value)
  {
    var withAmount := Put(map[], AMOUNT, ExtractAmount(text));
    var withDate := Put(withAmount, DATE, ExtractDate(text));
    PutField(map[], AMOUNT, ExtractAmount(text), DATE);
    PutField(map[], AMOUNT, ExtractAmount(text), MERCHANT);
    PutField(withAmount, DATE, ExtractDate(text), AMOUNT);
    PutField(withAmount, DATE, ExtractDate(text), MERCHANT);
    PutField(withDate, MERCHANT, ExtractMerchant(text), AMOUNT);
    PutField(withDate, MERCHANT, ExtractMerchant(text), DATE);
  }

  /** Storing a field sets that key when there is a value and leaves every
      other key as it was. */
  lemma PutField(m: map<string, string>, key: string, v: Option<string>, other: string)
    requires other != key
    ensures key in Put(m, key, v) <==> v.Some? || key in m
    ensures v.Some? ==> Put(m, key, v)[key] == v.value
    ensures other in Put(m, key, v) <==> other in m
    ensures other in m ==> Put(m, key, v)[other] == m[other]
  {
  }

  lemma GroupIsSubstring(text: string, r: Option<Span>)
    requires r.Some? ==> r.value.start <= r.value.end <= |text|
    ensures Group(text, r).Some? ==> IsInfix(Group(text, r).value, text)
  {
    if r.Some? {
      assert OccursAt(text[r.value.start..r.value.end], text, r.value.start);
    }
  }

  lemma AmountIsSubstring(text: string)
    ensures ExtractAmount(text).Some? ==> IsInfix(ExtractAmount(text).value, text)
  {
    GroupIsSubstring(text, Search(CurrencyAmount, text));
    GroupIsSubstring(text, Search(BareDecimal, text));
  }

  lemma DateIsSubstring(text: string)
    ensures ExtractDate(text).Some? ==> IsInfix(ExtractDate(text).value, text)
  {
    GroupIsSubstring(text, Search(DayFirstDate, text));
    GroupIsSubstring(text, Search(YearFirstDate, text));
  }

  lemma MerchantIsSubstring(text: string)
    ensures ExtractMerchant(text).Some? ==>
      && IsInfix(ExtractMerchant(text).value, text)
      && exists l :: l in SplitLines(text) && IsInfix(ExtractMerchant(text).value, l)
  {
    RecordFields(text);
    if ExtractMerchant(text).Some? {
      var m := ExtractMerchant(text).value;
      MerchantIsStrippedLine(text);
      SplitLinesSpec(text);
      var l :| l in SplitLines(text) && IsStripOf(m, l);
      InfixTransitive(m, l, text);
    }
  }

  /** Every value in the record is a contiguous substring of the text, and
      the merchant is a substring of one line. */
  lemma ValuesAreSubstrings(text: string)
    ensures forall key :: key in ParseReceipt(text) ==> IsInfix(ParseReceipt(text)[key], text)
    ensures MERCHANT in ParseReceipt(text) ==>
      exists l :: l in SplitLines(text) && IsInfix(ParseReceipt(text)[MERCHANT], l)
  {
    RecordFields(text);
    AmountIsSubstring(text);
    DateIsSubstring(text);
    MerchantIsSubstring(text);
  }

  /** When a currency-prefixed amount occurs anywhere, the amount is the
      first one, and it starts with the currency symbol. */
  lemma AmountPrefersCurrency(text: string)
    requires !NoMatch(CurrencyAmount, text)
    ensures AMOUNT in ParseReceipt(text)
    ensures var a := ParseReceipt(text)[AMOUNT];
      && (exists s: nat, e: nat :: IsFirstMatch(CurrencyAmount, text, s, e) && a == text[s..e])
      && IsCurrencyAmount(a) && IsCurrencySymbol(a[0])
  {
    RecordFields(text);
    var span := Search(CurrencyAmount, text).value;
    assert IsFirstMatch(CurrencyAmount, text, span.start, span.end);
  }

  /** Only when no currency-prefixed amount occurs is the bare-decimal rule
      consulted; its amount is 1-5 digits, a point and 2 digits. */
  lemma AmountFallback(text: string)
    requires NoMatch(CurrencyAmount, text)
    ensures AMOUNT in ParseReceipt(text) <==> !NoMatch(BareDecimal, text)
    ensures AMOUNT in ParseReceipt(text) ==>
      var a := ParseReceipt(text)[AMOUNT];
      && (exists s: nat, e: nat :: IsFirstMatch(BareDecimal, text, s, e) && a == text[s..e])
      && IsBareDecimal(a) && 4 <= |a| <= 8
  {
    RecordFields(text);
    var b := Search(BareDecimal, text);
    if b.Some? {
      assert IsFirstMatch(BareDecimal, text, b.value.start, b.value.end);
    }
  }

  /** The amount is absent exactly when neither amount rule matches. */
  lemma AmountAbsent(text: string)
    ensures AMOUNT !in ParseReceipt(text) <==> NoMatch(CurrencyAmount, text) && NoMatch(BareDecimal, text)
  {
    RecordFields(text);
  }

  /** A day-first date anywhere wins, even after a year-first date. */
  lemma DatePrefersDayFirst(text: string)
    requires !NoMatch(DayFirstDate, text)
    ensures DATE in ParseReceipt(text)
    ensures var d := ParseReceipt(text)[DATE];
      && (exists s: nat, e: nat :: IsFirstMatch(DayFirstDate, text, s, e) && d == text[s..e])
      && IsDayFirstDate(d) && |d| == 10
  {
    RecordFields(text);
    var span := Search(DayFirstDate, text).value;
    assert IsFirstMatch(DayFirstDate, text, span.start, span.end);
  }

  /** Without a day-first date the first year-first date is taken, if any. */
  lemma DateFallback(text: string)
    requires NoMatch(DayFirstDate, text)
    ensures DATE in ParseReceipt(text) <==> !NoMatch(YearFirstDate, text)
    ensures DATE in ParseReceipt(text) ==>
      var d := ParseReceipt(text)[DATE];
      && (exists s: nat, e: nat :: IsFirstMatch(YearFirstDate, text, s, e) && d == text[s..e])
      && IsYearFirstDate(d) && |d| == 10
  {
    RecordFields(text);
    var y := Search(YearFirstDate, text);
    if y.Some? {
      assert IsFirstMatch(YearFirstDate, text, y.value.start, y.value.end);
    }
  }

  /** The merchant is present exactly when some line is not blank; it is a
      whole line stripped of surrounding whitespace, in its original case. */
  lemma MerchantIsStrippedLine(text: string)
    ensures MERCHANT in ParseReceipt(text) <==> exists l :: l in SplitLines(text) && Strip(l) != []
    ensures MERCHANT in ParseReceipt(text) ==>
      var m := ParseReceipt(text)[MERCHANT];
      && m != [] && !IsSpace(m[0]) && !IsSpace(m[|m| - 1])
      && exists l :: l in SplitLines(text) && IsStripOf(m, l)
  {
    RecordFields(text);
    var lines := MerchantLines(text);
    NonEmptyStrippedSpec(SplitLines(text));
    if MERCHANT in ParseReceipt(text) {
      var m := ParseReceipt(text)[MERCHANT];
      assert m in lines;
      var l :| l in SplitLines(text) && IsStripOf(m, l);
      if AllSpace(l) {
        InfixOfSpace(m, l);
        assert false;
      }
    }
  }

  ghost predicate IsFirstKeywordLine(lines: seq<string>, k: int) {
    0 <= k < |lines| && HasKeyword(lines[k]) && forall j :: 0 <= j < k ==> !HasKeyword(lines[j])
  }

  /** The merchant is the first candidate line holding a keyword (anywhere
      in its upper-cased form, so "Smart" and "Shopping" count); when no
      line holds one, it is the first candidate line. */
  lemma MerchantChoice(text: string)
    ensures var lines := MerchantLines(text);
      forall k :: IsFirstKeywordLine(lines, k) ==>
        MERCHANT in ParseReceipt(text) && ParseReceipt(text)[MERCHANT] == lines[k]
    ensures var lines := MerchantLines(text);
      (lines != [] && forall k :: 0 <= k < |lines| ==> !HasKeyword(lines[k])) ==>
        MERCHANT in ParseReceipt(text) && ParseReceipt(text)[MERCHANT] == lines[0]
  {
    RecordFields(text);
  }

  /** Every match of every pattern starts with a character that is not
      whitespace: a currency symbol or a digit. */
  lemma MatchStartsWithNonSpace(p: Pattern, text: string, i: nat, e: nat)
    requires Matches(p, text, i, e)
    ensures i < |text| && !IsSpace(text[i])
  {
    var s := text[i..e];
    match p
    case CurrencyAmount => assert s[0] == text[i];
    case BareDecimal => assert s[..|s| - 3][0] == text[i];
    case DayFirstDate => assert s[..2][0] == text[i];
    case YearFirstDate => assert s[..4][0] == text[i];
  }

  /** Empty or whitespace-only text yields the empty record. */
  lemma BlankTextYieldsEmptyRecord(text: string)
    requires AllSpace(text)
    ensures ParseReceipt(text) == map[]
  {
    forall p: Pattern, i: nat, e: nat ensures !Matches(p, text, i, e) {
      if Matches(p, text, i, e) {
        MatchStartsWithNonSpace(p, text, i, e);
      }
    }
    SplitLinesSpec(text);
    forall l | l in SplitLines(text) ensures AllSpace(l) {
      InfixOfSpace(l, text);
    }
    NonEmptyStrippedSpec(SplitLines(text));
    RecordFields(text);
  }
}
