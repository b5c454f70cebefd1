# Receipt text extractor: a Dafny model

This project models the text-parsing core of a small receipt OCR service,
together with the content-type gate of its upload endpoint. The service
runs OCR on an uploaded receipt image. It then pulls three fields out of the
recognised text:

- the **amount**: the first currency amount (`$`, `₹` or `€`, at most one
  whitespace character, digits, and optionally a point and one or two
  digits). Failing that, the first bare decimal: 1 to 5 digits, a point
  and 2 digits, between word boundaries;
- the **date**: the first `dd/mm/yyyy`-shaped date, whose separators are
  `/` or `-`. Failing that, the first `yyyy/mm/dd`-shaped date;
- the **merchant**: among the stripped, non-blank lines, the first one whose
  upper-cased form contains one of RESTAURANT, STORE, HOTEL, CAFE, MART,
  SHOP or COMPANY. Failing that, the first such line.

Modules:

- `Chars`: the character classes the regular expressions and string
  methods use.
- `Text`: `strip`, `splitlines`, `upper` and substring search, each with
  lemmas that describe its result. For `splitlines` they fix every
  non-empty line and the order of all lines; how many empty lines come
  out is fixed only for `\n`-joined text (`Text.SplitJoinedLines`).
- `Patterns`: the four regular expressions. Each is given as the language
  it accepts and as a matcher. `re.search` is given as the leftmost match
  whose extent at that start is longest. For these four patterns this is
  what Python's backtracking engine reports.
- `Receipt`: the parser, in two forms:
  - the pure specification `ParseReceipt`;
  - the method `ParseReceiptText`, which follows the source step by step,
    including the merchant loop with its early `break`. It is proved equal
    to the specification.
- `ReceiptExamples`: concrete receipts and their results.
- `Upload`: the endpoint's status outcome. Image decoding and OCR enter as
  a parameter.

The endpoint does not do what its own code evidently means on one point.
app.py:113-114 rejects a content type that does not start with `image/`
by raising an HTTP 400. That `raise` sits inside the `try` whose catch-all
at app.py:135-136 turns every exception into a 500, so the client gets a
500. The model follows the code as written (`Upload.HandleUpload`) and
records the difference under Findings, with the intended 400 as
`Upload.HandleUploadReraised`.

## Model

| member | source | states |
|---|---|---|
| Chars.ToUpper | app.py:88 | `upper()` on one character never leaves a lower-case ASCII letter |
| Chars.ToUpperIdentifies | app.py:88 | two characters upper-case alike exactly when they are equal or the two cases of one ASCII letter, so comparing upper-cased text ignores case |
| Text.Upper | app.py:88 | upper-casing keeps the length and upper-cases each character in place |
| Text.Contains | app.py:88 | true exactly when the needle occurs somewhere in the text |
| Text.Strip | app.py:84 | `strip()` gives the piece of the input with only whitespace on each side, and neither end of the result is whitespace; the result is empty exactly when the input is all whitespace |
| Text.StripTrimmed | app.py:84 | a non-empty line with no whitespace at either end is left as it is |
| Text.StripIdempotent | app.py:84 | stripping twice is stripping once |
| Text.SplitLines | app.py:84 | `splitlines()`; its lines are described by Text.SplitLinesSpec, Text.SplitLinesMaximal, Text.SplitLinesInOrder and Text.SplitLinesLosesOnlyBreaks |
| Text.SplitLinesMaximal | app.py:84 | every line yielded is a whole line of the text: it starts at the start of the text or right after a boundary, and ends at the end of the text or right before a boundary |
| Text.SplitLinesInOrder | app.py:84 | the lines are whole lines of the text standing in it in the order they are yielded, each starting after the previous one and the boundary that ends it |
| Text.SplitLinesSpec | app.py:84 | `splitlines()` yields lines with no line boundary in them, each a piece of the text |
| Text.SplitLinesLosesOnlyBreaks | app.py:84 | concatenating the lines gives the text with its line-boundary characters removed: nothing else is lost or reordered |
| Text.SplitJoinedLines | app.py:84 | joining break-free lines with `\n` and splitting them again gives the lines back, provided the last line is not empty |
| Text.UpperLacksLetter | app.py:88 | a line lacking an upper-case letter in both cases has no such letter after upper-casing |
| Text.MissingCharRulesOutInfix | app.py:88 | a keyword with a letter the line lacks does not occur in the line |
| Patterns.IsCurrencyAmount | app.py:68 | the language of the currency pattern: `$`, `₹` or `€`, at most one whitespace character, then `\d+(?:\.\d{1,2})?`; its shape is stated by Patterns.CurrencyAmountShape |
| Patterns.IsBareDecimal | app.py:72 | the language of `\d{1,5}\.\d{2}`; its shape is stated by Patterns.BareDecimalShape |
| Patterns.WordBoundary | app.py:72 | `\b` between two positions, with ASCII `\w`; used by Patterns.Matches and stated by Patterns.BareDecimalShape |
| Patterns.IsDayFirstDate | app.py:77 | the language of `\d{2}[/-]\d{2}[/-]\d{4}`; its characters are stated by Patterns.DayFirstDateChars |
| Patterns.IsYearFirstDate | app.py:79 | the language of `\d{4}[/-]\d{2}[/-]\d{2}`; the matcher is stated by Patterns.DateEnd |
| Patterns.NumeralEnd | app.py:68 | the greedy `\d+(?:\.\d{1,2})?` read from a digit ends inside the text, on a numeral |
| Patterns.NumeralBound | app.py:68 | every numeral that starts at a digit ends no later than the greedy one |
| Patterns.CurrencyAmountShape | app.py:68 | a currency match starts with `$`, `₹` or `€`, then at most one whitespace character, then a numeral |
| Patterns.CurrencyNeedsSymbol | app.py:68 | text with no currency symbol has no currency match |
| Patterns.CurrencyEnd | app.py:68 | the currency matcher at a position returns the end of the longest currency match there, or nothing when none starts there |
| Patterns.BareDecimalShape | app.py:72 | a bare-decimal match is the whole digit run at its start, 1 to 5 digits long, then a point and 2 digits |
| Patterns.BareDecimalEnd | app.py:72 | the bare-decimal matcher returns the end of the match at a position, or nothing when none starts there |
| Patterns.DateEnd | app.py:77-79 | each date matcher returns the end of the ten-character date at a position, or nothing when none starts there |
| Patterns.DayFirstDateChars | app.py:77 | a day-first date has digits at offsets 0, 1, 3, 4 and 6 to 9, and `/` or `-` at offsets 2 and 5 |
| Patterns.MatchEnd | app.py:68-79 | the engine's match at one start position: the longest match of the pattern there, or nothing |
| Patterns.SearchFrom | app.py:68-79 | the scan returns the first start at or after `from` with a match, and that match is the longest there |
| Patterns.Search | app.py:68-79 | `re.search` reports the match at the smallest start that has one, taking the longest extent there; it reports nothing exactly when the pattern matches nowhere |
| Patterns.SearchFindsFirst | app.py:68-79 | if no match starts before `s` and the match at `s` ends at `e`, the search reports `(s, e)` |
| Patterns.FirstMatchUnique | app.py:68-79 | the reported match is determined by the text |
| Receipt.Group | app.py:70 | `group()` of a search result; Receipt.GroupIsSubstring states it is a piece of the text |
| Receipt.ExtractAmount | app.py:67-74 | the amount rule; stated by Receipt.AmountPrefersCurrency, Receipt.AmountFallback, Receipt.AmountAbsent and Receipt.AmountIsSubstring |
| Receipt.ExtractDate | app.py:76-81 | the date rule; stated by Receipt.DatePrefersDayFirst, Receipt.DateFallback and Receipt.DateIsSubstring |
| Receipt.HasKeyword | app.py:88 | the keyword test on the upper-cased line; stated by Receipt.ContainsAny |
| Receipt.ContainsAny | app.py:88 | true exactly when some keyword occurs in the line |
| Receipt.NonEmptyStripped | app.py:84 | the comprehension over the lines; stated by Receipt.NonEmptyStrippedOne, Receipt.NonEmptyStrippedAppend and Receipt.NonEmptyStrippedSpec |
| Receipt.NonEmptyStrippedOne | app.py:84 | one line is kept, stripped, exactly when it is not blank |
| Receipt.NonEmptyStrippedAppend | app.py:84 | the kept lines of two pieces of input, in order, are the kept lines of the whole: every non-blank line is kept, and the order is the input's |
| Receipt.MerchantLines | app.py:84 | the candidate merchant lines: the stripped non-blank lines of `splitlines()`, in order; stated through Receipt.NonEmptyStripped and Text.SplitLines |
| Receipt.NonEmptyStrippedSpec | app.py:84 | every kept line is the non-empty strip of some input line, and nothing is kept exactly when every line is blank |
| Receipt.NonEmptyStrippedKeepsTrimmed | app.py:84 | lines that are already trimmed and non-blank are all kept as they are, in order |
| Receipt.FirstKeywordLine | app.py:87-90 | returns the first index at or after `from` whose line holds a keyword, or nothing when no line there does |
| Receipt.ChooseFirstKeywordLine | app.py:87-90 | when a line holds a keyword and no earlier line does, that line is the merchant chosen |
| Receipt.ChooseFirstLine | app.py:85-86 | when no line holds a keyword, the first line is the merchant chosen |
| Receipt.ExtractMerchant | app.py:84-91 | the merchant rule; stated by Receipt.MerchantChoice, Receipt.MerchantIsStrippedLine and Receipt.MerchantIsSubstring |
| Receipt.ChooseMerchant | app.py:85-91 | a merchant is chosen exactly when there is a candidate line, and it is one of the lines |
| Receipt.ParseReceipt | app.py:63-93 | the record's keys are among `amount`, `date` and `merchant` |
| Receipt.ParseReceiptText | app.py:63-93 | the step-by-step parser, with its early-exit merchant loop, builds the same record as the specification |
| Receipt.ScanForMerchant | app.py:85-91 | the loop starts from the first line and stops at the first keyword line; it ends with the merchant the specification chooses |
| Receipt.RecordFields | app.py:63-93 | each key is present exactly when its extractor found something, with that value |
| Receipt.GroupIsSubstring | app.py:70 | `group()` of a reported match is a piece of the text |
| Receipt.AmountIsSubstring | app.py:67-74 | the amount is a piece of the text |
| Receipt.DateIsSubstring | app.py:76-81 | the date is a piece of the text |
| Receipt.MerchantIsSubstring | app.py:84-91 | the merchant is a piece of the text and of one of its lines |
| Receipt.ValuesAreSubstrings | app.py:63-93 | every value in the record is a piece of the text, and the merchant is a piece of one line |
| Receipt.AmountPrefersCurrency | app.py:68-70 | when some currency amount exists, the amount is the first currency match, whatever bare decimals come earlier |
| Receipt.AmountFallback | app.py:71-74 | without a currency amount, there is an amount exactly when a bare decimal exists, and it is the first one |
| Receipt.AmountAbsent | app.py:67-74 | there is no amount exactly when neither pattern matches anywhere |
| Receipt.DatePrefersDayFirst | app.py:77-81 | when some day-first date exists, the date is the first one, whatever year-first dates come earlier |
| Receipt.DateFallback | app.py:78-81 | without a day-first date, there is a date exactly when a year-first date exists, and it is the first one |
| Receipt.MerchantIsStrippedLine | app.py:84-91 | there is a merchant exactly when some line is not blank, and the merchant is the stripped form of one of the lines |
| Receipt.MerchantChoice | app.py:85-91 | the merchant is the first candidate line holding a keyword; when no line holds one, it is the first candidate line |
| Receipt.MatchStartsWithNonSpace | app.py:68-79 | every match of every pattern starts with a non-whitespace character |
| Receipt.BlankTextYieldsEmptyRecord | app.py:63-93 | empty or whitespace-only text yields the empty record |
| ReceiptExamples.CurrencyKeepsTwoDecimals | app.py:68 | `$12.345` yields the amount `$12.34` |
| ReceiptExamples.CurrencyDropsBarePoint | app.py:68 | `$12.` yields the amount `$12` |
| ReceiptExamples.CurrencyAfterOneSpace | app.py:68 | `Total ₹ 250.5` yields `₹ 250.5` |
| ReceiptExamples.CurrencyBeatsEarlierDecimal | app.py:68-70 | in `9.99 $5`, a bare decimal comes first, yet the amount is `$5` |
| ReceiptExamples.BareDecimalFallback | app.py:72-74 | `Due 123.45` yields `123.45` |
| ReceiptExamples.NoAmountWithSixIntegerDigits | app.py:72 | `123456.78` yields no amount |
| ReceiptExamples.NoAmountWithThreeDecimals | app.py:72 | `12.345` yields no amount |
| ReceiptExamples.NoAmountAfterLetter | app.py:72 | `A12.34` yields no amount, because there is no word boundary before the digits |
| ReceiptExamples.NoDayFirstDateBefore | app.py:77 | no day-first date starts in the first eleven positions of `2024-05-12 12/05/2024` |
| ReceiptExamples.DayFirstBeatsEarlierYearFirst | app.py:77-81 | `2024-05-12 12/05/2024` yields the date `12/05/2024` |
| ReceiptExamples.YearFirstFallbackMixedSeparators | app.py:79-81 | `2024-05/12` yields that date: the two separators need not agree |
| ReceiptExamples.DeliLines | app.py:84 | the three-line receipt splits into its three lines |
| ReceiptExamples.DeliLinesAreClean | app.py:84 | those lines are free of line breaks and already trimmed |
| ReceiptExamples.NoKeywordWhenLettersMissing | app.py:88 | a line lacking, in both upper and lower case, one letter of each keyword holds no keyword |
| ReceiptExamples.DeliFirstLineHasNoKeyword | app.py:88 | `Joe's Deli` holds no keyword |
| ReceiptExamples.DeliSecondLineHasNoKeyword | app.py:88 | `Thank you` holds no keyword |
| ReceiptExamples.DeliThirdLineHasKeyword | app.py:88 | `STORE #4` holds a keyword |
| ReceiptExamples.KeywordLineIsMerchant | app.py:85-91 | for `Joe's Deli` / `Thank you` / `STORE #4`, the merchant is `STORE #4` |
| ReceiptExamples.EmptyTextEmptyRecord | app.py:63-93 | empty text yields the empty record |
| Upload.IsImageContentType | app.py:113 | `content_type.startswith("image/")`; its effect is stated by Upload.HandleUpload and Upload.NonImageRejectedRegardlessOfContent |
| Upload.HandleUpload | app.py:111-136 | the endpoint succeeds exactly when the content type starts with `image/` and the text was recognised; every failure is a 500; a success carries the file name, the stripped text and the parsed record |
| Upload.HandleUploadReraised | app.py:113-114 | the intended endpoint: the answer is 400 exactly when the content type is present and does not start with `image/`; the other failures are 500 |
| Upload.NonImageRejectedRegardlessOfContent | app.py:113-114 | a non-image upload fails the same way whatever the image holds |
| Upload.AgreeOnImages | app.py:111-136 | the two versions agree whenever the gate lets the upload through |
| Upload.ExtractedFieldsComeFromText | app.py:127-133 | an accepted response has empty text exactly when the recognised text is blank, and every structured value is a piece of the recognised text |
| Upload.TextUploadGetsServerError | app.py:113-136 | a `text/plain` upload gets 500 as written and 400 as intended |

## Left out

- Image preprocessing (greyscale, median blur, adaptive threshold, morphological open) is left out. It is a chain of OpenCV calls with floating-point weights.
- Image decoding and the Tesseract OCR call are left out. They are external engines. Their outcome is the `recognised` parameter of `Upload.HandleUpload`, where `None` stands for any exception they raise.
- The FastAPI application, the CORS middleware, the `/` and `/health` endpoints and the asynchronous file read are left out. They are framework plumbing and I/O.
- The `detail` message texts of the HTTP errors are not modelled. Only the status codes are.
- Chars.IsDigit: `\d` is read as the ASCII digits only. Python's `\d` also accepts other Unicode decimal digits.
- Chars.IsWordChar: `\w`, and through it `\b`, are read as ASCII letters, digits and `_`. Python's `\w` also accepts other Unicode letters and digits.
- Chars.ToUpper: `upper()` is read on ASCII letters only. Other letters are left as they are. This does not matter for the all-ASCII keywords unless a non-ASCII character upper-cases to an ASCII one (for example the dotless `ı` becomes `I`). That case is not captured.
- Chars.IsSpace and Chars.IsLineBreak list Python's whitespace and line-boundary characters explicitly. No other Unicode property is consulted.
- Text.SplitLines: the lemmas fix each non-empty line and the order of the text, but say how many empty lines appear (between consecutive boundaries) only for `\n`-joined text whose last line is not empty.
- Receipt.ParseReceipt: a Python dict's insertion order (amount, date, merchant) is not modelled. The record is a map.
- Upload.HandleUpload: a missing content type is modelled as a failed `startswith` call, which the catch-all turns into a 500.

## Findings

| source | as written | input that shows it | evidently intended | confidence | as-written member | corrected member |
|---|---|---|---|---|---|---|
| app.py:113-136 | the 400 raised for a non-image content type is raised inside the `try`, and `except Exception` re-raises it as a 500 | an upload with content type `text/plain` | the client gets the 400 validation error | not executed | Upload.HandleUpload (shown by Upload.TextUploadGetsServerError) | Upload.HandleUploadReraised |
