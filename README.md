# Colonoscopy preparation instructions: text-to-record pipeline

This project models, in Dafny, how a bowel-preparation instruction sheet is
turned into CSV rows once its text has been extracted from the PDF. It covers
two versions of `processPDF`.

`utils/pdfProcessor.js` (the current version) goes through these steps:

1. It splits the text into lines, runs `cleanText` on each, and drops empty
   lines and "page N" footers.
2. A first pass sets two flags for the whole document: "procedure in the
   morning" and "split dose".
3. A second pass carries the current preparation product from line to line
   and emits one numbered record per line. Each record holds:
   - the product;
   - the category from `determineCategory`, a keyword table tried in priority
     order;
   - the day offset from `extractOffset`: three day patterns, a sign rule and
     the phrase "day of procedure";
   - the time from `extractTimeFromText`: the first digit run read as hours,
     then optional minutes and am/pm;
   - the two flags.

`index.js` (the older version) differs:

- it only drops blank lines;
- it classifies on the tokens of a word tokenizer;
- the offset is always -1;
- a time of 0 becomes none;
- the split and morning flags are decided line by line.

Every regular expression used with `match` is a hand-written anchored
matcher plus a leftmost scan, as `String.prototype.match` does. The page
footer test is anchored at both ends and needs no scan, and the two
`replace(/.../g)` patterns are the recursions `Clean.CollapseSpaces` and
`Clean.MaskNonPrintable`. Each matcher comment explains why
taking every run greedily gives the same match as backtracking. With the `i`
flag and no `u` flag, a regular expression compares ASCII letters without
case. No other character is folded onto ASCII, so `StartsAtCI` is exact.
JavaScript's `\s` and `trim` use the whitespace and line-terminator code
points of ECMA-262, sections 12.2 and 12.3 (`Text.IsSpace`).

Modules:

- `Text`: character classes, `toLowerCase` on ASCII, `includes`, `trim`,
  `split('\n')` and digit runs.
- `Clean`: `cleanText` and the "page N" filter.
- `Categories`: both keyword tables and both classifiers.
- `Offset`: `extractOffset`.
- `Time`: `extractTimeFromText`, and the `|| null` of index.js.
- `Prep`: the product expression and the carried `currentPrep`.
- `PdfProcessor`: `processPDF` of utils/pdfProcessor.js.
- `LegacyIndex`: `processPDF` of index.js.

Two consequences of the code are easy to miss:

- The time is read from the first digit run of the line, whatever that
  number counts. "Take first dose 2 days before procedure at 6pm" has
  time 2, not 18 (`Time.FirstNumberWins`).
- The sign rule negates every positive capture, that of "day N"
  included. "day 3" gives -3, and only a written minus sign gives a
  negative capture: "day -2" gives -2 (`Offset.OffsetExamples`).

## Model

| member | source | states |
|---|---|---|
| `Text.Lower` | utils/pdfProcessor.js:45 | `toLowerCase` on ASCII: same length, each character lower-cased on its own |
| `Text.Trim` | utils/pdfProcessor.js:82 | `trim()` is empty exactly when the string is all whitespace, and otherwise starts and ends with a non-whitespace character |
| `Text.TrimSlice` | utils/pdfProcessor.js:82 | `trim()` returns one contiguous piece of the input, and only whitespace is cut from either side of it |
| `Text.TrimTrimmed` | utils/pdfProcessor.js:142 | `trim()` leaves unchanged a string that has no whitespace at its ends |
| `Text.Split` | utils/pdfProcessor.js:112 | `split('\n')` gives at least one piece, and no piece holds a line feed |
| `Text.JoinSplit` | utils/pdfProcessor.js:112 | joining the pieces of `split('\n')` with line feeds gives back the text |
| `Text.SplitJoin` | utils/pdfProcessor.js:112 | splitting a join of line-feed-free pieces gives back those pieces |
| `Clean.CollapseSpaces` | utils/pdfProcessor.js:80 | `replace(/\s+/g, ' ')` keeps every non-whitespace character, and so every visible (printable, non-space) character, in order; each whitespace run becomes one plain space, so no whitespace follows whitespace; the result starts with whitespace exactly when the input does |
| `Clean.CollapseLastChar` | utils/pdfProcessor.js:80 | the result ends with whitespace exactly when the input does |
| `Clean.CollapseJoin` | utils/pdfProcessor.js:80 | a run of whitespace between two pieces that do not touch it with more whitespace becomes exactly one space, and each piece collapses on its own |
| `Clean.MaskNonPrintable` | utils/pdfProcessor.js:81 | `replace(/[^\x20-\x7E]/g, ' ')` keeps the length and every printable character, and every output character is printable |
| `Clean.CleanText` | utils/pdfProcessor.js:78-83 | the output holds only 0x20-0x7E, has no space at either end, and has the same visible characters in the same order as the input; it is empty exactly when the input has no visible character |
| `Clean.TrimPrintable` | utils/pdfProcessor.js:82 | trimming a printable string keeps it printable, with visible ends and the same visible characters |
| `Clean.TrimCollapseJoin` | utils/pdfProcessor.js:80-82 | collapsing and then trimming two pieces with visible characters joined by a whitespace run gives the two pieces, each collapsed and trimmed, joined by one space |
| `Clean.CleanJoin` | utils/pdfProcessor.js:78-83 | for input with no control characters other than whitespace, `cleanText` of two pieces with visible characters joined by a whitespace run is the two cleaned pieces joined by one space |
| `Clean.CleanTextSingleSpaced` | utils/pdfProcessor.js:78-83 | when the input holds nothing but whitespace and printable characters, the output has no two spaces in a row |
| `Clean.CleanTextFixed` | utils/pdfProcessor.js:78-83 | a printable, single-spaced string with no space at either end is left unchanged |
| `Clean.CleanTextIdempotent` | utils/pdfProcessor.js:78-83 | cleaning twice gives the same as cleaning once when the input holds nothing but whitespace and printable characters |
| `Clean.CleanTextNotIdempotent` | utils/pdfProcessor.js:80-81 | without that condition, cleaning is not idempotent: a control character is masked after the whitespace collapse, so "a\x01 b" cleans to "a  b", which cleans to "a b" |
| `Clean.PageLineShape` | utils/pdfProcessor.js:114 | the scanner for `/^\s*page\s+\d+\s*$/i` (`Clean.IsPageLine`) accepts exactly the lines made of whitespace, "page" in any case, at least one whitespace character, at least one digit, then whitespace |
| `Categories.LabelIsLabel` | utils/pdfProcessor.js:46 | the label of every category is one of "medication", "bowelprep", "diet", "procedure" |
| `Categories.FirstHit` | utils/pdfProcessor.js:44-49 | the walk over the table returns a category of the table whose test succeeds, or procedure when no test succeeds |
| `Categories.FirstHitAt` | utils/pdfProcessor.js:44-48 | the walk returns the first category whose test succeeds |
| `Categories.FirstHitNone` | utils/pdfProcessor.js:44-49 | when no category's test succeeds, the walk returns the default, procedure |
| `Categories.Priority` | utils/pdfProcessor.js:10-15 | the table order is MEDICATION, BOWELPREP, DIET, PROCEDURE: each category is chosen exactly when its test succeeds and no earlier test does |
| `Categories.CategoryOf` | utils/pdfProcessor.js:40-54 | the chosen category has a keyword that is a substring of the lower-cased line, unless no category has one, and then it is procedure |
| `Categories.CategoryOfPriority` | utils/pdfProcessor.js:40-54 | the classification is medication exactly when a medication keyword is a substring of the lower-cased line; bowelprep exactly when a product keyword is one and no medication keyword is; and so on down to procedure |
| `Categories.MedicationBeforeDiet` | utils/pdfProcessor.js:10-15 | a line holding both a medication keyword and a diet keyword is classified as medication |
| `Categories.DetermineCategory` | utils/pdfProcessor.js:40-54 | the loop with early return produces one of the four labels, namely the label of the priority classification |
| `Categories.LegacyCategoryOf` | index.js:29-38 | the chosen category has a keyword among the tokens of the lower-cased line, unless no category has one, and then it is procedure |
| `Categories.LegacyCategoryOfPriority` | index.js:22-38 | the same priority walk over the shorter table, where a keyword hits when it equals one of the tokens of the lower-cased line |
| `Categories.LegacyDetermineCategory` | index.js:29-38 | the token-based loop produces one of the four labels, namely the label of the token classification |
| `Offset.DaysThen` | utils/pdfProcessor.js:19-21 | `(\d+)\s*days?\s*(?:...)` anchored at a position matches only at a digit; it captures the whole digit run there, as an unsigned number; "day" follows it after whitespace, and one of the closing words follows after the optional "s" and more whitespace |
| `Offset.DaysWritten` | utils/pdfProcessor.js:19-21 | a digit run that ends there, whitespace, "day" in any case, an optional "s", whitespace and a closing word capture the number those digits spell |
| `Offset.DaysAfterNoMatch` | utils/pdfProcessor.js:19 | "3 days after" does not match the "before"/"prior" pattern: the closing word is required |
| `Offset.DayThenNumber` | utils/pdfProcessor.js:20 | `day\s*(-?\d+)` anchored at a position matches only where "day" is written, in any case, and a digit follows the whitespace and the optional minus sign; the capture is the digit run there, negated after a minus sign |
| `Offset.DayNumberWritten` | utils/pdfProcessor.js:20 | "day", whitespace, an optional minus sign and a digit run that ends there capture the number those digits spell, negated after the minus sign |
| `Offset.SearchNone` | utils/pdfProcessor.js:25 | `text.match(pattern)` fails exactly when the pattern matches at no position |
| `Offset.SearchLeftmost` | utils/pdfProcessor.js:25 | a successful match reports the capture of the leftmost position where the pattern matches |
| `Offset.FirstMatchPatterns` | utils/pdfProcessor.js:24-30 | the three patterns are tried in list order, each over the whole line, so an earlier pattern wins even when a later one matches further left |
| `Offset.SignRule` | utils/pdfProcessor.js:28 | `days > 0 ? -days : days` is never positive and is either `days` or `-days`, that is, minus the absolute value |
| `Offset.OffsetOf` | utils/pdfProcessor.js:17-38 | `extractOffset` never returns a positive value |
| `Offset.ExtractOffset` | utils/pdfProcessor.js:17-38 | the loop over the patterns with early return computes that offset, which is never positive |
| `Offset.OffsetByPattern` | utils/pdfProcessor.js:24-29 | a "N days before/prior" match gives -N; otherwise a "day N" match gives N when N is negative and -N otherwise; otherwise a "N days ahead" match gives -N |
| `Offset.OffsetWithoutNumber` | utils/pdfProcessor.js:32-37 | with no pattern matching, the offset is 0 when the lower-cased line contains "day of procedure" or "day of colonoscopy", and -1 otherwise |
| `Offset.CapturesNonNegative` | utils/pdfProcessor.js:19-21 | the "days before" and "days ahead" patterns capture unsigned numbers |
| `Offset.NoDigitNoMatch` | utils/pdfProcessor.js:19-21 | none of the three patterns matches a line without a digit |
| `Offset.OffsetExamples` | utils/pdfProcessor.js:17-38 | "3 days before" gives -3, "day -2" gives -2, "day 3" gives -3, "day 0" gives 0 |
| `Time.MatchTimeAt` | utils/pdfProcessor.js:58 | the anchored time expression reads at most two hour digits and two minute digits |
| `Time.MatchTime` | utils/pdfProcessor.js:58-59 | the time expression matches exactly when the line holds a digit |
| `Time.Hour24` | utils/pdfProcessor.js:66-67 | without am/pm the hour is kept; with pm it is at least 12; with am and an hour up to 12 it is below 12 |
| `Time.Hour24Dial` | utils/pdfProcessor.js:66-67 | the period rule moves the hour by a multiple of 12 only |
| `Time.TimeOf` | utils/pdfProcessor.js:56-76 | `extractTimeFromText` is null exactly when the line has no digit, and otherwise lies in [0, 113) |
| `Time.PeriodRuleIsClock` | utils/pdfProcessor.js:62-69 | with am/pm and an hour from 1 to 12, the result is the 24-hour clock reading: 12am is 0, 12pm is 12; it is below 24, and at least 12 exactly when the period is pm |
| `Time.HourAt` | utils/pdfProcessor.js:58 | an hour of one or two digits, with or without a leading zero, and optional ":mm", written at a position and not extended by a further digit or by minutes, is matched there as that hour and those minutes (0 when absent), with the period found after its whitespace |
| `Time.MatchHour` | utils/pdfProcessor.js:58-59 | in a line with no digit before that position, `match` takes the time written there |
| `Time.HourRead` | utils/pdfProcessor.js:56-69 | the time of such a line is the hour and minutes written there, after the period rule |
| `Time.ClockTextRoundTrip` | utils/pdfProcessor.js:56-76 | an hour from 1 to 12, with or without a leading zero, optional ":mm", optional whitespace and am or pm, written after digit-free text, is read back as its 24-hour clock value, whatever follows |
| `Time.BareHourRoundTrip` | utils/pdfProcessor.js:56-69 | an hour below 100 (below 10 with or without a leading zero) with optional ":mm" and no am or pm after it, written after digit-free text, is read back as hours plus minutes/60, with no change to the hour |
| `Time.HalfPastSeven` | utils/pdfProcessor.js:56-76 | "7:30am" gives 7.5 |
| `Time.PaddedHalfPastSeven` | utils/pdfProcessor.js:56-76 | "07:30am" gives 7.5: the leading zero is one of the two hour digits |
| `Time.PaddedNinePm` | utils/pdfProcessor.js:56-76 | "09pm" gives 21 |
| `Time.Noon` | utils/pdfProcessor.js:56-76 | "12:00pm" gives 12 |
| `Time.TwoPm` | utils/pdfProcessor.js:66 | "2pm" gives 14 |
| `Time.TwelvePm` | utils/pdfProcessor.js:66 | "12pm" gives 12: pm does not move 12 |
| `Time.NoonInSentence` | utils/pdfProcessor.js:58-69 | "at 12 pm, then fast" gives 12: the digits may follow text and the period may follow a space |
| `Time.SpacedPeriod` | utils/pdfProcessor.js:58-69 | "7 PM" gives 19: whitespace may come before the period, and the period's case does not matter |
| `Time.FirstNumberWins` | utils/pdfProcessor.js:58-69 | "Take first dose 2 days before procedure at 6pm" gives 2: the first digit run of the line is read as the hour, and an hour without am or pm is kept as it is |
| `Time.LegacyTime` | index.js:80 | the time followed by `or null` is none exactly when the line has no digit or its time is 0, and otherwise equals the time of utils/pdfProcessor.js |
| `Time.MidnightDropped` | index.js:80 | "12am" gives 0, which index.js then stores as none |
| `Prep.FirstNameAt` | utils/pdfProcessor.js:132 | the alternation reports the first alternative that stands as a whole word at the position, and no earlier alternative does; it reports nothing exactly when none does |
| `Prep.ProductAtIff` | utils/pdfProcessor.js:132 | the alternation reports a product at a position exactly when that product stands there as a whole word |
| `Prep.ProductSearchSound` | utils/pdfProcessor.js:132 | the product expression matches exactly when some product stands as a whole word somewhere in the line, in any case, and it reports a product that does |
| `Prep.ProductSearchLeftmost` | utils/pdfProcessor.js:132 | the match reports the product standing leftmost: no product stands as a whole word at any earlier position |
| `Prep.NoPrefix` | utils/pdfProcessor.js:132 | no product name is a prefix of another, so at most one alternative can match at a given position |
| `Prep.ProductAlone` | utils/pdfProcessor.js:132 | a product name standing alone on a line is found |
| `Prep.PrepUpdate` | utils/pdfProcessor.js:131-135 | an update happens only on a line whose lower-cased text contains "prep", and it is one of the six products |
| `Prep.PrepUpdateSound` | utils/pdfProcessor.js:131-135 | a line updates `currentPrep` exactly when its lower-cased text contains "prep" and it names a product as a whole word, and the new value is the product standing leftmost |
| `Prep.LeftmostProductWins` | utils/pdfProcessor.js:132-134 | "Moviprep replaces Plenvu prep" updates the product to "moviprep", the one written first |
| `Prep.PlenvuAloneIgnored` | utils/pdfProcessor.js:131 | a line naming only "Plenvu" does not contain "prep", so it leaves `currentPrep` unchanged |
| `Prep.CarriedPrepLast` | utils/pdfProcessor.js:130-136 | the carried product is "" exactly when none of the lines so far updated it, and otherwise it comes from the latest line that did |
| `PdfProcessor.FilterConcat` | utils/pdfProcessor.js:112-114 | filtering distributes over concatenation, so the kept lines stay in their order |
| `PdfProcessor.FilterFrom` | utils/pdfProcessor.js:114 | every kept line comes from the input and passes the test, and no more lines come out than go in |
| `PdfProcessor.Cleaned` | utils/pdfProcessor.js:113 | `map(cleanText)` keeps the number of lines and cleans each one |
| `PdfProcessor.RetainedLines` | utils/pdfProcessor.js:112-114 | every retained line is the cleaned form of a line of the text, is not empty and is not a "page N" footer, and there are no more retained lines than lines |
| `PdfProcessor.RetainedLinesClean` | utils/pdfProcessor.js:112-114 | every retained line is non-empty, not a "page N" footer, printable, and has no space at either end |
| `PdfProcessor.TrimCleanLine` | utils/pdfProcessor.js:142 | `line.trim()` leaves a retained line unchanged |
| `PdfProcessor.FlagsStep` | utils/pdfProcessor.js:120-128 | one more line raises a flag exactly when that line triggers it |
| `PdfProcessor.DocumentFlags` | utils/pdfProcessor.js:116-128 | after the first loop, `isSplit` is true exactly when some line contains "split", and `isProcedureMorning` exactly when some line contains both "morning" and "procedure" |
| `PdfProcessor.CarryPrep` | utils/pdfProcessor.js:131-136 | the update at the head of the second loop replaces `currentPrep` with the line's product, if it has one |
| `PdfProcessor.RecordAt` | utils/pdfProcessor.js:138-147 | the record of line k is numbered k + 1, carries the line as its message and a non-empty product, has one of the four labels, an offset that is never positive, the time `extractTimeFromText` reads from the line (absent exactly when the line has no digit), and the two document flags |
| `PdfProcessor.LineInstruction` | utils/pdfProcessor.js:138-147 | the object built for line i holds exactly `RecordAt` for line i |
| `PdfProcessor.BuildRecords` | utils/pdfProcessor.js:130-149 | the second loop pushes exactly the record of each line, in order |
| `PdfProcessor.Records` | utils/pdfProcessor.js:130-149 | there are as many records as retained lines |
| `PdfProcessor.RecordsAt` | utils/pdfProcessor.js:130-149 | record k is `RecordAt` of retained line k with the two document flags |
| `PdfProcessor.ProcessPdf` | utils/pdfProcessor.js:108-150 | `processPDF` produces exactly `Records` of the extracted text: the `RecordAt` of each retained line, in order |
| `PdfProcessor.RecordsPerLine` | utils/pdfProcessor.js:130-149 | there is one record per retained line, in line order; `order` runs 1..N with no gaps; `message` is the line |
| `PdfProcessor.RecordsDocumentFlags` | utils/pdfProcessor.js:116-146 | `split` and `procedure_time` are the same on every record, including those before the triggering line: `split` iff some line contains "split"; "morning" iff some line contains both "morning" and "procedure"; "afternoon" otherwise |
| `PdfProcessor.PrepOrDefaultLast` | utils/pdfProcessor.js:130-139 | `currentPrep \|\| 'plenvu'` after line k is "plenvu" when no line so far set a product, and otherwise the product of the latest line that did |
| `PdfProcessor.RecordsPrep` | utils/pdfProcessor.js:131-139 | `bowelprep` is the product of the latest line, at or before this one, that contains "prep" and names a product as a whole word, or "plenvu" when there is none |
| `PdfProcessor.RecordsFields` | utils/pdfProcessor.js:140-145 | each record's category is one of the four labels; its offset is that of `extractOffset` and is never positive; its time is that of `extractTimeFromText`, absent exactly when the line has no digit |
| `LegacyIndex.NonBlankLines` | index.js:67 | the kept lines are lines of the text that are not all whitespace, and there are no more of them than lines |
| `LegacyIndex.LegacyCarryPrep` | index.js:70-72 | the optional match followed by `or currentPrep` replaces `currentPrep` with the line's product, if it has one, because a match is never empty |
| `LegacyIndex.LegacyRecordAt` | index.js:74-83 | the record of line k is numbered k + 1, carries the trimmed line, the offset -1, one of the four labels, a time that is never 0, and the split and morning tests of this line alone |
| `LegacyIndex.LegacyLineInstruction` | index.js:74-83 | the object built for line i holds exactly `LegacyRecordAt` for line i |
| `LegacyIndex.LegacyRecords` | index.js:67-86 | there are as many records as non-blank lines |
| `LegacyIndex.LegacyRecordsAt` | index.js:67-86 | record k is `LegacyRecordAt` of non-blank line k |
| `LegacyIndex.LegacyProcessPdf` | index.js:62-86 | `processPDF` of index.js produces exactly `LegacyRecords` of the text and the tokenizer: the `LegacyRecordAt` of each non-blank line, in order |
| `LegacyIndex.LegacyRecordsPerLine` | index.js:67-79 | there is one record per line holding a non-whitespace character, in line order; `order` runs 1..N; `message` is the trimmed line and is never empty; `offset` is always -1 |
| `LegacyIndex.LegacyRecordsLineFlags` | index.js:81-82 | `split` is true exactly when this line contains "split"; `procedure_time` is "morning" exactly when this line contains "morning", with no "procedure" required |
| `LegacyIndex.CarriedPrepNamed` | index.js:63-75 | `currentPrep` after line k is "" exactly when no line so far set a product, and otherwise one of the six products, from the latest line that set one |
| `LegacyIndex.LegacyRecordsPrep` | index.js:63-75 | `bowelprep` is "" until the first line that contains "prep" and names a product, and afterwards it is the product of the latest such line |
| `LegacyIndex.LegacyRecordsFields` | index.js:77-80 | each record's category is one of the four labels, from the token classification; its time is absent exactly when the line has no digit or its time is 0, and otherwise equals the time of utils/pdfProcessor.js |

## Left out

- PDF decoding (`pdf-parse`, `render_page`), reading the file, and writing
  the CSV: the model starts from the extracted text and ends with the record
  sequence.
- `server.js`, the `debug` logger, `console` output, `process.argv` and
  `process.exit` are not part of this model.
- `async`/`await` and the `try`/`catch` branches: the functions are total
  on strings, so the catch branches are unreachable.
- The `success` object returned after writing is not modelled.
- `natural.WordTokenizer` is a foreign library. In index.js it is the
  parameter `tokenize`, applied to the lower-cased line. In
  utils/pdfProcessor.js its result is never used, so it is left out.
- Strings are sequences of characters, not of UTF-16 code units. A
  character outside the Basic Multilingual Plane counts as one character,
  not two.
- Categories.CategoryOf: lower-cases ASCII letters only. Unicode
  `toLowerCase` also maps two non-ASCII characters onto ASCII: the Kelvin
  sign becomes "k", and U+0130 becomes "i" plus a combining dot.
  - No keyword or phrase can match through the dotted capital I.
  - A Kelvin sign can stand for the "k" of "prepkit", and the model does
    not see that.
  - The same restriction applies to `Lower` in `Prep.PrepUpdate`, in the
    flag tests and in the string index.js hands to its tokenizer.
- Time.TimeOf: the time is an exact rational number, `hours + minutes/60`,
  not a floating-point value. `parseInt` of at most two digits is exact.
- Offset.OffsetOf: the capture is an exact integer. `parseInt` returns a
  double, so a digit run above 2^53 is rounded, and one of about 309 digits
  or more becomes Infinity. The model does not reproduce either.
