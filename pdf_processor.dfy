/** `processPDF` of utils/pdfProcessor.js, from the text extracted from the
    PDF to the sequence of instruction records handed to the CSV writer. */
module PdfProcessor {
  import opened Text
  import opened Clean
  import opened Categories
  import opened Offset
  import opened Time
  import opened Prep

  /** One row of the output: the fields of an `instruction` object. */
  datatype Instruction = Instruction(
    bowelprep: string,
    order: nat,
    category: string,
    message: string,
    offset: int,
    time: Option<real>,
    split: bool,
    procedureTime: string)

  /** The filter condition: non-empty after cleaning and not a "page N"
      footer. */
  predicate Retained(l: string) {
    |l| > 0 && !IsPageLine(l)
  }

  /** `ls.filter(keep)`. */
  function Filter(ls: seq<string>, keep: string -> bool): seq<string> {
    if ls == [] then []
    else Filter(ls[..|ls| - 1], keep) + (if keep(ls[|ls| - 1]) then [ls[|ls| - 1]] else [])
  }

  /** Filtering distributes over concatenation, so it keeps the lines in
      their order. */
  lemma {:induction false} FilterConcat(a: seq<string>, b: seq<string>, keep: string -> bool)
    ensures Filter(a + b, keep) == Filter(a, keep) + Filter(b, keep)
    decreases |b|
  {
    if b == [] {
      assert a + b == a;
    } else {
      var n := |b| - 1;
      assert (a + b)[..|a + b| - 1] == a + b[..n];
      FilterConcat(a, b[..n], keep);
    }
  }

  /** A single line survives exactly when it passes the test. */
  lemma FilterOne(l: string, keep: string -> bool)
    ensures Filter([l], keep) == if keep(l) then [l] else []
  {
    assert [l][..0] == [];
  }

  /** Every line that survives passes the test and comes from the input. */
  lemma {:induction false} FilterFrom(ls: seq<string>, keep: string -> bool)
    ensures |Filter(ls, keep)| <= |ls|
    ensures forall k :: 0 <= k < |Filter(ls, keep)| ==> Filter(ls, keep)[k] in ls && keep(Filter(ls, keep)[k])
  {
    if ls != [] {
      var n := |ls| - 1;
      FilterFrom(ls[..n], keep);
      var r := Filter(ls, keep);
      forall k | 0 <= k < |r| ensures r[k] in ls && keep(r[k]) {
        if k < |Filter(ls[..n], keep)| {
          assert r[k] in ls[..n];
        } else {
          assert r[k] == ls[n];
        }
      }
    }
  }

  /** `raw.map(cleanText)`. */
  function Cleaned(raw: seq<string>): (r: seq<string>)
    ensures |r| == |raw| && forall j :: 0 <= j < |raw| ==> r[j] == CleanText(raw[j])
  {
    seq(|raw|, j requires 0 <= j < |raw| => CleanText(raw[j]))
  }

  /** `pdf.text.split('\n').map(cleanText).filter(...)`. */
  function RetainedLines(text: string): (r: seq<string>)
    ensures |r| <= |Split(text)|
    ensures forall k :: 0 <= k < |r| ==>
      Retained(r[k]) && exists j :: 0 <= j < |Split(text)| && r[k] == CleanText(Split(text)[j])
  {
    var r := Filter(Cleaned(Split(text)), Retained);
    CleanedFiltered(Split(text), r);
    r
  }

  /** Every cleaned line that survives the filter passes it and is the
      cleaned form of one of the raw lines. */
  lemma CleanedFiltered(raw: seq<string>, r: seq<string>)
    requires r == Filter(Cleaned(raw), Retained)
    ensures |r| <= |raw|
    ensures forall k :: 0 <= k < |r| ==>
      Retained(r[k]) && exists j :: 0 <= j < |raw| && r[k] == CleanText(raw[j])
  {
    var c := Cleaned(raw);
    FilterAt(c, Retained, r);
    forall k | 0 <= k < |r|
      ensures exists j :: 0 <= j < |raw| && r[k] == CleanText(raw[j])
    {
      var j := FilterSource(c, Retained, r, k);
      assert c[j] == CleanText(raw[j]);
    }
  }

  /** `FilterFrom` for a named result: each survivor passes the test. */
  lemma FilterAt(ls: seq<string>, keep: string -> bool, r: seq<string>)
    requires r == Filter(ls, keep)
    ensures |r| <= |ls|
    ensures forall k :: 0 <= k < |r| ==> keep(r[k])
  {
    FilterFrom(ls, keep);
  }

  /** The position in the input that a survivor comes from. */
  lemma FilterSource(ls: seq<string>, keep: string -> bool, r: seq<string>, k: nat) returns (j: nat)
    requires r == Filter(ls, keep) && k < |r|
    ensures j < |ls| && r[k] == ls[j]
  {
    FilterFrom(ls, keep);
    j :| j < |ls| && ls[j] == r[k];
  }

  /** What the filtered lines look like: cleaned, so printable ASCII without
      a space at either end, not empty and not a page footer. */
  lemma RetainedLinesClean(text: string, k: nat)
    requires k < |RetainedLines(text)|
    ensures var l := RetainedLines(text)[k];
      && l != [] && !IsPageLine(l)
      && (forall i :: 0 <= i < |l| ==> IsPrintable(l[i]))
      && l[0] != ' ' && l[|l| - 1] != ' '
  {
    var l := RetainedLines(text)[k];
    var j :| 0 <= j < |Split(text)| && l == CleanText(Split(text)[j]);
  }

  /** `line.trim()` leaves a cleaned line as it is: its two end characters
      are printable and not spaces, so they are not whitespace. */
  lemma TrimCleanLine(l: string)
    requires CleanLine(l)
    ensures Trim(l) == l
  {
    if IsSpace(l[0]) {
      PrintableSpace(l[0]);
    }
    if IsSpace(l[|l| - 1]) {
      PrintableSpace(l[|l| - 1]);
    }
    TrimTrimmed(l);
  }

  /** `lowerLine.includes('morning') && lowerLine.includes('procedure')`. */
  predicate MorningLine(l: string) {
    Contains(Lower(l), "morning") && Contains(Lower(l), "procedure")
  }

  /** `lowerLine.includes('split')`. */
  predicate SplitLine(l: string) {
    Contains(Lower(l), "split")
  }

  /** The value `RecordFn` gives past the last line, which makes it total.
      No record holds it: `Tabulate(n, f)` applies `f` only below `n`. */
  const Empty := Instruction("", 0, "", "", 0, None, false, "")

  /** The record of line `k`, given the two document-wide flags. */
  function RecordAt(lines: seq<string>, k: nat, split: bool, morning: bool): (r: Instruction)
    requires k < |lines|
    ensures r.order == k + 1 && r.message == lines[k] && r.bowelprep != ""
    ensures IsLabel(r.category) && r.offset <= 0
    ensures r.time == TimeOf(lines[k]) && (r.time.None? <==> NoDigit(lines[k]))
    ensures r.split == split && (r.procedureTime == "morning" <==> morning)
    ensures r.procedureTime == "morning" || r.procedureTime == "afternoon"
  {
    LabelIsLabel(CategoryOf(lines[k]));
    Instruction(
      PrepOrDefault(lines, k + 1),
      k + 1,
      Label(CategoryOf(lines[k])),
      lines[k],
      OffsetOf(lines[k]),
      TimeOf(lines[k]),
      split,
      if morning then "morning" else "afternoon")
  }

  /** Some line of the document mentions "split". */
  predicate AnySplit(lines: seq<string>) {
    exists j :: 0 <= j < |lines| && SplitLine(lines[j])
  }

  /** Some line of the document mentions both "morning" and "procedure". */
  predicate AnyMorning(lines: seq<string>) {
    exists j :: 0 <= j < |lines| && MorningLine(lines[j])
  }

  /** `[f(0), ..., f(n - 1)]`, built one element at a time as `push` does. */
  function Tabulate<T>(n: nat, f: nat -> T): (r: seq<T>)
    ensures |r| == n
  {
    if n == 0 then [] else Tabulate(n - 1, f) + [f(n - 1)]
  }

  /** Element `k` of a tabulation is `f(k)`. */
  lemma {:induction false} TabulateAt<T>(n: nat, f: nat -> T, k: nat)
    requires k < n
    ensures Tabulate(n, f)[k] == f(k)
  {
    if k < n - 1 {
      TabulateAt(n - 1, f, k);
    }
  }

  /** Pushing `f(n)` onto the first `n` elements gives the first `n + 1`. */
  lemma TabulateStep<T>(n: nat, f: nat -> T, prefix: seq<T>, x: T)
    requires prefix == Tabulate(n, f) && x == f(n)
    ensures prefix + [x] == Tabulate(n + 1, f)
  {
  }

  /** `RecordAt` as a function of the line index. */
  function RecordFn(lines: seq<string>, split: bool, morning: bool): nat -> Instruction {
    (k: nat) => if k < |lines| then RecordAt(lines, k, split, morning) else Empty
  }

  /** The records `processPDF` writes, as a function of the extracted text. */
  function Records(text: string): (r: seq<Instruction>)
    ensures |r| == |RetainedLines(text)|
  {
    var lines := RetainedLines(text);
    var split, morning := AnySplit(lines), AnyMorning(lines);
    Tabulate(|lines|, RecordFn(lines, split, morning))
  }

  /** One more line raises a flag exactly when that line triggers it. */
  lemma FlagsStep(lines: seq<string>, i: nat)
    requires i < |lines|
    ensures AnySplit(lines[..i + 1]) == (AnySplit(lines[..i]) || SplitLine(lines[i]))
    ensures AnyMorning(lines[..i + 1]) == (AnyMorning(lines[..i]) || MorningLine(lines[i]))
  {
    var a, b := lines[..i], lines[..i + 1];
    assert forall j :: 0 <= j < i ==> b[j] == a[j];
    assert b[i] == lines[i];
  }

  /** The record of line `k` of the text. */
  lemma RecordsAt(text: string, k: nat)
    requires k < |Records(text)|
    ensures var lines := RetainedLines(text);
      k < |lines| && Records(text)[k] == RecordAt(lines, k, AnySplit(lines), AnyMorning(lines))
  {
    var lines := RetainedLines(text);
    var split, morning := AnySplit(lines), AnyMorning(lines);
    TabulateAt(|lines|, RecordFn(lines, split, morning), k);
  }

  /** A record whose fields hold what `RecordAt` computes for line `k`. */
  lemma RecordAtFields(lines: seq<string>, k: nat, split: bool, morning: bool, r: Instruction)
    requires k < |lines|
    requires r.bowelprep == PrepOrDefault(lines, k + 1) && r.order == k + 1
    requires r.category == Label(CategoryOf(lines[k])) && r.message == lines[k]
    requires r.offset == OffsetOf(lines[k]) && r.time == TimeOf(lines[k])
    requires r.split == split && r.procedureTime == if morning then "morning" else "afternoon"
    ensures r == RecordAt(lines, k, split, morning)
  {
  }

  /** The shape every retained line has: not empty, and printable and not a
      space at both ends. */
  predicate CleanLine(l: string) {
    l != [] && l[0] != ' ' && l[|l| - 1] != ' ' && IsPrintable(l[0]) && IsPrintable(l[|l| - 1])
  }

  /** `processPDF` on the extracted text: the cleaned and filtered lines, the
      first pass over them for the document-wide flags, then the pass that
      builds the records. */
  method ProcessPdf(text: string) returns (instructions: seq<Instruction>)
    ensures instructions == Records(text)
  {
    var lines := RetainedLines(text);
    forall k | 0 <= k < |lines| ensures CleanLine(lines[k]) {
      RetainedLinesClean(text, k);
    }
    var isSplit, isProcedureMorning := DocumentFlags(lines);
    instructions := BuildRecords(lines, isSplit, isProcedureMorning);
  }

  /** The first loop: raises `isProcedureMorning` and `isSplit` as soon as a
      line triggers them. */
  method DocumentFlags(lines: seq<string>) returns (isSplit: bool, isProcedureMorning: bool)
    ensures isSplit == AnySplit(lines) && isProcedureMorning == AnyMorning(lines)
  {
    isProcedureMorning := false;
    isSplit := false;
    for i := 0 to |lines|
      invariant isProcedureMorning == AnyMorning(lines[..i])
      invariant isSplit == AnySplit(lines[..i])
    {
      var lowerLine := Lower(lines[i]);
      if Contains(lowerLine, "morning") && Contains(lowerLine, "procedure") {
        isProcedureMorning := true;
      }
      if Contains(lowerLine, "split") {
        isSplit := true;
      }
      FlagsStep(lines, i);
    }
    assert lines[..|lines|] == lines;
  }

  /** The second loop: carries the current product, numbers the records
      and pushes one record per line. */
  method BuildRecords(lines: seq<string>, isSplit: bool, isProcedureMorning: bool) returns (instructions: seq<Instruction>)
    requires forall k :: 0 <= k < |lines| ==> CleanLine(lines[k])
    ensures instructions == Tabulate(|lines|, RecordFn(lines, isSplit, isProcedureMorning))
  {
    ghost var record := RecordFn(lines, isSplit, isProcedureMorning);
    instructions := [];
    var currentPrep := "";
    var order := 1;
    for i := 0 to |lines|
      invariant order == i + 1
      invariant currentPrep == CarriedPrep(lines, i)
      invariant instructions == Tabulate(i, record)
    {
      currentPrep := CarryPrep(lines[i], currentPrep);
      var instruction := LineInstruction(lines, i, currentPrep, order, isSplit, isProcedureMorning);
      TabulateStep(i, record, instructions, instruction);
      order := order + 1;
      instructions := instructions + [instruction];
    }
  }

  /** The `currentPrep` update at the head of the second loop. */
  method CarryPrep(line: string, currentPrep: string) returns (next: string)
    ensures next == match PrepUpdate(line)
      case Some(n) => n
      case None => currentPrep
  {
    next := currentPrep;
    if Contains(Lower(line), "prep") {
      var prepMatch := ProductMatch(line);
      if prepMatch.Some? {
        next := prepMatch.value;
      }
    }
  }

  /** The body of the second loop once `currentPrep` is up to date: the
      `instruction` object pushed for line `i`, numbered `order`. */
  method LineInstruction(lines: seq<string>, i: nat, currentPrep: string, order: nat, isSplit: bool, isProcedureMorning: bool)
    returns (instruction: Instruction)
    requires i < |lines| && CleanLine(lines[i])
    requires currentPrep == CarriedPrep(lines, i + 1) && order == i + 1
    ensures instruction == RecordFn(lines, isSplit, isProcedureMorning)(i)
  {
    var line := lines[i];
    var category := DetermineCategory(line);
    var offset := ExtractOffset(line);
    instruction := Instruction(
      if currentPrep == "" then "plenvu" else currentPrep,
      order,
      category,
      Trim(line),
      offset,
      TimeOf(line),
      isSplit,
      if isProcedureMorning then "morning" else "afternoon");
    TrimCleanLine(line);
    RecordAtFields(lines, i, isSplit, isProcedureMorning, instruction);
  }

  /** One record per retained line, numbered 1, 2, ... in line order, whose
      message is the line itself. */
  lemma RecordsPerLine(text: string)
    ensures |Records(text)| == |RetainedLines(text)|
    ensures forall k :: 0 <= k < |Records(text)| ==>
      Records(text)[k].order == k + 1 && Records(text)[k].message == RetainedLines(text)[k]
  {
    var lines := RetainedLines(text);
    forall k | 0 <= k < |lines|
      ensures Records(text)[k].order == k + 1 && Records(text)[k].message == lines[k]
    {
      RecordsAt(text, k);
    }
  }

  /** `split` and `procedure_time` are the same on every record, including
      those before the line that raises them: `split` holds exactly when some
      line contains "split", `procedure_time` is "morning" exactly when some
      line contains both "morning" and "procedure", in any case. */
  lemma RecordsDocumentFlags(text: string, k: nat)
    requires k < |Records(text)|
    ensures var lines := RetainedLines(text);
      && (Records(text)[k].split <==> exists j :: 0 <= j < |lines| && SplitLine(lines[j]))
      && (Records(text)[k].procedureTime == "morning" <==> exists j :: 0 <= j < |lines| && MorningLine(lines[j]))
      && (Records(text)[k].procedureTime == "morning" || Records(text)[k].procedureTime == "afternoon")
      && Records(text)[k].split == Records(text)[0].split
      && Records(text)[k].procedureTime == Records(text)[0].procedureTime
  {
    RecordsAt(text, k);
    RecordsAt(text, 0);
  }

  /** `bowelprep` is the product named by the latest line, up to and
      including this one, that mentions "prep" and names a product as a
      whole word; "plenvu" when there is none. */
  lemma RecordsPrep(text: string, k: nat)
    requires k < |Records(text)|
    ensures var lines := RetainedLines(text);
      var p := Records(text)[k].bowelprep;
      && ((forall j :: 0 <= j <= k ==> PrepUpdate(lines[j]).None?) ==> p == "plenvu")
      && ((exists j :: 0 <= j <= k && PrepUpdate(lines[j]).Some?) ==>
        exists j :: (0 <= j <= k && PrepUpdate(lines[j]) == Some(p)
          && forall j' :: j < j' <= k ==> PrepUpdate(lines[j']).None?))
  {
    var lines := RetainedLines(text);
    RecordsAt(text, k);
    assert Records(text)[k].bowelprep == PrepOrDefault(lines, k + 1);
    PrepOrDefaultLast(lines, k);
  }

  /** The same for `currentPrep || 'plenvu'` after line `k`. */
  lemma PrepOrDefaultLast(lines: seq<string>, k: nat)
    requires k < |lines|
    ensures var p := PrepOrDefault(lines, k + 1);
      && ((forall j :: 0 <= j <= k ==> PrepUpdate(lines[j]).None?) ==> p == "plenvu")
      && ((exists j :: 0 <= j <= k && PrepUpdate(lines[j]).Some?) ==>
        exists j :: (0 <= j <= k && PrepUpdate(lines[j]) == Some(p)
          && forall j' :: j < j' <= k ==> PrepUpdate(lines[j']).None?))
  {
    CarriedPrepLast(lines, k + 1);
  }

  /** `currentPrep || 'plenvu'` after the first `i` lines. */
  function PrepOrDefault(lines: seq<string>, i: nat): string
    requires i <= |lines|
  {
    var prep := CarriedPrep(lines, i);
    if prep == "" then "plenvu" else prep
  }

  /** The per-line fields: a category label, an offset that is never
      positive, and a time present exactly when the line holds a digit. */
  lemma RecordsFields(text: string, k: nat)
    requires k < |Records(text)|
    ensures var l := RetainedLines(text)[k];
      var r := Records(text)[k];
      && IsLabel(r.category) && r.category == Label(CategoryOf(l))
      && r.offset <= 0 && r.offset == OffsetOf(l)
      && r.time == TimeOf(l) && (r.time.None? <==> NoDigit(l))
  {
    RecordsAt(text, k);
    var lines := RetainedLines(text);
    LabelIsLabel(CategoryOf(lines[k]));
  }
}
