/** `processPDF` of index.js, the older variant of the pipeline: no cleaning,
    a token-based classifier, a fixed offset, and flags decided line by
    line. The word tokenizer is a parameter. */
module LegacyIndex {
  import opened Text
  import opened Categories
  import opened Time
  import opened Prep
  import opened PdfProcessor

  /** The filter condition `line => line.trim()`: some character of the line
      is not whitespace. */
  predicate NonBlank(l: string) {
    Trim(l) != []
  }

  /** `pdf.text.split('\n').filter(line => line.trim())`: the lines of the
      text that are not all whitespace, in order. */
  function NonBlankLines(text: string): (r: seq<string>)
    ensures |r| <= |Split(text)|
    ensures forall k :: 0 <= k < |r| ==> r[k] in Split(text) && !AllSpace(r[k])
  {
    FilterFrom(Split(text), NonBlank);
    Filter(Split(text), NonBlank)
  }

  /** `line.toLowerCase().includes('morning') ? 'morning' : 'afternoon'`. */
  function LegacyProcedureTime(l: string): string {
    if Contains(Lower(l), "morning") then "morning" else "afternoon"
  }

  /** The record of line `k`: the product carried so far with no default,
      the token category, the trimmed line, the fixed offset -1, the time
      with 0 turned into none, and the two flags of this line alone. */
  function LegacyRecordAt(lines: seq<string>, tokenize: string -> seq<string>, k: nat): (r: Instruction)
    requires k < |lines|
    ensures r.order == k + 1 && r.message == Trim(lines[k]) && r.offset == -1
    ensures IsLabel(r.category) && (r.time.Some? ==> r.time == TimeOf(lines[k]) && r.time.value != 0.0)
    ensures (r.split <==> Contains(Lower(lines[k]), "split"))
    ensures (r.procedureTime == "morning" <==> Contains(Lower(lines[k]), "morning"))
  {
    LabelIsLabel(LegacyCategoryOf(lines[k], tokenize));
    Instruction(
      CarriedPrep(lines, k + 1),
      k + 1,
      Label(LegacyCategoryOf(lines[k], tokenize)),
      Trim(lines[k]),
      -1,
      LegacyTime(lines[k]),
      SplitLine(lines[k]),
      LegacyProcedureTime(lines[k]))
  }

  /** `LegacyRecordAt` as a function of the line index. */
  function LegacyRecordFn(lines: seq<string>, tokenize: string -> seq<string>): nat -> Instruction {
    (k: nat) => if k < |lines| then LegacyRecordAt(lines, tokenize, k) else Empty
  }

  /** The records index.js writes, as a function of the extracted text and
      of the tokenizer. */
  function LegacyRecords(text: string, tokenize: string -> seq<string>): (r: seq<Instruction>)
    ensures |r| == |NonBlankLines(text)|
  {
    var lines := NonBlankLines(text);
    Tabulate(|lines|, LegacyRecordFn(lines, tokenize))
  }

  /** `processPDF` of index.js on the extracted text. */
  method LegacyProcessPdf(text: string, tokenize: string -> seq<string>) returns (instructions: seq<Instruction>)
    ensures instructions == LegacyRecords(text, tokenize)
  {
    var lines := NonBlankLines(text);
    ghost var record := LegacyRecordFn(lines, tokenize);
    instructions := [];
    var currentPrep := "";
    var order := 1;
    for i := 0 to |lines|
      invariant order == i + 1
      invariant currentPrep == CarriedPrep(lines, i)
      invariant instructions == Tabulate(i, record)
    {
      currentPrep := LegacyCarryPrep(lines[i], currentPrep);
      var instruction := LegacyLineInstruction(lines, tokenize, i, currentPrep, order);
      TabulateStep(i, record, instructions, instruction);
      order := order + 1;
      instructions := instructions + [instruction];
    }
  }

  /** `currentPrep = line.match(...)?.[0].toLowerCase() || currentPrep` when
      the lower-cased line contains "prep": a match is never empty, so the
      old value is kept exactly when there is no match. */
  method LegacyCarryPrep(line: string, currentPrep: string) returns (next: string)
    ensures next == match PrepUpdate(line)
      case Some(n) => n
      case None => currentPrep
  {
    next := currentPrep;
    if Contains(Lower(line), "prep") {
      var matched := ProductMatch(line);
      ProductSearchSound(line, 0);
      var name := if matched.Some? then matched.value else "";
      next := if name != "" then name else currentPrep;
    }
  }

  /** The `instruction` object pushed for line `i`, numbered `order`. */
  method LegacyLineInstruction(lines: seq<string>, tokenize: string -> seq<string>, i: nat, currentPrep: string, order: nat)
    returns (instruction: Instruction)
    requires i < |lines|
    requires currentPrep == CarriedPrep(lines, i + 1) && order == i + 1
    ensures instruction == LegacyRecordFn(lines, tokenize)(i)
  {
    var line := lines[i];
    var category := LegacyDetermineCategory(line, tokenize);
    var time := TimeOf(line);
    instruction := Instruction(
      currentPrep,
      order,
      category,
      Trim(line),
      -1,
      if time.Some? && time.value != 0.0 then time else None,
      Contains(Lower(line), "split"),
      if Contains(Lower(line), "morning") then "morning" else "afternoon");
    assert instruction == LegacyRecordAt(lines, tokenize, i);
  }

  /** The record of line `k` of the text. */
  lemma LegacyRecordsAt(text: string, tokenize: string -> seq<string>, k: nat)
    requires k < |LegacyRecords(text, tokenize)|
    ensures var lines := NonBlankLines(text);
      k < |lines| && LegacyRecords(text, tokenize)[k] == LegacyRecordAt(lines, tokenize, k)
  {
    var lines := NonBlankLines(text);
    TabulateAt(|lines|, LegacyRecordFn(lines, tokenize), k);
  }

  /** One record per line holding a non-whitespace character, numbered 1,
      2, ... in line order, whose message is that line trimmed, and so is
      never empty; the offset is -1 on every record. */
  lemma LegacyRecordsPerLine(text: string, tokenize: string -> seq<string>)
    ensures |LegacyRecords(text, tokenize)| == |NonBlankLines(text)|
    ensures forall k :: 0 <= k < |LegacyRecords(text, tokenize)| ==>
      var r := LegacyRecords(text, tokenize)[k];
      && r.order == k + 1
      && r.message == Trim(NonBlankLines(text)[k])
      && r.message != []
      && r.offset == -1
  {
    var lines := NonBlankLines(text);
    forall k | 0 <= k < |lines|
      ensures var r := LegacyRecords(text, tokenize)[k];
        r.order == k + 1 && r.message == Trim(lines[k]) && r.message != [] && r.offset == -1
    {
      LegacyRecordsAt(text, tokenize, k);
    }
  }

  /** `split` and `procedure_time` depend on the record's own line only:
      `split` holds exactly when that line contains "split", and
      `procedure_time` is "morning" exactly when it contains "morning", with
      no "procedure" required. */
  lemma LegacyRecordsLineFlags(text: string, tokenize: string -> seq<string>, k: nat)
    requires k < |LegacyRecords(text, tokenize)|
    ensures var l, r := NonBlankLines(text)[k], LegacyRecords(text, tokenize)[k];
      && (r.split <==> Contains(Lower(l), "split"))
      && (r.procedureTime == "morning" <==> Contains(Lower(l), "morning"))
      && (r.procedureTime == "morning" || r.procedureTime == "afternoon")
  {
    LegacyRecordsAt(text, tokenize, k);
  }

  /** `bowelprep` is empty until the first line that mentions "prep" and
      names a product as a whole word, and afterwards it is the product of
      the latest such line up to and including this one. */
  lemma LegacyRecordsPrep(text: string, tokenize: string -> seq<string>, k: nat)
    requires k < |LegacyRecords(text, tokenize)|
    ensures var lines := NonBlankLines(text);
      var p := LegacyRecords(text, tokenize)[k].bowelprep;
      && (p == "" <==> forall j :: 0 <= j <= k ==> PrepUpdate(lines[j]).None?)
      && (p != "" ==> p in Products && exists j :: (0 <= j <= k && PrepUpdate(lines[j]) == Some(p)
          && forall j' :: j < j' <= k ==> PrepUpdate(lines[j']).None?))
  {
    var lines := NonBlankLines(text);
    LegacyRecordsAt(text, tokenize, k);
    assert LegacyRecords(text, tokenize)[k].bowelprep == CarriedPrep(lines, k + 1);
    CarriedPrepNamed(lines, k);
  }

  /** The same for `currentPrep` after line `k`, with no default. */
  lemma CarriedPrepNamed(lines: seq<string>, k: nat)
    requires k < |lines|
    ensures var p := CarriedPrep(lines, k + 1);
      && (p == "" <==> forall j :: 0 <= j <= k ==> PrepUpdate(lines[j]).None?)
      && (p != "" ==> p in Products && exists j :: (0 <= j <= k && PrepUpdate(lines[j]) == Some(p)
          && forall j' :: j < j' <= k ==> PrepUpdate(lines[j']).None?))
  {
    CarriedPrepLast(lines, k + 1);
    var p := CarriedPrep(lines, k + 1);
    if p != "" {
      var j :| 0 <= j < k + 1 && PrepUpdate(lines[j]) == Some(p)
        && forall j' :: j < j' < k + 1 ==> PrepUpdate(lines[j']).None?;
      PrepUpdateSound(lines[j]);
    }
  }

  /** The category is one of the four labels, chosen on the tokens of the
      lower-cased line; the time is that of utils/pdfProcessor.js, except
      that midnight, 0, is stored as none. */
  lemma LegacyRecordsFields(text: string, tokenize: string -> seq<string>, k: nat)
    requires k < |LegacyRecords(text, tokenize)|
    ensures var l, r := NonBlankLines(text)[k], LegacyRecords(text, tokenize)[k];
      && IsLabel(r.category) && r.category == Label(LegacyCategoryOf(l, tokenize))
      && (r.time.None? <==> NoDigit(l) || TimeOf(l) == Some(0.0))
      && (r.time.Some? ==> r.time == TimeOf(l))
  {
    LegacyRecordsAt(text, tokenize, k);
    LabelIsLabel(LegacyCategoryOf(NonBlankLines(text)[k], tokenize));
  }
}
