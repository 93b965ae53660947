/** `extractOffset` of utils/pdfProcessor.js: the day offset of an
    instruction relative to the day of the procedure. */
module Offset {
  import opened Text

  /** The entries of `dayPatterns`, all case-insensitive:
      `(\d+)\s*days?\s*(?:before|prior)`, `day\s*(-?\d+)` and
      `(\d+)\s*days?\s*ahead`. */
  datatype DayPattern = DaysBefore | DayNumber | DaysAhead

  /** `dayPatterns`, in the order they are tried. */
  const DayPatterns: seq<DayPattern> := [DaysBefore, DayNumber, DaysAhead]

  /** Where `days?` ends for a "day" written at `k`: after the `s` when
      one follows. */
  function DaysEnd(l: string, k: nat): (m: nat)
    requires StartsAtCI(l, k, "day")
    ensures k + 3 <= m <= |l|
  {
    if StartsAtCI(l, k + 3, "s") then k + 4 else k + 3
  }

  /** `(\d+)\s*days?\s*(?:w1|w2|...)` anchored at position `i`;
      the captured number. The digit run and the whitespace runs are taken
      whole: giving any of them back leaves a digit or a space where a letter
      is needed. Taking the `s` of "days" is the only choice that can
      succeed, since none of the closing words starts with `s`. */
  function DaysThen(l: string, i: nat, words: seq<string>): (r: Option<int>)
    ensures r.Some? ==> i < |l| && IsDigit(l[i]) && 0 <= r.value
    ensures r.Some? ==> r.value == ParseDigits(l[i..SpanDigits(l, i)])
    ensures r.Some? ==> var k := SpanSpaces(l, SpanDigits(l, i));
      && StartsAtCI(l, k, "day")
      && exists w :: w in words && StartsAtCI(l, SpanSpaces(l, DaysEnd(l, k)), w)
  {
    if i < |l| && IsDigit(l[i]) then
      var j := SpanDigits(l, i);
      var k := SpanSpaces(l, j);
      if StartsAtCI(l, k, "day") then
        var n := SpanSpaces(l, DaysEnd(l, k));
        if (exists w :: w in words && StartsAtCI(l, n, w)) then Some(ParseDigits(l[i..j])) else None
      else None
    else None
  }

  /** Closing words that start with a lower-case letter other than `s`, as
      "before", "prior" and "ahead" do. */
  predicate PlainWords(words: seq<string>) {
    forall w :: w in words ==> w != [] && 'a' <= w[0] <= 'z' && w[0] != 's'
  }

  /** Declaratively: digits on [i, e) that stop there, whitespace up to a
      "day" at `k` in any case, its `s` when `plural`, whitespace up to `n`
      and one of the closing words at `n` capture the number those digits
      spell. */
  lemma DaysWritten(l: string, i: nat, e: nat, k: nat, plural: bool, n: nat, w: string, words: seq<string>)
    requires PlainWords(words) && w in words
    requires i < e <= k && StartsAtCI(l, k, "day") && (plural ==> StartsAtCI(l, k + 3, "s"))
    requires (if plural then k + 4 else k + 3) <= n && StartsAtCI(l, n, w)
    requires forall q :: i <= q < e ==> IsDigit(l[q])
    requires e == |l| || !IsDigit(l[e])
    requires forall q :: e <= q < k ==> IsSpace(l[q])
    requires forall q :: (if plural then k + 4 else k + 3) <= q < n ==> IsSpace(l[q])
    ensures DaysThen(l, i, words) == Some(ParseDigits(l[i..e]))
  {
    SpanDigitsAt(l, i, e);
    assert LowerChar(l[k + 0]) == "day"[0] == 'd';
    SpanSpacesAt(l, e, k);
    assert LowerChar(l[n]) == w[0];
    if !plural {
      if n == k + 3 {
        assert LowerChar(l[k + 3]) == w[0];
      } else {
        assert IsSpace(l[k + 3]);
      }
      assert LowerChar(l[k + 3 + 0]) != "s"[0];
    }
    SpanSpacesAt(l, DaysEnd(l, k), n);
  }

  /** `day\s*(-?\d+)` anchored at position `i`; the captured number with its
      sign. The whitespace run is taken whole and the `-` whenever it is
      written: giving back a space, or leaving the `-` out of the capture,
      puts a space or a `-` where `\d` needs a digit, so no other way through
      the pattern matches. */
  function DayThenNumber(l: string, i: nat): (r: Option<int>)
    ensures r.Some? ==> StartsAtCI(l, i, "day")
    ensures r.Some? ==> var j := SpanSpaces(l, i + 3);
      var negative := j < |l| && l[j] == '-';
      var k := if negative then j + 1 else j;
      && k < |l| && IsDigit(l[k])
      && var v: int := ParseDigits(l[k..SpanDigits(l, k)]);
      r.value == if negative then -v else v
  {
    if StartsAtCI(l, i, "day") then
      var j := SpanSpaces(l, i + 3);
      var negative := j < |l| && l[j] == '-';
      var k := if negative then j + 1 else j;
      if k < |l| && IsDigit(l[k]) then
        var n: int := ParseDigits(l[k..SpanDigits(l, k)]);
        Some(if negative then -n else n)
      else None
    else None
  }

  /** Declaratively: "day" in any case at `i`, whitespace up to `j`, a `-`
      at `j` when `negative`, and digits from there up to `e`, where the
      digits stop, capture the number those digits spell, negated after a
      `-`. */
  lemma DayNumberWritten(l: string, i: nat, j: nat, negative: bool, e: nat)
    requires StartsAtCI(l, i, "day") && i + 3 <= j
    requires (if negative then j + 1 else j) < e <= |l|
    requires forall q :: i + 3 <= q < j ==> IsSpace(l[q])
    requires negative ==> l[j] == '-'
    requires forall q :: (if negative then j + 1 else j) <= q < e ==> IsDigit(l[q])
    requires e == |l| || !IsDigit(l[e])
    ensures var v: int := ParseDigits(l[if negative then j + 1 else j..e]);
      DayThenNumber(l, i) == Some(if negative then -v else v)
  {
    SpanSpacesAt(l, i + 3, j);
    SpanDigitsAt(l, if negative then j + 1 else j, e);
    DayThenNumberAt(l, i, j, negative, e);
  }

  /** `DayThenNumber` once the ends of its whitespace and digit runs are
      known. */
  lemma DayThenNumberAt(l: string, i: nat, j: nat, negative: bool, e: nat)
    requires StartsAtCI(l, i, "day") && SpanSpaces(l, i + 3) == j
    requires negative == (j < |l| && l[j] == '-')
    requires (if negative then j + 1 else j) < e <= |l|
    requires IsDigit(l[if negative then j + 1 else j])
    requires SpanDigits(l, if negative then j + 1 else j) == e
    ensures var v: int := ParseDigits(l[if negative then j + 1 else j..e]);
      DayThenNumber(l, i) == Some(if negative then -v else v)
  {
  }

  /** A pattern anchored at position `i`. */
  function MatchAt(p: DayPattern, l: string, i: nat): Option<int> {
    match p
    case DaysBefore => DaysThen(l, i, ["before", "prior"])
    case DayNumber => DayThenNumber(l, i)
    case DaysAhead => DaysThen(l, i, ["ahead"])
  }

  /** A pattern anchored at each position of `l`. */
  function Matcher(p: DayPattern, l: string): nat -> Option<int> {
    (k: nat) => MatchAt(p, l, k)
  }

  /** The leftmost match at or after `i`: tries each start position in turn,
      as `String.prototype.match` does. */
  function Search(p: DayPattern, l: string, i: nat): Option<int>
    requires i <= |l|
  {
    Scan(Matcher(p, l), i, |l|)
  }

  /** The search fails exactly when no start position matches. */
  lemma SearchNone(p: DayPattern, l: string, i: nat)
    requires i <= |l|
    ensures Search(p, l, i).None? <==> forall k :: i <= k <= |l| ==> MatchAt(p, l, k).None?
  {
    var at := Matcher(p, l);
    ScanNone(at, i, |l|);
    forall k | i <= k <= |l| ensures at(k) == MatchAt(p, l, k) { }
  }

  /** A successful search reports the capture at the leftmost matching
      position. */
  lemma SearchLeftmost(p: DayPattern, l: string, i: nat)
    requires i <= |l| && Search(p, l, i).Some?
    ensures exists k :: (i <= k <= |l| && MatchAt(p, l, k) == Search(p, l, i)
      && forall j :: i <= j < k ==> MatchAt(p, l, j).None?)
  {
    var at := Matcher(p, l);
    ScanLeftmost(at, i, |l|);
    var k :| i <= k <= |l| && at(k) == Scan(at, i, |l|) && forall j :: i <= j < k ==> at(j).None?;
    assert MatchAt(p, l, k) == Search(p, l, i);
    assert forall j :: i <= j < k ==> MatchAt(p, l, j).None? by {
      forall j | i <= j < k ensures MatchAt(p, l, j).None? {
        assert at(j).None?;
      }
    }
  }

  /** `text.match(pattern)`, reduced to the captured number. */
  function Match(p: DayPattern, text: string): Option<int> {
    Search(p, text, 0)
  }

  /** The capture of the first pattern of `ps` that matches anywhere. */
  function FirstMatch(ps: seq<DayPattern>, text: string): Option<int> {
    if ps == [] then None
    else if Match(ps[0], text).Some? then Match(ps[0], text)
    else FirstMatch(ps[1..], text)
  }

  /** Over `dayPatterns`: the first of the three searches that succeeds. */
  lemma FirstMatchPatterns(text: string)
    ensures FirstMatch(DayPatterns, text) ==
      if Match(DaysBefore, text).Some? then Match(DaysBefore, text)
      else if Match(DayNumber, text).Some? then Match(DayNumber, text)
      else Match(DaysAhead, text)
  {
    var ps := DayPatterns;
    assert ps[0] == DaysBefore && ps[1..] == [DayNumber, DaysAhead];
    assert ps[1..][0] == DayNumber && ps[1..][1..] == [DaysAhead];
    assert ps[1..][1..][0] == DaysAhead && ps[1..][1..][1..] == [];
    var m3 := Match(DaysAhead, text);
    assert FirstMatch(ps[1..][1..], text) == m3 by {
      assert FirstMatch(ps[1..][1..][1..], text) == None;
    }
    var m2 := Match(DayNumber, text);
    assert FirstMatch(ps[1..], text) == if m2.Some? then m2 else m3;
  }

  /** `days > 0 ? -days : days`. */
  function SignRule(days: int): (r: int)
    ensures r <= 0 && (r == days || r == -days)
  {
    if days > 0 then -days else days
  }

  /** The offset `extractOffset` returns, as a function: never positive. */
  function OffsetOf(text: string): (r: int)
    ensures r <= 0
  {
    match FirstMatch(DayPatterns, text)
    case Some(days) => SignRule(days)
    case None =>
      var lower := Lower(text);
      if Contains(lower, "day of procedure") || Contains(lower, "day of colonoscopy") then 0 else -1
  }

  /** `extractOffset`: tries the patterns in order and applies the sign rule
      to the first capture; otherwise looks for the day-of phrases; otherwise
      returns -1. */
  method ExtractOffset(text: string) returns (offset: int)
    ensures offset <= 0
    ensures offset == OffsetOf(text)
  {
    for i := 0 to |DayPatterns|
      invariant FirstMatch(DayPatterns[i..], text) == FirstMatch(DayPatterns, text)
    {
      var m := Match(DayPatterns[i], text);
      if m.Some? {
        var days := m.value;
        return if days > 0 then -days else days;
      }
      assert DayPatterns[i..][1..] == DayPatterns[i + 1..];
    }
    var lower := Lower(text);
    if Contains(lower, "day of procedure") || Contains(lower, "day of colonoscopy") {
      return 0;
    }
    return -1;
  }

  /** The first numeric pattern that matches decides, whatever the later ones
      would capture and wherever they would match: "N days before/prior"
      gives -N, "day N" gives minus the absolute value of N, "N days ahead"
      gives -N. */
  lemma OffsetByPattern(text: string)
    ensures Match(DaysBefore, text).Some? ==> OffsetOf(text) == -Match(DaysBefore, text).value
    ensures Match(DaysBefore, text).None? && Match(DayNumber, text).Some? ==>
      var n := Match(DayNumber, text).value;
      OffsetOf(text) == if n < 0 then n else -n
    ensures Match(DaysBefore, text).None? && Match(DayNumber, text).None? && Match(DaysAhead, text).Some? ==>
      OffsetOf(text) == -Match(DaysAhead, text).value
  {
    CapturesNonNegative(DaysBefore, text, 0);
    CapturesNonNegative(DaysAhead, text, 0);
    FirstMatchPatterns(text);
  }

  /** Without a numeric match the offset is 0 exactly when the line names the
      day of the procedure, and the sentinel -1 otherwise. */
  lemma OffsetWithoutNumber(text: string)
    requires forall p :: Match(p, text).None?
    ensures var lower := Lower(text);
      OffsetOf(text) == (if Contains(lower, "day of procedure") || Contains(lower, "day of colonoscopy") then 0 else -1)
  {
    assert Match(DaysBefore, text).None? && Match(DayNumber, text).None? && Match(DaysAhead, text).None?;
    FirstMatchPatterns(text);
  }

  /** The two "days" patterns capture unsigned numbers. */
  lemma CapturesNonNegative(p: DayPattern, l: string, i: nat)
    requires p != DayNumber && i <= |l|
    ensures Search(p, l, i).Some? ==> Search(p, l, i).value >= 0
  {
    if Search(p, l, i).Some? {
      SearchLeftmost(p, l, i);
      var k :| i <= k <= |l| && MatchAt(p, l, k) == Search(p, l, i);
    }
  }

  /** Every pattern needs a digit, so a line without one gets 0 or -1. */
  lemma NoDigitNoMatch(text: string, p: DayPattern)
    requires NoDigit(text)
    ensures Match(p, text).None?
  {
    forall k | 0 <= k <= |text|
      ensures MatchAt(p, text, k).None?
    {
      if p == DayNumber && StartsAtCI(text, k, "day") {
        var j := SpanSpaces(text, k + 3);
        var d := if j < |text| && text[j] == '-' then j + 1 else j;
        assert d < |text| ==> !IsDigit(text[d]);
      } else if k < |text| {
        assert !IsDigit(text[k]);
      }
    }
    SearchNone(p, text, 0);
  }

  /** `extractOffset` on the phrases the instructions use. */
  lemma OffsetExamples()
    ensures OffsetOf("3 days before") == -3
    ensures OffsetOf("day -2") == -2
    ensures OffsetOf("day 3") == -3
    ensures OffsetOf("day 0") == 0
  {
    ThreeDaysBefore();
    DayMinusTwo();
    DayThree();
    DayZero();
  }

  lemma ThreeDaysBefore()
    ensures OffsetOf("3 days before") == -3
  {
    var l := "3 days before";
    ThreeDaysBeforeAnchored();
    assert Match(DaysBefore, l) == Some(3);
    FirstMatchPatterns(l);
  }

  /** The closing word decides: "3 days after" is no match for the
      "before"/"prior" pattern at its start. */
  lemma DaysAfterNoMatch()
    ensures MatchAt(DaysBefore, "3 days after", 0).None?
  {
    var l := "3 days after";
    DaysAfterRuns(l);
    DaysAfterWord(l);
  }

  /** Where the runs of "3 days after" end. */
  lemma DaysAfterRuns(l: string)
    requires l == "3 days after"
    ensures SpanDigits(l, 0) == 1 && SpanSpaces(l, 1) == 2
    ensures StartsAtCI(l, 2, "day") && DaysEnd(l, 2) == 6 && SpanSpaces(l, 6) == 7
  {
    assert StartsAtCI(l, 5, "s");
  }

  /** "after" is neither closing word. */
  lemma DaysAfterWord(l: string)
    requires l == "3 days after"
    ensures forall w :: w in ["before", "prior"] ==> !StartsAtCI(l, 7, w)
  {
    forall w | w in ["before", "prior"]
      ensures !StartsAtCI(l, 7, w)
    {
      assert w == "before" || w == "prior";
      assert LowerChar(l[7 + 0]) != w[0];
    }
  }

  /** The first pattern matches "3 days before" at its start. */
  lemma ThreeDaysBeforeAnchored()
    ensures MatchAt(DaysBefore, "3 days before", 0) == Some(3)
  {
    ThreeDaysBeforeRuns();
    ThreeDaysBeforeWords();
    assert "before" in ["before", "prior"];
  }

  /** The digit and space runs of "3 days before". */
  lemma ThreeDaysBeforeRuns()
    ensures var l := "3 days before";
      SpanDigits(l, 0) == 1 && SpanSpaces(l, 1) == 2 && SpanSpaces(l, 6) == 7 && ParseDigits(l[0..1]) == 3
  {
    var l := "3 days before";
    assert SpanDigits(l, 0) == 1;
    assert SpanSpaces(l, 1) == 2;
    assert SpanSpaces(l, 6) == 7;
    ParseOneDigit(l[0]);
    assert l[0..1] == [l[0]];
  }

  /** The words of "3 days before", compared without regard to case. */
  lemma ThreeDaysBeforeWords()
    ensures var l := "3 days before";
      StartsAtCI(l, 2, "day") && StartsAtCI(l, 5, "s") && StartsAtCI(l, 7, "before")
  {
  }

  /** A short line holding "day" followed by a number has no "days" match. */
  lemma NoDaysMatch(l: string, p: DayPattern)
    requires p != DayNumber
    requires |l| == 5 && l[..4] == "day " && IsDigit(l[4])
    ensures Search(p, l, 0).None?
  {
    forall k | 0 <= k <= |l| ensures MatchAt(p, l, k).None? {
      if k == 4 {
        assert SpanDigits(l, 4) == 5;
        assert SpanSpaces(l, 5) == 5;
      } else if k < 4 {
        assert l[k] == l[..4][k];
      }
    }
    SearchNone(p, l, 0);
  }

  lemma DayMinusTwo()
    ensures OffsetOf("day -2") == -2
  {
    var l := "day -2";
    forall k | 0 <= k <= |l| ensures MatchAt(DaysBefore, l, k).None? {
      if k == 5 {
        assert SpanDigits(l, 5) == 6;
        assert SpanSpaces(l, 6) == 6;
      }
    }
    assert SpanSpaces(l, 3) == 4;
    assert SpanDigits(l, 5) == 6;
    assert ParseDigits(l[5..6]) == 2;
    assert MatchAt(DayNumber, l, 0) == Some(-2);
    assert DayPatterns[1..][0] == DayNumber;
  }

  lemma DayThree()
    ensures OffsetOf("day 3") == -3
  {
    var l := "day 3";
    NoDaysMatch(l, DaysBefore);
    assert SpanSpaces(l, 3) == 4;
    assert SpanDigits(l, 4) == 5;
    assert ParseDigits(l[4..5]) == 3;
    assert MatchAt(DayNumber, l, 0) == Some(3);
    assert DayPatterns[1..][0] == DayNumber;
  }

  lemma DayZero()
    ensures OffsetOf("day 0") == 0
  {
    var l := "day 0";
    NoDaysMatch(l, DaysBefore);
    assert SpanSpaces(l, 3) == 4;
    assert SpanDigits(l, 4) == 5;
    assert ParseDigits(l[4..5]) == 0;
    assert MatchAt(DayNumber, l, 0) == Some(0);
    assert DayPatterns[1..][0] == DayNumber;
  }
}
