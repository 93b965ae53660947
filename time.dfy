/** `extractTimeFromText`, identical in utils/pdfProcessor.js and index.js:
    the time of day of an instruction, in hours, read from the first number
    of the line through the case-insensitive expression
    `(\d{1,2})(?::(\d{2}))?\s*(am|pm)?`. */
module Time {
  import opened Text

  datatype Period = NoPeriod | Am | Pm

  /** The three capture groups of a match: the hour digits, the minute digits
      (0 when the group did not take part) and the lower-cased period. */
  datatype TimeMatch = TimeMatch(hours: nat, minutes: nat, period: Period)

  /** `(?::(\d{2}))` at `j`: a colon and two digits. */
  predicate ColonMinutes(s: string, j: nat) {
    j + 3 <= |s| && s[j] == ':' && IsDigit(s[j + 1]) && IsDigit(s[j + 2])
  }

  /** `(am|pm)` at `k`, in any case. */
  function PeriodAt(s: string, k: nat): Period {
    if k + 1 < |s| && LowerChar(s[k]) == 'a' && LowerChar(s[k + 1]) == 'm' then Am
    else if k + 1 < |s| && LowerChar(s[k]) == 'p' && LowerChar(s[k + 1]) == 'm' then Pm
    else NoPeriod
  }

  /** The match anchored at a digit. Every part after the first digit is
      optional, so the first attempt succeeds: `\d{1,2}` takes a second
      digit when there is one, the minutes group is taken when a colon and
      two digits follow, `\s*` takes the whole whitespace run and the period
      is taken when "am" or "pm" follows it, in any case. `parseInt` of one
      or two decimal digits is their value. */
  function MatchTimeAt(s: string, i: nat): (m: TimeMatch)
    requires i < |s| && IsDigit(s[i])
    ensures m.hours < 100 && m.minutes < 100
  {
    var twoDigits := i + 1 < |s| && IsDigit(s[i + 1]);
    var j := if twoDigits then i + 2 else i + 1;
    var hours := if twoDigits then 10 * DigitValue(s[i]) + DigitValue(s[i + 1]) else DigitValue(s[i]);
    var hasMinutes := ColonMinutes(s, j);
    var minutes := if hasMinutes then 10 * DigitValue(s[j + 1]) + DigitValue(s[j + 2]) else 0;
    TimeMatch(hours, minutes, PeriodAt(s, SpanSpaces(s, if hasMinutes then j + 3 else j)))
  }

  /** `text.match(timeRegex)`: an anchored match exists exactly at the
      positions holding a digit, so the leftmost one is at the first digit. */
  function MatchTime(text: string): (r: Option<TimeMatch>)
    ensures r.None? <==> NoDigit(text)
  {
    var i := FirstDigit(text);
    if i < |text| then Some(MatchTimeAt(text, i)) else None
  }

  /** The hour after the period rule: "pm" adds 12 except to 12, "am" turns
      12 into 0, and an hour without a period is kept as written. */
  function Hour24(m: TimeMatch): (r: nat)
    ensures m.period == NoPeriod ==> r == m.hours
    ensures m.period == Pm ==> 12 <= r
    ensures m.period == Am && m.hours <= 12 ==> r < 12
  {
    if m.period == Pm && m.hours != 12 then m.hours + 12
    else if m.period == Am && m.hours == 12 then 0
    else m.hours
  }

  /** The period rule never moves the hour off its place on a 12-hour
      dial. */
  lemma Hour24Dial(m: TimeMatch)
    ensures Hour24(m) % 12 == m.hours % 12
  {
    if m.period == Pm && m.hours != 12 {
      assert Hour24(m) == m.hours + 12;
    }
  }

  /** `hours + minutes/60`. */
  function ToHours(m: TimeMatch): real {
    Hour24(m) as real + m.minutes as real / 60.0
  }

  /** `extractTimeFromText`: the time of the first number of the line, or
      `null` when the line holds no digit. */
  function TimeOf(text: string): (r: Option<real>)
    ensures r.None? <==> NoDigit(text)
    ensures r.Some? ==> 0.0 <= r.value < 113.0
  {
    match MatchTime(text)
    case None => None
    case Some(m) => Some(ToHours(m))
  }

  /** `await extractTimeFromText(line) || null` of index.js: a time of 0
      (midnight) is falsy and is replaced by `null`. */
  function LegacyTime(text: string): (r: Option<real>)
    ensures r.None? <==> NoDigit(text) || TimeOf(text) == Some(0.0)
    ensures r.Some? ==> r == TimeOf(text)
  {
    match TimeOf(text)
    case None => None
    case Some(t) => if t == 0.0 then None else Some(t)
  }

  /** The usual reading of a 12-hour clock time: the hour modulo 12, plus 12
      in the afternoon. */
  function Clock24(h: nat, minutes: nat, p: Period): real
    requires p != NoPeriod
  {
    ((h % 12) + (if p == Pm then 12 else 0)) as real + minutes as real / 60.0
  }

  /** On a well-formed 12-hour time the period rule is the usual reading,
      which lies in [0, 24) and in the afternoon half exactly for "pm". */
  lemma PeriodRuleIsClock(m: TimeMatch)
    requires m.period != NoPeriod && 1 <= m.hours <= 12 && m.minutes < 60
    ensures ToHours(m) == Clock24(m.hours, m.minutes, m.period)
    ensures 0.0 <= ToHours(m) < 24.0
    ensures m.period == Pm <==> ToHours(m) >= 12.0
  {
  }

  function DigitChar(n: nat): (c: char)
    requires n < 10
    ensures IsDigit(c) && DigitValue(c) == n
  {
    ('0' as int + n) as char
  }

  /** The decimal digits of an hour below 100, as `\d{1,2}` accepts them:
      without a leading zero, or, for an hour below 10 written `padded`,
      with one ("07"). */
  function HourDigits(h: nat, padded: bool): (d: string)
    requires h < 100 && (padded ==> h < 10)
    ensures AllDigits(d) && 1 <= |d| <= 2 && (|d| == 1 <==> h < 10 && !padded)
  {
    if padded then ['0', DigitChar(h)]
    else if h < 10 then [DigitChar(h)] else [DigitChar(h / 10), DigitChar(h % 10)]
  }

  /** The two digits of a minute value. */
  function MinuteDigits(m: nat): (d: string)
    requires m < 100
    ensures AllDigits(d) && |d| == 2
  {
    [DigitChar(m / 10), DigitChar(m % 10)]
  }

  function PeriodText(p: Period): string {
    match p
    case NoPeriod => ""
    case Am => "am"
    case Pm => "pm"
  }

  /** The optional minutes group as written: nothing, or ":mm". */
  function MinuteText(minutes: Option<nat>): string
    requires minutes.Some? ==> minutes.value < 100
  {
    if minutes.Some? then ":" + MinuteDigits(minutes.value) else ""
  }

  /** The minutes a match reports: 0 when the group is absent. */
  function MinutesOf(minutes: Option<nat>): nat {
    if minutes.Some? then minutes.value else 0
  }

  /** An hour with its optional minutes, as written: "7", "07", "7:30",
      "12". */
  function HourText(h: nat, padded: bool, minutes: Option<nat>): string
    requires h < 100 && (padded ==> h < 10) && (minutes.Some? ==> minutes.value < 100)
  {
    HourDigits(h, padded) + MinuteText(minutes)
  }

  /** The match taken at an hour written at `i` with its optional minutes,
      when nothing after it extends the hour or supplies minutes it lacks:
      the hour and minutes written, and the period found after the
      whitespace that follows them. */
  lemma HourAt(s: string, i: nat, h: nat, padded: bool, minutes: Option<nat>)
    requires h < 100 && (padded ==> h < 10) && (minutes.Some? ==> minutes.value < 100)
    requires StartsAt(s, i, HourText(h, padded, minutes))
    requires minutes.None? && h < 10 && !padded && i + 1 < |s| ==> !IsDigit(s[i + 1])
    requires minutes.None? ==> !ColonMinutes(s, i + |HourDigits(h, padded)|)
    ensures i < |s| && IsDigit(s[i])
    ensures MatchTimeAt(s, i) == TimeMatch(h, MinutesOf(minutes), PeriodAt(s, SpanSpaces(s, i + |HourText(h, padded, minutes)|)))
  {
    HourLayout(s, i, h, padded, minutes);
  }

  /** The characters of an hour written at `i`: its digits, and the colon
      and digits of its minutes when it has them. */
  lemma HourLayout(s: string, i: nat, h: nat, padded: bool, minutes: Option<nat>)
    requires h < 100 && (padded ==> h < 10) && (minutes.Some? ==> minutes.value < 100)
    requires StartsAt(s, i, HourText(h, padded, minutes))
    ensures i < |s| && IsDigit(s[i])
    ensures h < 10 && !padded ==> DigitValue(s[i]) == h
    ensures h >= 10 || padded ==> i + 1 < |s| && IsDigit(s[i + 1]) && 10 * DigitValue(s[i]) + DigitValue(s[i + 1]) == h
    ensures |HourDigits(h, padded)| == (if h < 10 && !padded then 1 else 2)
    ensures |HourText(h, padded, minutes)| == |HourDigits(h, padded)| + (if minutes.Some? then 3 else 0)
    ensures h < 10 && !padded && minutes.Some? ==> i + 1 < |s| && !IsDigit(s[i + 1])
    ensures minutes.Some? ==> (ColonMinutes(s, i + |HourDigits(h, padded)|)
      && 10 * DigitValue(s[i + |HourDigits(h, padded)| + 1]) + DigitValue(s[i + |HourDigits(h, padded)| + 2]) == minutes.value)
  {
    var hd := HourDigits(h, padded);
    var t := HourText(h, padded, minutes);
    var j := i + |hd|;
    forall q | 0 <= q < |t| ensures s[i + q] == t[q] {
      assert s[i..i + |t|][q] == s[i + q];
    }
    assert s[i] == hd[0] by {
      assert t[0] == hd[0];
    }
    if |hd| == 2 {
      assert s[i + 1] == hd[1] by {
        assert t[1] == hd[1];
      }
    }
    if minutes.Some? {
      var md := MinuteDigits(minutes.value);
      assert t[|hd|] == ':' && t[|hd| + 1] == md[0] && t[|hd| + 2] == md[1];
      assert s[j] == ':' && s[j + 1] == md[0] && s[j + 2] == md[1];
    }
  }

  /** The first digit of a text that starts without digits and then holds a
      digit at `i`. */
  lemma FirstDigitAfter(s: string, i: nat)
    requires i < |s| && IsDigit(s[i]) && forall k :: 0 <= k < i ==> !IsDigit(s[k])
    ensures FirstDigit(s) == i
  {
  }

  /** The match of a text that holds no digit before an hour written at
      `i`: the match taken there. */
  lemma MatchHour(s: string, i: nat, h: nat, padded: bool, minutes: Option<nat>)
    requires h < 100 && (padded ==> h < 10) && (minutes.Some? ==> minutes.value < 100)
    requires StartsAt(s, i, HourText(h, padded, minutes)) && NoDigit(s[..i])
    requires minutes.None? && h < 10 && !padded && i + 1 < |s| ==> !IsDigit(s[i + 1])
    requires minutes.None? ==> !ColonMinutes(s, i + |HourDigits(h, padded)|)
    ensures FirstDigit(s) == i
    ensures MatchTimeAt(s, i) == TimeMatch(h, MinutesOf(minutes), PeriodAt(s, SpanSpaces(s, i + |HourText(h, padded, minutes)|)))
    ensures MatchTime(s) == Some(TimeMatch(h, MinutesOf(minutes), PeriodAt(s, SpanSpaces(s, i + |HourText(h, padded, minutes)|))))
  {
    HourAt(s, i, h, padded, minutes);
    forall k | 0 <= k < i ensures !IsDigit(s[k]) {
      assert s[..i][k] == s[k];
    }
    FirstDigitAfter(s, i);
  }

  /** The time of a line that holds no digit before an hour written at
      `i`, followed by the period `p` after its whitespace: the hour and
      minutes written, after the period rule. */
  lemma HourRead(s: string, i: nat, h: nat, padded: bool, minutes: Option<nat>, p: Period)
    requires h < 100 && (padded ==> h < 10) && (minutes.Some? ==> minutes.value < 100)
    requires StartsAt(s, i, HourText(h, padded, minutes)) && NoDigit(s[..i])
    requires minutes.None? && h < 10 && !padded && i + 1 < |s| ==> !IsDigit(s[i + 1])
    requires minutes.None? ==> !ColonMinutes(s, i + |HourDigits(h, padded)|)
    requires PeriodAt(s, SpanSpaces(s, i + |HourText(h, padded, minutes)|)) == p
    ensures FirstDigit(s) == i && MatchTimeAt(s, i) == TimeMatch(h, MinutesOf(minutes), p)
    ensures TimeOf(s) == Some(ToHours(TimeMatch(h, MinutesOf(minutes), p)))
  {
    MatchHour(s, i, h, padded, minutes);
  }

  /** "am" or "pm" written at `k` is the period found there. */
  lemma PeriodTextAt(s: string, k: nat, p: Period)
    requires p != NoPeriod && StartsAt(s, k, PeriodText(p))
    ensures PeriodAt(s, k) == p
    ensures k < |s| && !IsSpace(s[k]) && !IsDigit(s[k]) && s[k] != ':'
  {
    var pt := PeriodText(p);
    assert s[k] == pt[0] && s[k + 1] == pt[1] by {
      assert s[k..k + 2][0] == s[k] && s[k..k + 2][1] == s[k + 1];
    }
  }

  /** Whitespace written at `e` and followed by something else is the run
      that `\s*` takes. */
  lemma GapAt(s: string, e: nat, gap: string)
    requires StartsAt(s, e, gap) && AllSpace(gap)
    requires e + |gap| < |s| && !IsSpace(s[e + |gap|])
    ensures SpanSpaces(s, e) == e + |gap|
  {
    forall q | e <= q < e + |gap| ensures IsSpace(s[q]) {
      assert s[e..e + |gap|][q - e] == s[q];
    }
    SpanSpacesAt(s, e, e + |gap|);
  }

  /** Round trip: in a line that holds no digit before position `i`, a
      12-hour time written at `i` as an hour, optional ":mm", optional
      whitespace and "am" or "pm" is read back as its usual 24-hour value,
      whatever follows it. */
  lemma ClockTextRoundTrip(s: string, i: nat, h: nat, padded: bool, minutes: Option<nat>, gap: string, p: Period)
    requires 1 <= h <= 12 && (padded ==> h < 10) && (minutes.Some? ==> minutes.value < 60)
    requires AllSpace(gap) && p != NoPeriod
    requires StartsAt(s, i, HourText(h, padded, minutes) + gap + PeriodText(p)) && NoDigit(s[..i])
    ensures TimeOf(s) == Some(Clock24(h, MinutesOf(minutes), p))
  {
    ClockLayout(s, i, h, padded, minutes, gap, p);
    HourRead(s, i, h, padded, minutes, p);
    ClockHours(h, MinutesOf(minutes), p);
    TimeOfIs(s, ToHours(TimeMatch(h, MinutesOf(minutes), p)), Clock24(h, MinutesOf(minutes), p));
  }

  /** Rewriting the value of a time. */
  lemma TimeOfIs(s: string, a: real, b: real)
    requires TimeOf(s) == Some(a) && a == b
    ensures TimeOf(s) == Some(b)
  {
  }

  /** Where the parts of a written clock time sit: the hour at `i`, not
      extended by what follows, and the period after the whitespace. */
  lemma ClockLayout(s: string, i: nat, h: nat, padded: bool, minutes: Option<nat>, gap: string, p: Period)
    requires 1 <= h <= 12 && (padded ==> h < 10) && (minutes.Some? ==> minutes.value < 60)
    requires AllSpace(gap) && p != NoPeriod
    requires StartsAt(s, i, HourText(h, padded, minutes) + gap + PeriodText(p))
    ensures StartsAt(s, i, HourText(h, padded, minutes))
    ensures PeriodAt(s, SpanSpaces(s, i + |HourText(h, padded, minutes)|)) == p
    ensures minutes.None? && h < 10 && !padded && i + 1 < |s| ==> !IsDigit(s[i + 1])
    ensures minutes.None? ==> !ColonMinutes(s, i + |HourDigits(h, padded)|)
  {
    StartsAtParts(s, i, HourText(h, padded, minutes), gap, PeriodText(p));
    PartsLayout(s, i, h, padded, minutes, HourText(h, padded, minutes), gap, p);
  }

  /** `ClockLayout` once the written time is split into its three parts. */
  lemma PartsLayout(s: string, i: nat, h: nat, padded: bool, minutes: Option<nat>, t: string, gap: string, p: Period)
    requires 1 <= h <= 12 && (padded ==> h < 10) && (minutes.Some? ==> minutes.value < 60)
    requires AllSpace(gap) && p != NoPeriod && t == HourText(h, padded, minutes)
    requires StartsAt(s, i + |t|, gap) && StartsAt(s, i + |t| + |gap|, PeriodText(p))
    ensures PeriodAt(s, SpanSpaces(s, i + |t|)) == p
    ensures minutes.None? && h < 10 && !padded && i + 1 < |s| ==> !IsDigit(s[i + 1])
    ensures minutes.None? ==> !ColonMinutes(s, i + |HourDigits(h, padded)|)
  {
    PeriodAfterGap(s, i + |t|, gap, p);
    if minutes.None? {
      assert |t| == |HourDigits(h, padded)|;
    }
  }

  /** Whitespace and then "am" or "pm" written at `e`: the period found
      after the run of whitespace, and a first character that neither
      extends a number nor opens minutes. */
  lemma PeriodAfterGap(s: string, e: nat, gap: string, p: Period)
    requires AllSpace(gap) && p != NoPeriod
    requires StartsAt(s, e, gap) && StartsAt(s, e + |gap|, PeriodText(p))
    ensures PeriodAt(s, SpanSpaces(s, e)) == p
    ensures e < |s| && !IsDigit(s[e]) && s[e] != ':'
  {
    PeriodTextAt(s, e + |gap|, p);
    GapAt(s, e, gap);
    if gap != [] {
      assert s[e..e + |gap|][0] == s[e];
    }
  }

  /** The reading of a clock time, apart from where it is written. */
  lemma ClockHours(h: nat, minutes: nat, p: Period)
    requires 1 <= h <= 12 && minutes < 60 && p != NoPeriod
    ensures ToHours(TimeMatch(h, minutes, p)) == Clock24(h, minutes, p)
  {
    PeriodRuleIsClock(TimeMatch(h, minutes, p));
  }

  /** The time of a line whose match has no period: the hour as written
      plus the minutes as a fraction of an hour. */
  lemma BareTime(s: string, h: nat, minutes: nat)
    requires TimeOf(s) == Some(ToHours(TimeMatch(h, minutes, NoPeriod)))
    ensures TimeOf(s) == Some(h as real + minutes as real / 60.0)
  {
    assert ToHours(TimeMatch(h, minutes, NoPeriod)) == h as real + minutes as real / 60.0;
  }

  /** Round trip: in a line that holds no digit before position `i`, an
      hour below 100 with optional ":mm" written at `i`, not followed by
      another digit, by minutes it lacks, or by "am" or "pm" after the
      whitespace that follows it, is read back as written, the minutes as a
      fraction of an hour. */
  lemma BareHourRoundTrip(s: string, i: nat, h: nat, padded: bool, minutes: Option<nat>)
    requires h < 100 && (padded ==> h < 10) && (minutes.Some? ==> minutes.value < 100)
    requires StartsAt(s, i, HourText(h, padded, minutes)) && NoDigit(s[..i])
    requires minutes.None? && h < 10 && !padded && i + 1 < |s| ==> !IsDigit(s[i + 1])
    requires minutes.None? ==> !ColonMinutes(s, i + |HourDigits(h, padded)|)
    requires PeriodAt(s, SpanSpaces(s, i + |HourText(h, padded, minutes)|)) == NoPeriod
    ensures TimeOf(s) == Some(h as real + MinutesOf(minutes) as real / 60.0)
  {
    HourRead(s, i, h, padded, minutes, NoPeriod);
    BareTime(s, h, MinutesOf(minutes));
  }

  /** The hour and the period need not be adjacent, and the period's case
      does not matter: "7 PM" reads as 19. */
  lemma SpacedPeriod()
    ensures TimeOf("7 PM") == Some(19.0)
  {
    var s := "7 PM";
    assert SpanSpaces(s, 1) == 2;
    assert MatchTimeAt(s, 0) == TimeMatch(7, 0, Pm);
  }

  /** "7:30am" is half past seven. */
  lemma HalfPastSeven()
    ensures TimeOf("7:30am") == Some(7.5)
  {
    assert HourText(7, false, Some(30)) + "" + PeriodText(Am) == "7:30am";
    ClockTextRoundTrip("7:30am", 0, 7, false, Some(30), "", Am);
  }

  /** A leading zero is one of the two digits `\d{1,2}` takes: "07:30am"
      is half past seven as well. */
  lemma PaddedHalfPastSeven()
    ensures TimeOf("07:30am") == Some(7.5)
  {
    assert HourText(7, true, Some(30)) + "" + PeriodText(Am) == "07:30am";
    ClockTextRoundTrip("07:30am", 0, 7, true, Some(30), "", Am);
  }

  /** "09pm" is 21. */
  lemma PaddedNinePm()
    ensures TimeOf("09pm") == Some(21.0)
  {
    assert HourText(9, true, None) + "" + PeriodText(Pm) == "09pm";
    ClockTextRoundTrip("09pm", 0, 9, true, None, "", Pm);
  }

  /** "12:00pm" is noon, 12, not 24. */
  lemma Noon()
    ensures TimeOf("12:00pm") == Some(12.0)
  {
    assert HourText(12, false, Some(0)) + "" + PeriodText(Pm) == "12:00pm";
    ClockTextRoundTrip("12:00pm", 0, 12, false, Some(0), "", Pm);
  }

  /** An hour without minutes takes the period too: "2pm" is 14. */
  lemma TwoPm()
    ensures TimeOf("2pm") == Some(14.0)
  {
    assert HourText(2, false, None) + "" + PeriodText(Pm) == "2pm";
    ClockTextRoundTrip("2pm", 0, 2, false, None, "", Pm);
  }

  /** "12pm" is noon. */
  lemma TwelvePm()
    ensures TimeOf("12pm") == Some(12.0)
  {
    assert HourText(12, false, None) + "" + PeriodText(Pm) == "12pm";
    ClockTextRoundTrip("12pm", 0, 12, false, None, "", Pm);
  }

  /** Text around the time does not change it: "at 12 pm, then fast" is
      noon too. */
  lemma NoonInSentence()
    ensures TimeOf("at 12 pm, then fast") == Some(12.0)
  {
    var s := "at 12 pm, then fast";
    assert s[3..8] == HourText(12, false, None) + " " + PeriodText(Pm);
    ClockTextRoundTrip(s, 3, 12, false, None, " ", Pm);
  }

  /** The first number of the line is read, whatever it counts: in "Take
      first dose 2 days before procedure at 6pm" the time is 2, not 18. */
  lemma FirstNumberWins()
    ensures TimeOf("Take first dose 2 days before procedure at 6pm") == Some(2.0)
  {
    var s := "Take first dose 2 days before procedure at 6pm";
    FirstNumberPrefix(s);
    FirstNumberDigit(s);
    FirstNumberPeriod(s);
    TwoText();
    BareHourRoundTrip(s, 16, 2, false, None);
  }

  /** The words before the "2" of that line hold no digit. */
  lemma FirstNumberPrefix(s: string)
    requires s == "Take first dose 2 days before procedure at 6pm"
    ensures NoDigit(s[..16])
  {
    var t := "Take first dose ";
    assert s[..16] == t;
    forall k | 0 <= k < |t|
      ensures !IsDigit(t[k])
    {
      assert t[k] in t;
    }
  }

  /** The "2" of that line is a lone hour with no minutes. */
  lemma FirstNumberDigit(s: string)
    requires s == "Take first dose 2 days before procedure at 6pm"
    ensures StartsAt(s, 16, HourText(2, false, None))
    ensures 16 + 1 < |s| ==> !IsDigit(s[16 + 1])
    ensures !ColonMinutes(s, 16 + |HourDigits(2, false)|)
  {
    TwoText();
    assert s[16] == '2' && s[17] == ' ';
  }

  /** The hour 2 with no minutes is written "2". */
  lemma TwoText()
    ensures HourText(2, false, None) == "2"
  {
    assert DigitChar(2) == '2';
  }

  /** After the "2" and its space comes "days", not a period. */
  lemma FirstNumberPeriod(s: string)
    requires s == "Take first dose 2 days before procedure at 6pm"
    ensures PeriodAt(s, SpanSpaces(s, 17)) == NoPeriod
  {
    assert s[17] == ' ' && s[18] == 'd';
    LetterAfterSpace(s, 17);
  }

  /** One space and then a "d": the run of whitespace ends at the "d",
      where no period starts. */
  lemma LetterAfterSpace(s: string, e: nat)
    requires e + 1 < |s| && s[e] == ' ' && s[e + 1] == 'd'
    ensures PeriodAt(s, SpanSpaces(s, e)) == NoPeriod
  {
    SpanSpacesAt(s, e, e + 1);
  }

  /** "12am" is midnight, which index.js then drops as falsy. */
  lemma MidnightDropped()
    ensures TimeOf("12am") == Some(0.0)
    ensures LegacyTime("12am").None?
  {
    assert HourText(12, false, None) + "" + PeriodText(Am) == "12am";
    ClockTextRoundTrip("12am", 0, 12, false, None, "", Am);
  }
}
