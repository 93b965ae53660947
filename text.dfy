/** Character classes and the handful of JavaScript string operations the
    pipeline is built from: ASCII lower-casing, `includes`, `trim`,
    `split('\n')`, and the digit and whitespace runs that the regular
    expressions consume. */
module Text {

  datatype Option<+T> = None | Some(value: T)

  /** WhiteSpace (ECMA-262 section 12.2) and LineTerminator (section 12.3):
      the characters that `\s` matches and that `trim` removes. */
  predicate IsSpace(c: char) {
    c == '\t' || c == '\n' || c == '\U{000B}' || c == '\U{000C}' || c == '\r' || c == ' '
    || c == '\U{00A0}' || c == '\U{1680}' || ('\U{2000}' <= c <= '\U{200A}')
    || c == '\U{2028}' || c == '\U{2029}' || c == '\U{202F}' || c == '\U{205F}'
    || c == '\U{3000}' || c == '\U{FEFF}'
  }

  /** The class `[\x20-\x7E]`. */
  predicate IsPrintable(c: char) {
    ' ' <= c <= '~'
  }

  /** A printable character other than the space. */
  predicate IsVisible(c: char) {
    IsPrintable(c) && c != ' '
  }

  /** The class `\d`. */
  predicate IsDigit(c: char) {
    '0' <= c <= '9'
  }

  /** The class `\w`, which decides where `\b` stands. */
  predicate IsWordChar(c: char) {
    IsDigit(c) || 'a' <= c <= 'z' || 'A' <= c <= 'Z' || c == '_'
  }

  /** The only whitespace inside 0x20-0x7E is the space itself. */
  lemma PrintableSpace(c: char)
    requires IsSpace(c) && IsPrintable(c)
    ensures c == ' '
  {
  }

  function LowerChar(c: char): char {
    if 'A' <= c <= 'Z' then (c as int + 32) as char else c
  }

  /** `toLowerCase` restricted to ASCII letters. */
  function Lower(s: string): (r: string)
    ensures |r| == |s|
    ensures forall k :: 0 <= k < |s| ==> r[k] == LowerChar(s[k])
  {
    seq(|s|, k requires 0 <= k < |s| => LowerChar(s[k]))
  }

  /** `t` holds `p` starting at position `i`. */
  predicate StartsAt(t: string, i: nat, p: string) {
    i + |p| <= |t| && t[i..i + |p|] == p
  }

  /** `t` holds the lower-case `p` at position `i` when ASCII letters are
      compared without regard to case: what a regular expression with the `i`
      flag and without `u` does, since it folds no character outside ASCII
      onto an ASCII one. */
  predicate StartsAtCI(t: string, i: nat, p: string) {
    i + |p| <= |t| && forall j :: 0 <= j < |p| ==> LowerChar(t[i + j]) == p[j]
  }

  /** Text that starts with three parts starts with each in turn. */
  lemma StartsAtParts(t: string, i: nat, a: string, b: string, c: string)
    requires StartsAt(t, i, a + b + c)
    ensures StartsAt(t, i, a) && StartsAt(t, i + |a|, b) && StartsAt(t, i + |a| + |b|, c)
  {
    var w := a + b + c;
    forall q | 0 <= q < |w| ensures t[i + q] == w[q] {
      assert t[i..i + |w|][q] == t[i + q];
    }
    assert t[i..i + |a|] == a by {
      forall q | 0 <= q < |a| ensures t[i..i + |a|][q] == a[q] {
        assert w[q] == a[q];
      }
    }
    assert t[i + |a|..i + |a| + |b|] == b by {
      forall q | 0 <= q < |b| ensures t[i + |a|..i + |a| + |b|][q] == b[q] {
        assert w[|a| + q] == b[q];
      }
    }
    assert t[i + |a| + |b|..i + |w|] == c by {
      forall q | 0 <= q < |c| ensures t[i + |a| + |b|..i + |w|][q] == c[q] {
        assert w[|a| + |b| + q] == c[q];
      }
    }
  }

  lemma StartsAtLower(t: string, i: nat, p: string)
    ensures StartsAtCI(t, i, p) <==> StartsAt(Lower(t), i, p)
  {
    if i + |p| <= |t| {
      var l := Lower(t);
      if StartsAtCI(t, i, p) {
        assert l[i..i + |p|] == p;
      }
      if StartsAt(l, i, p) {
        forall j | 0 <= j < |p| ensures LowerChar(t[i + j]) == p[j] {
          assert l[i..i + |p|][j] == l[i + j];
        }
      }
    }
  }

  /** `t.includes(p)`. */
  predicate Contains(t: string, p: string) {
    exists i: nat :: i <= |t| && StartsAt(t, i, p)
  }

  predicate AllSpace(s: string) {
    forall k :: 0 <= k < |s| ==> IsSpace(s[k])
  }

  predicate AllDigits(s: string) {
    forall k :: 0 <= k < |s| ==> IsDigit(s[k])
  }

  predicate NoDigit(s: string) {
    forall k :: 0 <= k < |s| ==> !IsDigit(s[k])
  }

  /** The end of the longest run of whitespace starting at `i` (what a
      greedy `\s*` consumes). */
  function SpanSpaces(s: string, i: nat): (j: nat)
    requires i <= |s|
    ensures i <= j <= |s|
    ensures forall k :: i <= k < j ==> IsSpace(s[k])
    ensures j == |s| || !IsSpace(s[j])
    decreases |s| - i
  {
    if i < |s| && IsSpace(s[i]) then SpanSpaces(s, i + 1) else i
  }

  /** The start of the longest run of whitespace that ends at `j` and does
      not reach below `lo`. */
  function SpanSpacesBack(s: string, lo: nat, j: nat): (b: nat)
    requires lo <= j <= |s|
    ensures lo <= b <= j
    ensures forall k :: b <= k < j ==> IsSpace(s[k])
    ensures b == lo || !IsSpace(s[b - 1])
    decreases j
  {
    if j > lo && IsSpace(s[j - 1]) then SpanSpacesBack(s, lo, j - 1) else j
  }

  /** The end of the longest run of digits starting at `i` (a greedy `\d+`). */
  function SpanDigits(s: string, i: nat): (j: nat)
    requires i <= |s|
    ensures i <= j <= |s|
    ensures forall k :: i <= k < j ==> IsDigit(s[k])
    ensures j == |s| || !IsDigit(s[j])
    decreases |s| - i
  {
    if i < |s| && IsDigit(s[i]) then SpanDigits(s, i + 1) else i
  }

  /** The run a greedy `\s*` consumes is the only maximal one. */
  lemma SpanSpacesAt(s: string, i: nat, j: nat)
    requires i <= j <= |s|
    requires forall k :: i <= k < j ==> IsSpace(s[k])
    requires j == |s| || !IsSpace(s[j])
    ensures SpanSpaces(s, i) == j
  {
  }

  /** Likewise for a greedy `\d+`. */
  lemma SpanDigitsAt(s: string, i: nat, j: nat)
    requires i <= j <= |s|
    requires forall k :: i <= k < j ==> IsDigit(s[k])
    requires j == |s| || !IsDigit(s[j])
    ensures SpanDigits(s, i) == j
  {
  }

  /** The position of the leftmost digit, or `|s|` when there is none. */
  function FirstDigit(s: string): (i: nat)
    ensures i <= |s|
    ensures forall k :: 0 <= k < i ==> !IsDigit(s[k])
    ensures i < |s| ==> IsDigit(s[i])
  {
    if s == [] then 0 else if IsDigit(s[0]) then 0 else 1 + FirstDigit(s[1..])
  }

  function DigitValue(c: char): nat
    requires IsDigit(c)
  {
    c as int - '0' as int
  }

  /** `parseInt` of a string of decimal digits. */
  function ParseDigits(d: string): nat
    requires AllDigits(d)
  {
    if d == [] then 0 else 10 * ParseDigits(d[..|d| - 1]) + DigitValue(d[|d| - 1])
  }

  lemma ParseOneDigit(c: char)
    requires IsDigit(c)
    ensures ParseDigits([c]) == DigitValue(c)
  {
    assert [c][..0] == [];
    assert ParseDigits([]) == 0;
  }

  lemma ParseTwoDigits(a: char, b: char)
    requires IsDigit(a) && IsDigit(b)
    ensures ParseDigits([a, b]) == 10 * DigitValue(a) + DigitValue(b)
  {
    assert [a, b][..1] == [a];
    ParseOneDigit(a);
  }

  /** `s.trim()`: drops the whitespace at both ends. */
  function Trim(s: string): (r: string)
    ensures r == [] <==> AllSpace(s)
    ensures r != [] ==> !IsSpace(r[0]) && !IsSpace(r[|r| - 1])
  {
    var a := SpanSpaces(s, 0);
    var b := SpanSpacesBack(s, a, |s|);
    assert AllSpace(s) ==> a == |s|;
    s[a..b]
  }

  /** What `Trim` drops is whitespace at the two ends and nothing else. */
  lemma TrimSlice(s: string)
    ensures var a, r := SpanSpaces(s, 0), Trim(s);
      a + |r| <= |s| && r == s[a..a + |r|] && AllSpace(s[..a]) && AllSpace(s[a + |r|..])
  {
  }

  /** Trimming a string without whitespace at its ends changes nothing. */
  lemma TrimTrimmed(s: string)
    requires s == [] || (!IsSpace(s[0]) && !IsSpace(s[|s| - 1]))
    ensures Trim(s) == s
  {
    if s != [] {
      assert SpanSpaces(s, 0) == 0;
      assert SpanSpacesBack(s, 0, |s|) == |s|;
    }
  }

  /** The run a backward `\s*` consumes from `j` is the only maximal one. */
  lemma {:induction false} SpanSpacesBackAt(s: string, lo: nat, b: nat, j: nat)
    requires lo <= b <= j <= |s|
    requires forall k :: b <= k < j ==> IsSpace(s[k])
    requires b == lo || !IsSpace(s[b - 1])
    ensures SpanSpacesBack(s, lo, j) == b
    decreases j
  {
    if j > b {
      SpanSpacesBackAt(s, lo, b, j - 1);
    }
  }

  /** `trim()` returns the core of any string made of whitespace, a core
      with no whitespace at its ends, and whitespace. */
  lemma TrimUnique(s: string, p: string, r: string, q: string)
    requires s == p + r + q && AllSpace(p) && AllSpace(q)
    requires r != [] && !IsSpace(r[0]) && !IsSpace(r[|r| - 1])
    ensures Trim(s) == r
  {
    var a, b := |p|, |p| + |r|;
    forall k | 0 <= k < a ensures IsSpace(s[k]) {
      assert s[k] == p[k];
    }
    assert s[a] == r[0];
    SpanSpacesAt(s, 0, a);
    forall k | b <= k < |s| ensures IsSpace(s[k]) {
      assert s[k] == q[k - b];
    }
    assert s[b - 1] == r[|r| - 1];
    SpanSpacesBackAt(s, a, b, |s|);
    assert s[a..b] == r;
  }

  /** A string that ends without whitespace is some whitespace followed by
      its trimmed core. */
  lemma TrimAfterSpaces(c: string) returns (p: string)
    requires c != [] && !IsSpace(c[|c| - 1])
    ensures c == p + Trim(c) && AllSpace(p)
    ensures Trim(c) != [] && !IsSpace(Trim(c)[0]) && !IsSpace(Trim(c)[|Trim(c)| - 1])
  {
    var a := SpanSpaces(c, 0);
    TrimSlice(c);
    p := c[..a];
    assert c == c[..a] + c[a..a + |Trim(c)|] + c[a + |Trim(c)|..];
    assert a + |Trim(c)| == |c|;
  }

  /** A string that starts without whitespace is its trimmed core followed
      by some whitespace. */
  lemma TrimBeforeSpaces(c: string) returns (q: string)
    requires c != [] && !IsSpace(c[0])
    ensures c == Trim(c) + q && AllSpace(q)
    ensures Trim(c) != [] && !IsSpace(Trim(c)[0]) && !IsSpace(Trim(c)[|Trim(c)| - 1])
  {
    var a := SpanSpaces(c, 0);
    TrimSlice(c);
    assert a == 0;
    q := c[|Trim(c)|..];
    assert c == c[..|Trim(c)|] + q;
  }

  /** `s.split('\n')`: the pieces between line feeds, at least one. */
  function Split(s: string): (r: seq<string>)
    ensures |r| >= 1
    ensures forall k :: 0 <= k < |r| ==> '\n' !in r[k]
  {
    if s == [] then [[]]
    else
      var rest := Split(s[1..]);
      if s[0] == '\n' then [[]] + rest else [[s[0]] + rest[0]] + rest[1..]
  }

  /** `parts.join('\n')`, the inverse of `Split`. */
  function Join(parts: seq<string>): string
    requires |parts| >= 1
  {
    if |parts| == 1 then parts[0] else parts[0] + "\n" + Join(parts[1..])
  }

  /** Joining the pieces of a split gives back the text. */
  lemma {:induction false} JoinSplit(s: string)
    ensures Join(Split(s)) == s
  {
    if s != [] {
      var rest := Split(s[1..]);
      JoinSplit(s[1..]);
      if s[0] == '\n' {
        assert Split(s)[1..] == rest;
      } else {
        var r := Split(s);
        assert r[0] == [s[0]] + rest[0];
        if |rest| == 1 {
          assert r == [[s[0]] + rest[0]];
        } else {
          assert r[1..] == rest[1..];
          assert Join(rest) == rest[0] + "\n" + Join(rest[1..]);
        }
      }
    }
  }

  /** A prefix free of line feeds glues onto the first piece. */
  lemma {:induction false} SplitPrefix(a: string, t: string)
    requires '\n' !in a
    ensures Split(a + t) == [a + Split(t)[0]] + Split(t)[1..]
  {
    if a != [] {
      assert (a + t)[1..] == a[1..] + t;
      SplitPrefix(a[1..], t);
      assert [a[0]] + (a[1..] + Split(t)[0]) == a + Split(t)[0];
    } else {
      var r := Split(t);
      assert a + t == t && a + r[0] == r[0];
      assert [r[0]] + r[1..] == r;
    }
  }

  /** Splitting joined pieces that hold no line feed gives back the pieces. */
  lemma {:induction false} SplitJoin(parts: seq<string>)
    requires |parts| >= 1
    requires forall k :: 0 <= k < |parts| ==> '\n' !in parts[k]
    ensures Split(Join(parts)) == parts
  {
    if |parts| == 1 {
      SplitPrefix(parts[0], []);
      assert parts[0] + [] == parts[0];
    } else {
      var tail := Join(parts[1..]);
      SplitJoin(parts[1..]);
      assert parts[0] + "\n" + tail == parts[0] + ("\n" + tail);
      SplitPrefix(parts[0], "\n" + tail);
      assert ("\n" + tail)[1..] == tail;
      assert Split("\n" + tail) == [[]] + parts[1..];
      assert parts[0] + [] == parts[0];
    }
  }

  /** The leftmost position in `i..n` where the anchored matcher `at`
      succeeds, with what it matched there: how `String.prototype.match`
      tries one start position after another. */
  function Scan<T>(at: nat -> Option<T>, i: nat, n: nat): Option<T>
    requires i <= n
    decreases n - i
  {
    if at(i).Some? then at(i)
    else if i == n then None
    else Scan(at, i + 1, n)
  }

  /** The scan fails exactly when no position matches. */
  lemma {:induction false} ScanNone<T>(at: nat -> Option<T>, i: nat, n: nat)
    requires i <= n
    ensures Scan(at, i, n).None? <==> forall k :: i <= k <= n ==> at(k).None?
    decreases n - i
  {
    if at(i).None? && i < n {
      ScanNone(at, i + 1, n);
    }
  }

  /** A successful scan reports the match at the leftmost matching
      position. */
  lemma {:induction false} ScanLeftmost<T>(at: nat -> Option<T>, i: nat, n: nat)
    requires i <= n && Scan(at, i, n).Some?
    ensures exists k :: (i <= k <= n && at(k) == Scan(at, i, n)
      && forall j :: i <= j < k ==> at(j).None?)
    decreases n - i
  {
    if at(i).None? {
      ScanLeftmost(at, i + 1, n);
      var k :| i + 1 <= k <= n && at(k) == Scan(at, i + 1, n)
        && forall j :: i + 1 <= j < k ==> at(j).None?;
      assert forall j :: i <= j < k ==> at(j).None?;
    }
  }
}
