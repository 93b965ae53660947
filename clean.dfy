/** `cleanText` and the page-number filter of utils/pdfProcessor.js: the
    normalisation every extracted line goes through before it is classified. */
module Clean {
  import opened Text

  /** The printable, non-space characters of `s`, in order: what cleaning
      must keep. */
  function Visible(s: string): string {
    if s == [] then [] else (if IsVisible(s[0]) then [s[0]] else []) + Visible(s[1..])
  }

  lemma {:induction false} VisibleConcat(a: string, b: string)
    ensures Visible(a + b) == Visible(a) + Visible(b)
  {
    if a != [] {
      assert (a + b)[1..] == a[1..] + b;
      VisibleConcat(a[1..], b);
    } else {
      assert a + b == b;
    }
  }

  lemma {:induction false} VisibleAllSpace(s: string)
    requires AllSpace(s)
    ensures Visible(s) == []
  {
    if s != [] {
      VisibleAllSpace(s[1..]);
    }
  }

  /** The characters of `s` that are not whitespace, in order. */
  function NonSpace(s: string): string {
    if s == [] then [] else (if IsSpace(s[0]) then [] else [s[0]]) + NonSpace(s[1..])
  }

  lemma {:induction false} NonSpaceConcat(a: string, b: string)
    ensures NonSpace(a + b) == NonSpace(a) + NonSpace(b)
  {
    if a != [] {
      assert (a + b)[1..] == a[1..] + b;
      NonSpaceConcat(a[1..], b);
    } else {
      assert a + b == b;
    }
  }

  lemma {:induction false} NonSpaceAllSpace(s: string)
    requires AllSpace(s)
    ensures NonSpace(s) == []
  {
    if s != [] {
      NonSpaceAllSpace(s[1..]);
    }
  }

  /** Every whitespace character is a plain space and stands alone. */
  predicate SingleSpaced(t: string) {
    forall k :: 0 <= k < |t| && IsSpace(t[k]) ==> t[k] == ' ' && (k + 1 == |t| || !IsSpace(t[k + 1]))
  }

  /** `.replace(/\s+/g, ' ')`: each maximal run of whitespace becomes a single
      space; every other character is kept, in order. */
  function CollapseSpaces(s: string): (r: string)
    ensures NonSpace(r) == NonSpace(s)
    ensures Visible(r) == Visible(s)
    ensures SingleSpaced(r)
    ensures (r != [] && IsSpace(r[0])) <==> (s != [] && IsSpace(s[0]))
    decreases |s|
  {
    if s == [] then []
    else if IsSpace(s[0]) then
      var a := SpanSpaces(s, 1);
      var t := CollapseSpaces(s[a..]);
      assert s == s[..a] + s[a..];
      VisibleConcat(s[..a], s[a..]);
      VisibleAllSpace(s[..a]);
      NonSpaceConcat(s[..a], s[a..]);
      NonSpaceAllSpace(s[..a]);
      VisibleConcat([' '], t);
      NonSpaceConcat([' '], t);
      SingleSpacedCons(' ', t);
      [' '] + t
    else
      var t := CollapseSpaces(s[1..]);
      assert s == [s[0]] + s[1..];
      VisibleConcat([s[0]], s[1..]);
      NonSpaceConcat([s[0]], s[1..]);
      VisibleConcat([s[0]], t);
      NonSpaceConcat([s[0]], t);
      SingleSpacedCons(s[0], t);
      [s[0]] + t
  }

  /** A plain space, or a character that is not whitespace, in front of a
      single-spaced string that does not start with whitespace when the
      character is a space. */
  lemma SingleSpacedCons(c: char, t: string)
    requires SingleSpaced(t)
    requires c == ' ' || !IsSpace(c)
    requires c == ' ' ==> t == [] || !IsSpace(t[0])
    ensures SingleSpaced([c] + t)
  {
    var r := [c] + t;
    forall k | 0 <= k < |r| && IsSpace(r[k])
      ensures r[k] == ' ' && (k + 1 == |r| || !IsSpace(r[k + 1]))
    {
      if k > 0 {
        assert r[k] == t[k - 1];
        assert k + 1 < |r| ==> r[k + 1] == t[k];
      }
    }
  }

  /** The collapse ends with whitespace exactly when the input does. */
  lemma {:induction false} CollapseLastChar(s: string)
    ensures var r := CollapseSpaces(s);
      (r != [] && IsSpace(r[|r| - 1])) <==> (s != [] && IsSpace(s[|s| - 1]))
    decreases |s|
  {
    if s != [] {
      var a := if IsSpace(s[0]) then SpanSpaces(s, 1) else 1;
      var c := if IsSpace(s[0]) then ' ' else s[0];
      assert CollapseSpaces(s) == [c] + CollapseSpaces(s[a..]);
      CollapseLastChar(s[a..]);
      LastOfCons(c, CollapseSpaces(s[a..]));
      LastOfCons(s[0], s[1..]);
      if a < |s| {
        assert s[|s| - 1] == s[a..][|s| - a - 1];
      }
    }
  }

  /** The last character of `[c] + t`. */
  lemma LastOfCons(c: char, t: string)
    ensures ([c] + t)[|t|] == if t == [] then c else t[|t| - 1]
  {
  }

  /** Between a part that does not end with whitespace and a part that does
      not start with it, a run of whitespace collapses to exactly one space,
      and each part collapses on its own. */
  lemma {:induction false} CollapseJoin(u: string, w: string, v: string)
    requires u == [] || !IsSpace(u[|u| - 1])
    requires w != [] && AllSpace(w)
    requires v == [] || !IsSpace(v[0])
    ensures CollapseSpaces(u + w + v) == CollapseSpaces(u) + " " + CollapseSpaces(v)
    decreases |u|
  {
    if u == [] {
      JoinAfterNothing(w, v);
    } else if IsSpace(u[0]) {
      var a := SpanSpaces(u, 1);
      assert a < |u|;
      CollapseJoin(u[a..], w, v);
      JoinAfterRun(u, w, v, a);
    } else {
      CollapseJoin(u[1..], w, v);
      JoinAfterChar(u, w, v);
    }
  }

  lemma JoinAfterNothing(w: string, v: string)
    requires w != [] && AllSpace(w)
    requires v == [] || !IsSpace(v[0])
    ensures CollapseSpaces([] + w + v) == CollapseSpaces([]) + " " + CollapseSpaces(v)
  {
    RunLayout(w, v);
    CollapseAfterRun(w + v, |w|);
    assert [] + w + v == w + v;
    SpaceFront(CollapseSpaces([]), CollapseSpaces(v));
  }

  /** Joining with one space onto an empty text is putting a space in front. */
  lemma SpaceFront(e: string, t: string)
    requires e == []
    ensures e + " " + t == [' '] + t
  {
  }

  /** A whitespace run `w` in front of a part `v` that does not start with
      whitespace is the whole run at the head of `w + v`. */
  lemma RunLayout(w: string, v: string)
    requires w != [] && AllSpace(w)
    requires v == [] || !IsSpace(v[0])
    ensures IsSpace((w + v)[0]) && forall k :: 1 <= k < |w| ==> IsSpace((w + v)[k])
    ensures |w| == |w + v| || !IsSpace((w + v)[|w|])
    ensures (w + v)[|w|..] == v
  {
  }

  lemma JoinAfterRun(u: string, w: string, v: string, a: nat)
    requires 0 < a < |u| && IsSpace(u[0]) && a == SpanSpaces(u, 1)
    requires CollapseSpaces(u[a..] + w + v) == CollapseSpaces(u[a..]) + " " + CollapseSpaces(v)
    ensures CollapseSpaces(u + w + v) == CollapseSpaces(u) + " " + CollapseSpaces(v)
  {
    RegroupAt(u, w, v, a);
    RunThen(u, w + v, a);
    RunHead(u, a);
    PushSpace(CollapseSpaces(u[a..]), CollapseSpaces(v));
  }

  lemma RegroupAt(u: string, w: string, v: string, a: nat)
    requires a <= |u|
    ensures u + w + v == u + (w + v) && u[a..] + (w + v) == u[a..] + w + v
  {
  }

  /** The collapse of a string that opens with a whitespace run. */
  lemma RunHead(u: string, a: nat)
    requires 0 < a < |u| && IsSpace(u[0]) && a == SpanSpaces(u, 1)
    ensures CollapseSpaces(u) == [' '] + CollapseSpaces(u[a..])
  {
  }

  lemma PushSpace(t: string, x: string)
    ensures [' '] + (t + " " + x) == ([' '] + t) + " " + x
  {
  }

  /** The run at the head of `u` is the run at the head of `u + rest`. */
  lemma RunThen(u: string, rest: string, a: nat)
    requires 0 < a < |u| && IsSpace(u[0]) && a == SpanSpaces(u, 1)
    ensures CollapseSpaces(u + rest) == [' '] + CollapseSpaces(u[a..] + rest)
  {
    var s := u + rest;
    forall k | 1 <= k < a ensures IsSpace(s[k]) {
      assert s[k] == u[k];
    }
    assert s[0] == u[0] && s[a] == u[a];
    SpanSpacesAt(s, 1, a);
    assert s[a..] == u[a..] + rest;
  }

  lemma PushFront(c: char, t: string, x: string)
    ensures [c] + (t + x) == ([c] + t) + x
  {
  }

  lemma JoinAfterChar(u: string, w: string, v: string)
    requires u != [] && !IsSpace(u[0])
    requires CollapseSpaces(u[1..] + w + v) == CollapseSpaces(u[1..]) + " " + CollapseSpaces(v)
    ensures CollapseSpaces(u + w + v) == CollapseSpaces(u) + " " + CollapseSpaces(v)
  {
    Regroup(u, w, v);
    CharThen(u, w + v);
  }

  lemma Regroup(u: string, w: string, v: string)
    requires u != []
    ensures u + w + v == u + (w + v) && u[1..] + w + v == u[1..] + (w + v)
  {
  }

  /** A character that is not whitespace at the head of `u` is kept at the
      head of the collapse of `u + rest`. */
  lemma CharThen(u: string, rest: string)
    requires u != [] && !IsSpace(u[0])
    ensures CollapseSpaces(u + rest) == [u[0]] + CollapseSpaces(u[1..] + rest)
  {
    var s := u + rest;
    assert s[0] == u[0];
    assert s[1..] == u[1..] + rest;
  }

  /** A string that opens with a whitespace run ending at `a` collapses to
      one space followed by the collapse of the rest. */
  lemma CollapseAfterRun(s: string, a: nat)
    requires 0 < a <= |s| && IsSpace(s[0])
    requires forall k :: 1 <= k < a ==> IsSpace(s[k])
    requires a == |s| || !IsSpace(s[a])
    ensures CollapseSpaces(s) == [' '] + CollapseSpaces(s[a..])
  {
    SpanSpacesAt(s, 1, a);
  }

  /** `.replace(/[^\x20-\x7E]/g, ' ')`: every character outside 0x20-0x7E
      becomes a space. */
  function MaskNonPrintable(s: string): (r: string)
    ensures |r| == |s|
    ensures forall k :: 0 <= k < |r| ==> IsPrintable(r[k])
    ensures forall k :: 0 <= k < |r| ==> IsPrintable(s[k]) ==> r[k] == s[k]
    ensures Visible(r) == Visible(s)
  {
    if s == [] then [] else [if IsPrintable(s[0]) then s[0] else ' '] + MaskNonPrintable(s[1..])
  }

  /** `cleanText`: collapse whitespace, blank out what is not printable ASCII,
      trim. The result is printable ASCII without a space at either end and
      keeps exactly the printable, non-space characters of the input. */
  function CleanText(s: string): (r: string)
    ensures forall k :: 0 <= k < |r| ==> IsPrintable(r[k])
    ensures r == [] || (r[0] != ' ' && r[|r| - 1] != ' ')
    ensures Visible(r) == Visible(s)
    ensures r == [] <==> Visible(s) == []
  {
    var m := MaskNonPrintable(CollapseSpaces(s));
    TrimPrintable(m);
    Trim(m)
  }

  /** Dropping whitespace from both ends keeps the visible characters. */
  lemma VisibleSlice(m: string, a: nat, b: nat)
    requires a <= b <= |m|
    requires AllSpace(m[..a]) && AllSpace(m[b..])
    ensures Visible(m[a..b]) == Visible(m)
  {
    assert m == m[..a] + m[a..b] + m[b..];
    VisibleConcat(m[..a] + m[a..b], m[b..]);
    VisibleConcat(m[..a], m[a..b]);
    VisibleAllSpace(m[..a]);
    VisibleAllSpace(m[b..]);
  }

  /** A string that starts with a visible character has visible content. */
  lemma VisibleHead(r: string)
    requires r != [] && IsVisible(r[0])
    ensures Visible(r) != []
  {
  }

  /** Trimming a printable string drops only spaces and keeps a printable
      string that starts and ends with a visible character. */
  lemma TrimPrintable(m: string)
    requires forall k :: 0 <= k < |m| ==> IsPrintable(m[k])
    ensures var r := Trim(m);
      && (forall k :: 0 <= k < |r| ==> IsPrintable(r[k]))
      && (r == [] || (r[0] != ' ' && r[|r| - 1] != ' '))
      && Visible(r) == Visible(m)
      && (r == [] <==> Visible(m) == [])
  {
    var r := Trim(m);
    var a := SpanSpaces(m, 0);
    TrimSlice(m);
    TrimKeepsPrintable(m);
    VisibleSlice(m, a, a + |r|);
    if r != [] {
      VisibleHead(r);
    }
  }

  /** Trimming keeps only characters of the string, so a printable string
      stays printable. */
  lemma TrimKeepsPrintable(m: string)
    requires forall k :: 0 <= k < |m| ==> IsPrintable(m[k])
    ensures forall k :: 0 <= k < |Trim(m)| ==> IsPrintable(Trim(m)[k])
  {
    var r := Trim(m);
    var a := SpanSpaces(m, 0);
    TrimSlice(m);
    forall k | 0 <= k < |r| ensures IsPrintable(r[k]) {
      assert r[k] == m[a + k];
    }
  }

  /** No character that cleaning would blank out (anything outside 0x20-0x7E
      that is not whitespace). */
  predicate OnlySpaceOrPrintable(s: string) {
    forall k :: 0 <= k < |s| ==> IsSpace(s[k]) || IsPrintable(s[k])
  }

  /** A single-spaced string is a fixed point of the whitespace collapse. */
  lemma {:induction false} CollapseSingleSpaced(t: string)
    requires SingleSpaced(t)
    ensures CollapseSpaces(t) == t
  {
    if t != [] {
      if IsSpace(t[0]) {
        assert SpanSpaces(t, 1) == 1;
        CollapseSingleSpaced(t[1..]);
        assert t == [' '] + t[1..];
      } else {
        CollapseSingleSpaced(t[1..]);
        assert t == [t[0]] + t[1..];
      }
    }
  }

  lemma {:induction false} MaskPrintable(t: string)
    requires forall k :: 0 <= k < |t| ==> IsPrintable(t[k])
    ensures MaskNonPrintable(t) == t
  {
  }

  /** Collapsing keeps a string free of blanked-out characters printable. */
  lemma {:induction false} CollapsePrintable(s: string)
    requires OnlySpaceOrPrintable(s)
    ensures forall k :: 0 <= k < |CollapseSpaces(s)| ==> IsPrintable(CollapseSpaces(s)[k])
    decreases |s|
  {
    if s != [] {
      if IsSpace(s[0]) {
        var a := SpanSpaces(s, 1);
        CollapsePrintable(s[a..]);
      } else {
        CollapsePrintable(s[1..]);
      }
    }
  }

  /** A string with a visible character is a part that ends without
      whitespace followed by whitespace. */
  lemma SplitTrailing(u: string) returns (u0: string, su: string)
    requires Visible(u) != []
    ensures u == u0 + su && AllSpace(su)
    ensures u0 != [] && !IsSpace(u0[|u0| - 1])
  {
    var b := SpanSpacesBack(u, 0, |u|);
    if b == 0 {
      assert AllSpace(u);
      VisibleAllSpace(u);
    }
    u0, su := u[..b], u[b..];
    assert u == u0 + su;
    forall k | 0 <= k < |su| ensures IsSpace(su[k]) {
      assert su[k] == u[b + k];
    }
  }

  /** A string with a visible character is whitespace followed by a part
      that starts without whitespace. */
  lemma SplitLeading(v: string) returns (pv: string, v0: string)
    requires Visible(v) != []
    ensures v == pv + v0 && AllSpace(pv)
    ensures v0 != [] && !IsSpace(v0[0])
  {
    var a := SpanSpaces(v, 0);
    if a == |v| {
      assert AllSpace(v);
      VisibleAllSpace(v);
    }
    pv, v0 := v[..a], v[a..];
    assert v == pv + v0;
    forall k | 0 <= k < |pv| ensures IsSpace(pv[k]) {
      assert pv[k] == v[k];
    }
  }

  /** On input free of blanked-out characters, cleaning is collapsing and
      trimming. */
  lemma CleanCollapsed(x: string)
    requires OnlySpaceOrPrintable(x)
    ensures CleanText(x) == Trim(CollapseSpaces(x))
  {
    CollapsePrintable(x);
    MaskPrintable(CollapseSpaces(x));
  }

  /** A whitespace run at the end collapses to one trailing space. */
  lemma TrailingRun(u0: string, su: string)
    requires u0 != [] && !IsSpace(u0[|u0| - 1])
    requires su != [] && AllSpace(su)
    ensures CollapseSpaces(u0 + su) == CollapseSpaces(u0) + " "
  {
    assert u0 + su == u0 + su + [];
    CollapseJoin(u0, su, []);
  }

  /** A whitespace run at the start collapses to one leading space. */
  lemma LeadingRun(pv: string, v0: string)
    requires pv != [] && AllSpace(pv)
    requires v0 != [] && !IsSpace(v0[0])
    ensures CollapseSpaces(pv + v0) == " " + CollapseSpaces(v0)
  {
    assert pv + v0 == [] + pv + v0;
    CollapseJoin([], pv, v0);
  }

  lemma TrimSpaceBack(c: string)
    requires c != [] && !IsSpace(c[|c| - 1])
    ensures Trim(c + " ") == Trim(c)
  {
    var p := TrimAfterSpaces(c);
    assert c + " " == p + Trim(c) + " ";
    TrimUnique(c + " ", p, Trim(c), " ");
  }

  lemma TrimSpaceFront(c: string)
    requires c != [] && !IsSpace(c[0])
    ensures Trim(" " + c) == Trim(c)
  {
    var q := TrimBeforeSpaces(c);
    assert " " + c == " " + Trim(c) + q;
    TrimUnique(" " + c, " ", Trim(c), q);
  }

  /** Whitespace after a part that ends without whitespace is trimmed away. */
  lemma TrimLeft(u: string, u0: string, su: string)
    requires u == u0 + su && AllSpace(su)
    requires u0 != [] && !IsSpace(u0[|u0| - 1])
    ensures Trim(CollapseSpaces(u)) == Trim(CollapseSpaces(u0))
  {
    if su != [] {
      TrailingRun(u0, su);
      CollapseLastChar(u0);
      TrimSpaceBack(CollapseSpaces(u0));
    } else {
      assert u == u0;
    }
  }

  /** Whitespace before a part that starts without whitespace is trimmed
      away. */
  lemma TrimRight(v: string, pv: string, v0: string)
    requires v == pv + v0 && AllSpace(pv)
    requires v0 != [] && !IsSpace(v0[0])
    ensures Trim(CollapseSpaces(v)) == Trim(CollapseSpaces(v0))
  {
    if pv != [] {
      LeadingRun(pv, v0);
      TrimSpaceFront(CollapseSpaces(v0));
    } else {
      assert v == v0;
    }
  }

  /** The single space that joins two collapsed parts survives the trim. */
  lemma TrimAroundSpace(c1: string, c2: string)
    requires c1 != [] && !IsSpace(c1[|c1| - 1])
    requires c2 != [] && !IsSpace(c2[0])
    ensures Trim(c1 + " " + c2) == Trim(c1) + " " + Trim(c2)
  {
    var p := TrimAfterSpaces(c1);
    var q := TrimBeforeSpaces(c2);
    var r := Trim(c1) + " " + Trim(c2);
    assert c1 + " " + c2 == p + r + q;
    assert r[0] == Trim(c1)[0] && r[|r| - 1] == Trim(c2)[|Trim(c2)| - 1];
    TrimUnique(c1 + " " + c2, p, r, q);
  }

  /** Collapsing and trimming turns the whitespace between two parts with
      visible text into one space. */
  lemma TrimCollapseJoin(u: string, w: string, v: string)
    requires Visible(u) != [] && Visible(v) != []
    requires w != [] && AllSpace(w)
    ensures Trim(CollapseSpaces(u + w + v)) == Trim(CollapseSpaces(u)) + " " + Trim(CollapseSpaces(v))
  {
    var u0, su := SplitTrailing(u);
    var pv, v0 := SplitLeading(v);
    var mid := su + w + pv;
    RunsJoin(su, w, pv);
    assert u + w + v == u0 + mid + v0;
    CollapseJoin(u0, mid, v0);
    TrimLeft(u, u0, su);
    TrimRight(v, pv, v0);
    CollapseLastChar(u0);
    TrimAroundSpace(CollapseSpaces(u0), CollapseSpaces(v0));
  }

  lemma RunsJoin(a: string, b: string, c: string)
    requires AllSpace(a) && AllSpace(b) && AllSpace(c)
    ensures AllSpace(a + b + c)
  {
    var s := a + b + c;
    forall k | 0 <= k < |s| ensures IsSpace(s[k]) {
      if k < |a| {
        assert s[k] == a[k];
      } else if k < |a| + |b| {
        assert s[k] == b[k - |a|];
      } else {
        assert s[k] == c[k - |a| - |b|];
      }
    }
  }

  lemma PrintableJoin(u: string, w: string, v: string)
    requires OnlySpaceOrPrintable(u) && OnlySpaceOrPrintable(v) && AllSpace(w)
    ensures OnlySpaceOrPrintable(u + w + v)
  {
    var s := u + w + v;
    forall k | 0 <= k < |s| ensures IsSpace(s[k]) || IsPrintable(s[k]) {
      if k < |u| {
        assert s[k] == u[k];
      } else if k < |u| + |w| {
        assert s[k] == w[k - |u|];
      } else {
        assert s[k] == v[k - |u| - |w|];
      }
    }
  }

  /** Cleaning turns the whitespace between two parts with visible text into
      exactly one space, and cleans each part on its own: words are never
      glued together. */
  lemma CleanJoin(u: string, w: string, v: string)
    requires OnlySpaceOrPrintable(u) && OnlySpaceOrPrintable(v)
    requires Visible(u) != [] && Visible(v) != []
    requires w != [] && AllSpace(w)
    ensures CleanText(u + w + v) == CleanText(u) + " " + CleanText(v)
  {
    PrintableJoin(u, w, v);
    CleanCollapsed(u + w + v);
    CleanCollapsed(u);
    CleanCollapsed(v);
    TrimCollapseJoin(u, w, v);
  }

  /** A slice of a single-spaced string is single-spaced. */
  lemma SingleSpacedSlice(c: string, a: nat, b: nat)
    requires a <= b <= |c| && SingleSpaced(c)
    ensures SingleSpaced(c[a..b])
  {
    var t := c[a..b];
    forall k | 0 <= k < |t| && IsSpace(t[k])
      ensures t[k] == ' ' && (k + 1 == |t| || !IsSpace(t[k + 1]))
    {
      assert t[k] == c[a + k];
      assert k + 1 < |t| ==> t[k + 1] == c[a + k + 1];
    }
  }

  /** Cleaning a string free of blanked-out characters leaves it
      single-spaced. */
  lemma CleanTextSingleSpaced(s: string)
    requires OnlySpaceOrPrintable(s)
    ensures SingleSpaced(CleanText(s))
  {
    CleanCollapsed(s);
    TrimSingleSpaced(CollapseSpaces(s));
  }

  /** Trimming keeps a string single-spaced. */
  lemma TrimSingleSpaced(c: string)
    requires SingleSpaced(c)
    ensures SingleSpaced(Trim(c))
  {
    TrimSlice(c);
    var a := SpanSpaces(c, 0);
    SingleSpacedSlice(c, a, a + |Trim(c)|);
  }

  /** A printable, single-spaced string without spaces at its ends is already
      clean. */
  lemma CleanTextFixed(t: string)
    requires SingleSpaced(t)
    requires forall k :: 0 <= k < |t| ==> IsPrintable(t[k])
    requires t == [] || (t[0] != ' ' && t[|t| - 1] != ' ')
    ensures CleanText(t) == t
  {
    CollapseSingleSpaced(t);
    MaskPrintable(t);
    TrimTrimmed(t);
  }

  /** Cleaning is idempotent on every input free of characters it blanks
      out. */
  lemma CleanTextIdempotent(s: string)
    requires OnlySpaceOrPrintable(s)
    ensures CleanText(CleanText(s)) == CleanText(s)
  {
    CleanTextSingleSpaced(s);
    CleanTextFixed(CleanText(s));
  }

  /** Without that condition cleaning twice can differ from cleaning once:
      a blanked-out character next to a space leaves two spaces behind. */
  lemma CleanTextNotIdempotent()
    ensures CleanText("a\U{0001} b") == "a  b"
    ensures CleanText("a  b") == "a b"
  {
    CleanOnce();
    CleanTwice();
  }

  lemma CleanOnce()
    ensures CleanText("a\U{0001} b") == "a  b"
  {
    CleanOnceSteps("a\U{0001} b");
  }

  /** The three steps on that string: nothing to collapse, the control
      character masked, nothing to trim. */
  lemma CleanOnceSteps(s: string)
    requires s == "a\U{0001} b"
    ensures Trim(MaskNonPrintable(CollapseSpaces(s))) == "a  b"
  {
    assert SingleSpaced(s);
    CollapseSingleSpaced(s);
    assert MaskNonPrintable(s) == "a  b";
    TrimTrimmed("a  b");
  }

  lemma CleanTwice()
    ensures CleanText("a  b") == "a b"
  {
    var t := "a  b";
    assert SpanSpaces(t[1..], 1) == 2;
    assert CollapseSpaces(t[3..]) == "b";
    assert CollapseSpaces(t[1..]) == " b";
    assert CollapseSpaces(t) == "a b";
    MaskPrintable("a b");
    TrimTrimmed("a b");
  }

  /** `/^\s*page\s+\d+\s*$/i`: optional whitespace, "page" in any case, at
      least one whitespace, digits, optional whitespace. Every class is
      disjoint from the next, so the greedy runs are the only way to match. */
  predicate IsPageLine(l: string) {
    var a := SpanSpaces(l, 0);
    StartsAtCI(l, a, "page") &&
    var b := SpanSpaces(l, a + 4);
    b > a + 4 &&
    var c := SpanDigits(l, b);
    c > b && SpanSpaces(l, c) == |l|
  }

  /** `l` reads: whitespace up to `a`, "page", whitespace up to `b`, digits up
      to `c`, whitespace to the end. */
  predicate PageShape(l: string, a: nat, b: nat, c: nat) {
    a + 4 < b < c <= |l| && AllSpace(l[..a]) && StartsAtCI(l, a, "page")
    && AllSpace(l[a + 4..b]) && AllDigits(l[b..c]) && AllSpace(l[c..])
  }

  /** The scanner matches exactly the lines of the shape the pattern
      describes. */
  lemma PageLineShape(l: string)
    ensures IsPageLine(l) <==> exists a: nat, b: nat, c: nat :: PageShape(l, a, b, c)
  {
    if IsPageLine(l) {
      var a := SpanSpaces(l, 0);
      var b := SpanSpaces(l, a + 4);
      var c := SpanDigits(l, b);
      ScannedPageShape(l, a, b, c);
    }
    if exists a: nat, b: nat, c: nat :: PageShape(l, a, b, c) {
      var a: nat, b: nat, c: nat :| PageShape(l, a, b, c);
      PageShapeScanned(l, a, b, c);
    }
  }

  lemma ScannedPageShape(l: string, a: nat, b: nat, c: nat)
    requires a == SpanSpaces(l, 0) && StartsAtCI(l, a, "page")
    requires b == SpanSpaces(l, a + 4) && b > a + 4
    requires c == SpanDigits(l, b) && c > b && SpanSpaces(l, c) == |l|
    ensures PageShape(l, a, b, c)
  {
    assert AllSpace(l[..a]) by {
      forall k | 0 <= k < a ensures IsSpace(l[..a][k]) {
        assert l[..a][k] == l[k];
      }
    }
    var w := l[a + 4..b];
    assert AllSpace(w) by {
      forall k | 0 <= k < |w| ensures IsSpace(w[k]) {
        assert w[k] == l[a + 4 + k];
      }
    }
    assert AllDigits(l[b..c]) by {
      forall k | 0 <= k < c - b ensures IsDigit(l[b..c][k]) {
        assert l[b..c][k] == l[b + k];
      }
    }
    assert AllSpace(l[c..]) by {
      forall k | 0 <= k < |l| - c ensures IsSpace(l[c..][k]) {
        assert l[c..][k] == l[c + k];
      }
    }
  }

  lemma PageShapeScanned(l: string, a: nat, b: nat, c: nat)
    requires PageShape(l, a, b, c)
    ensures SpanSpaces(l, 0) == a && StartsAtCI(l, a, "page")
    ensures SpanSpaces(l, a + 4) == b && SpanDigits(l, b) == c && SpanSpaces(l, c) == |l|
  {
    assert LowerChar(l[a + 0]) == "page"[0];
    forall k | 0 <= k < a ensures IsSpace(l[k]) {
      assert l[k] == l[..a][k];
    }
    SpanSpacesAt(l, 0, a);
    assert IsDigit(l[b]) by {
      assert l[b] == l[b..c][0];
    }
    forall k | a + 4 <= k < b ensures IsSpace(l[k]) {
      assert l[k] == l[a + 4..b][k - (a + 4)];
    }
    SpanSpacesAt(l, a + 4, b);
    forall k | b <= k < c ensures IsDigit(l[k]) {
      assert l[k] == l[b..c][k - b];
    }
    SpanDigitsAt(l, b, c);
    forall k | c <= k < |l| ensures IsSpace(l[k]) {
      assert l[k] == l[c..][k - c];
    }
    SpanSpacesAt(l, c, |l|);
  }
}
