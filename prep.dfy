/** The bowel-preparation product of a line and the product carried from one
    line to the next, shared by both `processPDF` loops: a line that
    mentions "prep" and names a product at word boundaries sets the current
    product, every other line keeps it. */
module Prep {
  import opened Text

  /** The alternatives of
      `/\b(plenvu|glycoprep|moviprep|picolax|picoprep|prepkit)\b/i`, in
      order. None is a prefix of another, so at most one of them can start
      at a given position. */
  const Products: seq<string> := ["plenvu", "glycoprep", "moviprep", "picolax", "picoprep", "prepkit"]

  /** `\b` before a word character: the start of the text or a non-word
      character before it. */
  predicate WordStart(s: string, i: nat)
    requires i <= |s|
  {
    i == 0 || !IsWordChar(s[i - 1])
  }

  /** `\b` after a word character: the end of the text or a non-word
      character after it. */
  predicate WordEnd(s: string, e: nat)
    requires e <= |s|
  {
    e == |s| || !IsWordChar(s[e])
  }

  /** Product `n` stands as a whole word at position `i`, in any case. */
  predicate NameAt(s: string, i: nat, n: string) {
    i <= |s| && WordStart(s, i) && StartsAtCI(s, i, n) && WordEnd(s, i + |n|)
  }

  /** The first alternative of `names` matching at `i`. */
  function FirstNameAt(s: string, i: nat, names: seq<string>): (r: Option<string>)
    ensures r.None? <==> forall k :: 0 <= k < |names| ==> !NameAt(s, i, names[k])
    ensures r.Some? ==> exists k :: (0 <= k < |names| && names[k] == r.value && NameAt(s, i, r.value)
      && forall j :: 0 <= j < k ==> !NameAt(s, i, names[j]))
  {
    if names == [] then None
    else if NameAt(s, i, names[0]) then Some(names[0])
    else
      var r := FirstNameAt(s, i, names[1..]);
      FirstNameLater(s, i, names, r);
      r
  }

  /** When the head alternative fails, the first match of the tail is the
      first match of the whole list. */
  lemma FirstNameLater(s: string, i: nat, names: seq<string>, r: Option<string>)
    requires names != [] && !NameAt(s, i, names[0])
    requires r.None? <==> forall k :: 0 <= k < |names| - 1 ==> !NameAt(s, i, names[1..][k])
    requires r.Some? ==> exists k :: (0 <= k < |names| - 1 && names[1..][k] == r.value && NameAt(s, i, r.value)
      && forall j :: 0 <= j < k ==> !NameAt(s, i, names[1..][j]))
    ensures r.None? <==> forall k :: 0 <= k < |names| ==> !NameAt(s, i, names[k])
    ensures r.Some? ==> exists k :: (0 <= k < |names| && names[k] == r.value && NameAt(s, i, r.value)
      && forall j :: 0 <= j < k ==> !NameAt(s, i, names[j]))
  {
    assert forall k :: 1 <= k < |names| ==> names[k] == names[1..][k - 1];
    if r.Some? {
      var k :| 0 <= k < |names| - 1 && names[1..][k] == r.value && NameAt(s, i, r.value)
        && forall j :: 0 <= j < k ==> !NameAt(s, i, names[1..][j]);
      assert names[k + 1] == r.value;
      assert forall j :: 0 <= j < k + 1 ==> !NameAt(s, i, names[j]) by {
        forall j | 0 <= j < k + 1 ensures !NameAt(s, i, names[j]) {
          if j > 0 {
            assert names[j] == names[1..][j - 1];
          }
        }
      }
    }
  }

  /** The match anchored at position `i`, reduced to `match[0].toLowerCase()`:
      the matched letters are the product name up to case. */
  function ProductAt(s: string, i: nat): Option<string> {
    FirstNameAt(s, i, Products)
  }

  /** At most one product can stand at a position, so the alternation
      reports a product exactly when that product stands there. */
  lemma ProductAtIff(s: string, i: nat, n: string)
    requires n in Products
    ensures ProductAt(s, i) == Some(n) <==> NameAt(s, i, n)
  {
    if NameAt(s, i, n) {
      var k :| 0 <= k < |Products| && Products[k] == n;
      forall j | 0 <= j < k ensures !NameAt(s, i, Products[j]) {
        NoPrefix(j, k);
        assert LowerChar(s[i + 0]) == n[0] && LowerChar(s[i + 1]) == n[1] && LowerChar(s[i + 4]) == n[4];
      }
      FirstNameFrom(s, i, Products, k);
    }
  }

  /** The anchored product match at every position of `s`. */
  function ProductMatcher(s: string): nat -> Option<string> {
    (k: nat) => ProductAt(s, k)
  }

  /** The leftmost match at or after `i`. */
  function ProductSearch(s: string, i: nat): Option<string>
    requires i <= |s|
  {
    Scan(ProductMatcher(s), i, |s|)
  }

  /** `line.match(productRegex)?.[0].toLowerCase()`. */
  function ProductMatch(line: string): Option<string> {
    ProductSearch(line, 0)
  }

  /** The search finds a product exactly when one stands as a whole word
      somewhere, and then reports one that does. */
  lemma ProductSearchSound(s: string, i: nat)
    requires i <= |s|
    ensures ProductSearch(s, i).None? <==>
      forall k, n :: i <= k <= |s| && n in Products ==> !NameAt(s, k, n)
    ensures ProductSearch(s, i).Some? ==>
      ProductSearch(s, i).value in Products && exists k :: i <= k <= |s| && NameAt(s, k, ProductSearch(s, i).value)
  {
    var at := ProductMatcher(s);
    ScanNone(at, i, |s|);
    if ProductSearch(s, i).Some? {
      ProductSearchLeftmost(s, i);
    } else {
      forall k, n | i <= k <= |s| && n in Products ensures !NameAt(s, k, n) {
        assert at(k).None?;
        ProductAtIff(s, k, n);
      }
    }
  }

  /** `match` reports the leftmost product: it stands as a whole word at some
      position, and no product stands at any earlier position. */
  lemma ProductSearchLeftmost(s: string, i: nat)
    requires i <= |s| && ProductSearch(s, i).Some?
    ensures var n := ProductSearch(s, i).value;
      n in Products && exists k :: (i <= k <= |s| && NameAt(s, k, n)
        && forall k', n' :: i <= k' < k && n' in Products ==> !NameAt(s, k', n'))
  {
    var at := ProductMatcher(s);
    ScanLeftmost(at, i, |s|);
    var k :| i <= k <= |s| && at(k) == Scan(at, i, |s|) && forall j :: i <= j < k ==> at(j).None?;
    var n := ProductSearch(s, i).value;
    assert ProductAt(s, k) == Some(n);
    assert n in Products && NameAt(s, k, n);
    forall k', n' | i <= k' < k && n' in Products ensures !NameAt(s, k', n') {
      assert at(k').None?;
      ProductAtIff(s, k', n');
    }
  }

  /** A product standing alone on a line is found. */
  lemma ProductAlone(n: string)
    requires n in Products
    ensures ProductMatch(n) == Some(n)
  {
    assert StartsAtCI(n, 0, n) by {
      forall j | 0 <= j < |n| ensures LowerChar(n[0 + j]) == n[j] {
        assert 'a' <= n[j] <= 'z';
      }
    }
    assert NameAt(n, 0, n);
    var k :| 0 <= k < |Products| && Products[k] == n;
    forall j | 0 <= j < k ensures !NameAt(n, 0, Products[j]) {
      NoPrefix(j, k);
    }
    FirstNameFrom(n, 0, Products, k);
  }

  /** Two different products differ in their first, second or fifth letter,
      so neither is a prefix of the other. */
  lemma NoPrefix(j: nat, k: nat)
    requires j < |Products| && k < |Products| && j != k
    ensures |Products[j]| >= 5 && |Products[k]| >= 5
    ensures Products[j][0] != Products[k][0] || Products[j][1] != Products[k][1] || Products[j][4] != Products[k][4]
  {
    var p := Products;
    assert p[0][0] == 'p' && p[0][1] == 'l' && p[0][4] == 'v';
    assert p[1][0] == 'g' && p[1][1] == 'l' && p[1][4] == 'o';
    assert p[2][0] == 'm' && p[2][1] == 'o' && p[2][4] == 'p';
    assert p[3][0] == 'p' && p[3][1] == 'i' && p[3][4] == 'l';
    assert p[4][0] == 'p' && p[4][1] == 'i' && p[4][4] == 'p';
    assert p[5][0] == 'p' && p[5][1] == 'r' && p[5][4] == 'k';
  }

  /** When no earlier alternative matches, the `k`-th one is reported. */
  lemma {:induction false} FirstNameFrom(s: string, i: nat, names: seq<string>, k: nat)
    requires k < |names| && NameAt(s, i, names[k])
    requires forall j :: 0 <= j < k ==> !NameAt(s, i, names[j])
    ensures FirstNameAt(s, i, names) == Some(names[k])
  {
    if k > 0 {
      FirstNameFrom(s, i, names[1..], k - 1);
    }
  }

  /** The update of one line: a product when the lower-cased line contains
      "prep" and the product expression matches, nothing otherwise. */
  function PrepUpdate(line: string): (r: Option<string>)
    ensures r.Some? ==> Contains(Lower(line), "prep") && r.value in Products
  {
    if Contains(Lower(line), "prep") then
      ProductSearchSound(line, 0);
      ProductMatch(line)
    else None
  }

  /** A line updates the product exactly when it mentions "prep" and names a
      product as a whole word, and the update is the product standing
      leftmost in the line. */
  lemma PrepUpdateSound(line: string)
    ensures var r := PrepUpdate(line);
      && (r.Some? ==> Contains(Lower(line), "prep") && r.value in Products)
      && (r.Some? ==> exists k :: (0 <= k <= |line| && NameAt(line, k, r.value)
        && forall k', n :: 0 <= k' < k && n in Products ==> !NameAt(line, k', n)))
      && (r.None? <==> (!Contains(Lower(line), "prep")
        || forall k, n :: 0 <= k <= |line| && n in Products ==> !NameAt(line, k, n)))
  {
    ProductSearchSound(line, 0);
    if PrepUpdate(line).Some? {
      ProductSearchLeftmost(line, 0);
    }
  }

  /** When a line names two products, the one written first wins, even if
      the other is the one next to the word "prep". */
  lemma LeftmostProductWins()
    ensures PrepUpdate("Moviprep replaces Plenvu prep") == Some("moviprep")
  {
    var line := "Moviprep replaces Plenvu prep";
    MentionsPrep(line);
    MoviprepFirst(line);
    ProductAtIff(line, 0, "moviprep");
    assert ProductMatcher(line)(0) == Some("moviprep");
  }

  /** The line mentions "prep", inside its first word. */
  lemma MentionsPrep(line: string)
    requires line == "Moviprep replaces Plenvu prep"
    ensures Contains(Lower(line), "prep")
  {
    assert StartsAtCI(line, 4, "prep");
    StartsAtLower(line, 4, "prep");
  }

  /** "Moviprep" stands as a whole word at the start of the line. */
  lemma MoviprepFirst(line: string)
    requires line == "Moviprep replaces Plenvu prep"
    ensures NameAt(line, 0, "moviprep")
  {
    assert StartsAtCI(line, 0, "moviprep");
    assert !IsWordChar(line[8]);
  }

  /** An update is a product name, so never empty. */
  lemma PrepUpdateNamed(line: string)
    ensures PrepUpdate(line).Some? ==> PrepUpdate(line).value in Products && PrepUpdate(line).value != ""
  {
    PrepUpdateSound(line);
  }

  /** "plenvu" does not itself contain "prep": a line naming only Plenvu
      leaves the carried product as it was. */
  lemma PlenvuAloneIgnored()
    ensures PrepUpdate("Plenvu").None?
  {
    var l := Lower("Plenvu");
    forall i: nat | i <= |l| ensures !StartsAt(l, i, "prep") {
      if i + 4 <= |l| {
        assert l[i..i + 4][1] == l[i + 1];
        assert l[i + 1] != 'r';
      }
    }
  }

  /** The value of a variable that starts empty after the first `i` lines,
      when each line's update, if any, replaces it. */
  function Carry(lines: seq<string>, i: nat, update: string -> Option<string>): string
    requires i <= |lines|
  {
    if i == 0 then ""
    else match update(lines[i - 1])
      case Some(n) => n
      case None => Carry(lines, i - 1, update)
  }

  /** With updates that are never empty, the carried value is empty exactly
      when no line updated it, and otherwise it is the last update made. */
  lemma {:induction false} CarryLast(lines: seq<string>, i: nat, update: string -> Option<string>)
    requires i <= |lines|
    requires forall l :: update(l).Some? ==> update(l).value != ""
    ensures Carry(lines, i, update) == "" <==> forall j :: 0 <= j < i ==> update(lines[j]).None?
    ensures Carry(lines, i, update) != "" ==> exists j :: (0 <= j < i && update(lines[j]) == Some(Carry(lines, i, update))
      && forall j' :: j < j' < i ==> update(lines[j']).None?)
    decreases i
  {
    if i > 0 {
      CarryLast(lines, i - 1, update);
      if update(lines[i - 1]).None? && Carry(lines, i - 1, update) != "" {
        var j :| 0 <= j < i - 1 && update(lines[j]) == Some(Carry(lines, i - 1, update))
          && forall j' :: j < j' < i - 1 ==> update(lines[j']).None?;
        assert update(lines[j]) == Some(Carry(lines, i, update));
      }
    }
  }

  /** The value of `currentPrep` once the first `i` lines have been
      processed, starting from the empty string. */
  function CarriedPrep(lines: seq<string>, i: nat): string
    requires i <= |lines|
  {
    Carry(lines, i, PrepUpdate)
  }

  /** The carried product is empty exactly when none of the first `i` lines
      set one, and otherwise it is the product of the last of them that
      did. */
  lemma CarriedPrepLast(lines: seq<string>, i: nat)
    requires i <= |lines|
    ensures CarriedPrep(lines, i) == "" <==> forall j :: 0 <= j < i ==> PrepUpdate(lines[j]).None?
    ensures CarriedPrep(lines, i) != "" ==> exists j :: (0 <= j < i && PrepUpdate(lines[j]) == Some(CarriedPrep(lines, i))
      && forall j' :: j < j' < i ==> PrepUpdate(lines[j']).None?)
  {
    forall l ensures PrepUpdate(l).Some? ==> PrepUpdate(l).value != "" {
      PrepUpdateNamed(l);
    }
    CarryLast(lines, i, PrepUpdate);
  }
}
