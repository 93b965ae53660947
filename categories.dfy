/** The keyword classifier: the `categories` tables and `determineCategory`
    of utils/pdfProcessor.js (substring matching) and of index.js (matching
    against the tokens of a tokenizer). */
module Categories {
  import opened Text

  datatype Category = Medication | BowelPrep | Diet | Procedure

  /** `category.toLowerCase()` of a key of `categories`. */
  function Label(c: Category): string {
    match c
    case Medication => "medication"
    case BowelPrep => "bowelprep"
    case Diet => "diet"
    case Procedure => "procedure"
  }

  /** The four labels a classification can produce. */
  predicate IsLabel(s: string) {
    s == "medication" || s == "bowelprep" || s == "diet" || s == "procedure"
  }

  /** Every category's label is one of the four. */
  lemma LabelIsLabel(c: Category)
    ensures IsLabel(Label(c))
  {
  }

  /** The keys of `categories` in insertion order, the order in which
      `Object.entries` visits them. */
  const Order: seq<Category> := [Medication, BowelPrep, Diet, Procedure]

  /** The keyword lists of utils/pdfProcessor.js. */
  function Keywords(c: Category): seq<string> {
    match c
    case Medication => ["medication", "iron", "supplements", "antidiarrheals", "blood", "tablets", "aspirin"]
    case BowelPrep => ["plenvu", "glycoprep", "moviprep", "picolax", "picoprep", "prepkit", "dose", "sachet"]
    case Diet => ["diet", "food", "eat", "drink", "fluids", "breakfast", "lunch", "dinner", "meals"]
    case Procedure => ["procedure", "colonoscopy", "hospital", "appointment", "admission"]
  }

  /** The shorter keyword lists of index.js. */
  function LegacyKeywords(c: Category): seq<string> {
    match c
    case Medication => ["medication", "iron", "supplements", "antidiarrheals"]
    case BowelPrep => ["plenvu", "glycoprep", "moviprep", "picolax", "picoprep", "prepkit"]
    case Diet => ["diet", "food", "eat", "drink", "fluids"]
    case Procedure => ["procedure", "colonoscopy"]
  }

  /** `keywords.some(keyword => lower.includes(keyword))`. */
  predicate AnyContained(keywords: seq<string>, lower: string) {
    exists k :: k in keywords && Contains(lower, k)
  }

  /** `keywords.some(keyword => tokens.includes(keyword))`. */
  predicate AnyToken(keywords: seq<string>, tokens: seq<string>) {
    exists k :: k in keywords && k in tokens
  }

  /** The first category of `order` that `hit` accepts; `Procedure` when
      none does. */
  function FirstHit(order: seq<Category>, hit: Category -> bool): (r: Category)
    ensures (r in order && hit(r)) || (r == Procedure && forall c :: c in order ==> !hit(c))
  {
    if order == [] then Procedure
    else if hit(order[0]) then order[0]
    else FirstHit(order[1..], hit)
  }

  /** `FirstHit` returns the entry at the first accepted index. */
  lemma {:induction false} FirstHitAt(order: seq<Category>, hit: Category -> bool, i: nat)
    requires i < |order| && hit(order[i])
    requires forall j :: 0 <= j < i ==> !hit(order[j])
    ensures FirstHit(order, hit) == order[i]
  {
    if i > 0 {
      FirstHitAt(order[1..], hit, i - 1);
    }
  }

  /** `FirstHit` falls back to `Procedure` when nothing is accepted. */
  lemma {:induction false} FirstHitNone(order: seq<Category>, hit: Category -> bool)
    requires forall j :: 0 <= j < |order| ==> !hit(order[j])
    ensures FirstHit(order, hit) == Procedure
  {
    if order != [] {
      FirstHitNone(order[1..], hit);
    }
  }

  /** The classification of utils/pdfProcessor.js, as a function. */
  function CategoryOf(text: string): (r: Category)
    ensures AnyContained(Keywords(r), Lower(text))
      || (r == Procedure && forall c :: !AnyContained(Keywords(c), Lower(text)))
  {
    var lower := Lower(text);
    FirstHit(Order, c => AnyContained(Keywords(c), lower))
  }

  /** The classification of index.js, as a function of the line and of the
      tokenizer, which receives the lower-cased line. */
  function LegacyCategoryOf(text: string, tokenize: string -> seq<string>): (r: Category)
    ensures AnyToken(LegacyKeywords(r), tokenize(Lower(text)))
      || (r == Procedure && forall c :: !AnyToken(LegacyKeywords(c), tokenize(Lower(text))))
  {
    var tokens := tokenize(Lower(text));
    FirstHit(Order, c => AnyToken(LegacyKeywords(c), tokens))
  }

  /** Priority of the four categories: a category is chosen exactly when one
      of its keywords occurs in the lower-cased line and none of an earlier
      category does. */
  lemma CategoryOfPriority(text: string)
    ensures var lower := Lower(text);
      var med := AnyContained(Keywords(Medication), lower);
      var prep := AnyContained(Keywords(BowelPrep), lower);
      var diet := AnyContained(Keywords(Diet), lower);
      && (CategoryOf(text) == Medication <==> med)
      && (CategoryOf(text) == BowelPrep <==> !med && prep)
      && (CategoryOf(text) == Diet <==> !med && !prep && diet)
      && (CategoryOf(text) == Procedure <==> !med && !prep && !diet)
  {
    var lower := Lower(text);
    var hit := c => AnyContained(Keywords(c), lower);
    Priority(hit);
  }

  /** The same priority for index.js, over the tokens of the line. */
  lemma LegacyCategoryOfPriority(text: string, tokenize: string -> seq<string>)
    ensures var tokens := tokenize(Lower(text));
      var med := AnyToken(LegacyKeywords(Medication), tokens);
      var prep := AnyToken(LegacyKeywords(BowelPrep), tokens);
      var diet := AnyToken(LegacyKeywords(Diet), tokens);
      && (LegacyCategoryOf(text, tokenize) == Medication <==> med)
      && (LegacyCategoryOf(text, tokenize) == BowelPrep <==> !med && prep)
      && (LegacyCategoryOf(text, tokenize) == Diet <==> !med && !prep && diet)
      && (LegacyCategoryOf(text, tokenize) == Procedure <==> !med && !prep && !diet)
  {
    var tokens := tokenize(Lower(text));
    var hit := c => AnyToken(LegacyKeywords(c), tokens);
    Priority(hit);
  }

  /** First-match over the fixed order, for any acceptance test. */
  lemma Priority(hit: Category -> bool)
    ensures var r := FirstHit(Order, hit);
      && (r == Medication <==> hit(Medication))
      && (r == BowelPrep <==> !hit(Medication) && hit(BowelPrep))
      && (r == Diet <==> !hit(Medication) && !hit(BowelPrep) && hit(Diet))
      && (r == Procedure <==> !hit(Medication) && !hit(BowelPrep) && !hit(Diet))
  {
    if hit(Medication) {
      FirstHitAt(Order, hit, 0);
    } else if hit(BowelPrep) {
      FirstHitAt(Order, hit, 1);
    } else if hit(Diet) {
      FirstHitAt(Order, hit, 2);
    } else if hit(Procedure) {
      FirstHitAt(Order, hit, 3);
    } else {
      FirstHitNone(Order, hit);
    }
  }

  /** A line naming both a medication and a food is a medication line. */
  lemma MedicationBeforeDiet(text: string, m: string, d: string)
    requires m in Keywords(Medication) && d in Keywords(Diet)
    requires Contains(Lower(text), m) && Contains(Lower(text), d)
    ensures CategoryOf(text) == Medication
  {
    CategoryOfPriority(text);
  }

  /** `determineCategory` of utils/pdfProcessor.js: walks the table in order
      and returns the label of the first category with a keyword in the
      lower-cased line, "procedure" when there is none. */
  method DetermineCategory(text: string) returns (category: string)
    ensures IsLabel(category)
    ensures category == Label(CategoryOf(text))
  {
    var lower := Lower(text);
    ghost var hit := c => AnyContained(Keywords(c), lower);
    for i := 0 to |Order|
      invariant FirstHit(Order[i..], hit) == FirstHit(Order, hit)
    {
      if AnyContained(Keywords(Order[i]), lower) {
        return Label(Order[i]);
      }
      assert Order[i..][1..] == Order[i + 1..];
    }
    return "procedure";
  }

  /** `determineCategory` of index.js: the same walk over the shorter table,
      testing each keyword for equality with a token. */
  method LegacyDetermineCategory(text: string, tokenize: string -> seq<string>) returns (category: string)
    ensures IsLabel(category)
    ensures category == Label(LegacyCategoryOf(text, tokenize))
  {
    var tokens := tokenize(Lower(text));
    ghost var hit := c => AnyToken(LegacyKeywords(c), tokens);
    for i := 0 to |Order|
      invariant FirstHit(Order[i..], hit) == FirstHit(Order, hit)
    {
      if AnyToken(LegacyKeywords(Order[i]), tokens) {
        return Label(Order[i]);
      }
      assert Order[i..][1..] == Order[i + 1..];
    }
    return "procedure";
  }
}
