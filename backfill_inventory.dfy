/**
 * scripts/backfill_inventory.ts: a one-off pass over the inventory table that puts the
 * brand, the model name, the condition label and the brand tag of every item into
 * canonical form, writing only the fields that change.
 */
module BackfillInventory {
  import opened Prelude
  import opened Strings

  // ---------------------------------------------------------------------------------------
  // Canonical brands and their detection
  // ---------------------------------------------------------------------------------------

  /** The seven brands the pass knows (`canonicalBrands`). */
  datatype CanonicalBrand = Rolex | PatekPhilippe | AudemarsPiguet | Omega | Cartier | Tudor | RichardMille

  function BrandName(b: CanonicalBrand): string {
    match b
    case Rolex => "Rolex"
    case PatekPhilippe => "Patek Philippe"
    case AudemarsPiguet => "Audemars Piguet"
    case Omega => "Omega"
    case Cartier => "Cartier"
    case Tudor => "Tudor"
    case RichardMille => "Richard Mille"
  }

  /** `brand.toUpperCase()`, written out. */
  function UpperName(b: CanonicalBrand): string {
    match b
    case Rolex => "ROLEX"
    case PatekPhilippe => "PATEK PHILIPPE"
    case AudemarsPiguet => "AUDEMARS PIGUET"
    case Omega => "OMEGA"
    case Cartier => "CARTIER"
    case Tudor => "TUDOR"
    case RichardMille => "RICHARD MILLE"
  }

  lemma UpperNameIsUpper(b: CanonicalBrand)
    ensures UpperName(b) == Upper(BrandName(b))
  {
    match b
    case Rolex => assert Upper("Rolex") == "ROLEX";
    case PatekPhilippe => UpperPatek();
    case AudemarsPiguet => UpperAudemars();
    case Omega => assert Upper("Omega") == "OMEGA";
    case Cartier => assert Upper("Cartier") == "CARTIER";
    case Tudor => assert Upper("Tudor") == "TUDOR";
    case RichardMille => UpperRichardMille();
  }

  /** The brands in the order the final `includes` loop tries them. */
  const CanonicalBrands: seq<CanonicalBrand> := [Rolex, PatekPhilippe, AudemarsPiguet, Omega, Cartier, Tudor, RichardMille]

  lemma CanonicalBrandsComplete(b: CanonicalBrand)
    ensures b in CanonicalBrands
  {
  }

  /** Position `i` holds a `\w` character. */
  predicate WordCharAt(s: string, i: int) { 0 <= i < |s| && IsWordChar(s[i]) }

  /** `\b` holds between positions `k - 1` and `k`. */
  predicate BoundaryAt(s: string, k: int) { WordCharAt(s, k - 1) != WordCharAt(s, k) }

  /** `/\bw\b/i` matches at index `k`. */
  predicate WordAt(s: string, w: string, k: int) {
    0 <= k && k + |w| <= |s| && BoundaryAt(s, k) && EqualsIgnoreCase(s[k..k + |w|], w) && BoundaryAt(s, k + |w|)
  }

  /** `/\bw\b/i.test(s)`. */
  predicate HasWord(s: string, w: string) {
    exists k :: 0 <= k <= |s| && WordAt(s, w, k)
  }

  /** `/\bA\.?P\.?\b/i` matches at index `k`, taking the optional dots as `dot1` and `dot2` say. */
  predicate APAt(s: string, k: int, dot1: bool, dot2: bool) {
    var p := k + (if dot1 then 2 else 1);
    var e := p + (if dot2 then 2 else 1);
    && 0 <= k && e <= |s|
    && BoundaryAt(s, k) && LowerChar(s[k]) == 'a' && (dot1 ==> s[k + 1] == '.')
    && LowerChar(s[p]) == 'p' && (dot2 ==> s[p + 1] == '.') && BoundaryAt(s, e)
  }

  /** `/\bA\.?P\.?\b/i.test(s)`: some way of taking the optional dots matches. */
  predicate HasAP(s: string) {
    exists k, dot1: bool, dot2: bool :: 0 <= k <= |s| && APAt(s, k, dot1, dot2)
  }

  /** `text.replace(/\s+/g, " ").trim()`. */
  function NormalizeText(text: string): string {
    Trim(CollapseSpaces(text))
  }

  /** The first brand of `brands` whose upper-cased name occurs in `upper`. */
  function FirstContained(upper: string, brands: seq<CanonicalBrand>): (r: Option<CanonicalBrand>)
    ensures r.Some? ==> r.value in brands && Contains(upper, UpperName(r.value))
    ensures r.None? ==> forall b :: b in brands ==> !Contains(upper, UpperName(b))
    decreases |brands|
  {
    if brands == [] then None
    else if Contains(upper, UpperName(brands[0])) then Some(brands[0])
    else FirstContained(upper, brands[1..])
  }

  /** The brand tests of `detectCanonicalBrand`, on already normalised text: the Rolex
      spellings first, then the AP, PATEK and AUDEMARS words, then any brand name contained
      in the text, ignoring case. */
  function DetectIn(normalized: string): Option<CanonicalBrand> {
    var upper := Upper(normalized);
    if Contains(upper, "R0LEX") || HasWord(normalized, "ROLEX") then Some(Rolex)
    else if HasAP(normalized) || HasWord(normalized, "AP") then Some(AudemarsPiguet)
    else if HasWord(normalized, "PATEK") then Some(PatekPhilippe)
    else if HasWord(normalized, "AUDEMARS") then Some(AudemarsPiguet)
    else FirstContained(upper, CanonicalBrands)
  }

  /** `detectCanonicalBrand`. */
  function DetectCanonicalBrand(text: string): Option<CanonicalBrand> {
    DetectIn(NormalizeText(text))
  }

  /** What counts as evidence for a brand in normalised text: its full name in any case, a
      Rolex spelling for Rolex, the PATEK word for Patek Philippe, an AP or AUDEMARS word for
      Audemars Piguet. */
  predicate Mentions(n: string, b: CanonicalBrand) {
    || Contains(Upper(n), UpperName(b))
    || (b == Rolex && RolexSpelling(n))
    || (b == PatekPhilippe && HasWord(n, "PATEK"))
    || (b == AudemarsPiguet && (HasAP(n) || HasWord(n, "AP") || HasWord(n, "AUDEMARS")))
  }

  /** `R0LEX` anywhere, or `ROLEX` as a word, in any case. */
  predicate RolexSpelling(n: string) {
    Contains(Upper(n), "R0LEX") || HasWord(n, "ROLEX")
  }

  /** A detected brand is mentioned in the text. */
  lemma DetectSound(text: string)
    ensures DetectCanonicalBrand(text).Some? ==> Mentions(NormalizeText(text), DetectCanonicalBrand(text).value)
  {
    var n := NormalizeText(text);
    var upper := Upper(n);
    if RolexSpelling(n) {
    } else if HasAP(n) || HasWord(n, "AP") {
    } else if HasWord(n, "PATEK") {
    } else if HasWord(n, "AUDEMARS") {
    } else {
      var r := FirstContained(upper, CanonicalBrands);
      assert DetectCanonicalBrand(text) == r;
    }
  }

  /** Detection fails exactly when no brand is mentioned. */
  lemma DetectComplete(text: string)
    ensures DetectCanonicalBrand(text).None? <==> forall b :: !Mentions(NormalizeText(text), b)
  {
    var n := NormalizeText(text);
    assert DetectCanonicalBrand(text) == DetectIn(n);
    if DetectIn(n).None? {
      DetectInNone(n);
    } else {
      DetectSound(text);
    }
  }

  lemma DetectInNone(n: string)
    requires DetectIn(n).None?
    ensures forall b :: !Mentions(n, b)
  {
    assert FirstContained(Upper(n), CanonicalBrands).None?;
    forall b ensures !Mentions(n, b) {
      CanonicalBrandsComplete(b);
    }
  }

  /** A Rolex spelling wins over every other brand, and Rolex is detected for no other reason
      than a Rolex spelling or the name itself. */
  lemma DetectRolexFirst(text: string)
    ensures var n := NormalizeText(text);
      && (RolexSpelling(n) ==> DetectCanonicalBrand(text) == Some(Rolex))
      && (DetectCanonicalBrand(text) == Some(Rolex) ==> RolexSpelling(n) || Contains(Upper(n), "ROLEX"))
  {
  }

  /** Detection does not depend on how the whitespace of the text is laid out. */
  lemma DetectIgnoresLayout(text: string)
    ensures DetectCanonicalBrand(NormalizeText(text)) == DetectCanonicalBrand(text)
  {
    CollapseShape(text);
    TrimKeepsSingleSpaced(CollapseSpaces(text));
    TidyIsFixed(NormalizeText(text));
    assert NormalizeText(NormalizeText(text)) == NormalizeText(text);
  }

  // ---------------------------------------------------------------------------------------
  // Condition labels
  // ---------------------------------------------------------------------------------------

  /** `canonicalMap`: upper-cased, single-spaced labels and the label each stands for. */
  const CanonicalMap: map<string, string> := map[
    "BRAND NEW" := "Brand New",
    "BRAND NEW UNWORN" := "Brand New Unworn",
    "NEW UNWORN" := "Brand New Unworn",
    "UNWORN" := "Unworn",
    "MINT" := "Mint",
    "LIKE NEW" := "Like New",
    "EXCELLENT" := "Excellent",
    "VERY GOOD" := "Very Good",
    "GOOD" := "Good",
    "FAIR" := "Fair"
  ]

  /** `word ? word[0].toUpperCase() + word.slice(1) : word`. */
  function Capitalize(w: string): string {
    if w == [] then w else [UpperChar(w[0])] + w[1..]
  }

  function CapitalizeEach(ws: seq<string>): seq<string> {
    seq(|ws|, i requires 0 <= i < |ws| => Capitalize(ws[i]))
  }

  /** `s.split(/\s+/)`: every maximal run of whitespace separates two pieces. */
  function SplitOnWhitespace(s: string): (r: seq<string>)
    ensures |r| >= 1
    decreases |s|
  {
    if s == [] then [""]
    else if IsSpace(s[0]) then [""] + SplitOnWhitespace(TrimStart(s))
    else
      var rest := SplitOnWhitespace(s[1..]);
      [[s[0]] + rest[0]] + rest[1..]
  }

  /** `normalizeCondition`: a blank value is returned as given; otherwise the trimmed,
      single-spaced value becomes its `canonicalMap` label when its upper-case form is a key,
      and is title-cased word by word when it is not. */
  function NormalizeCondition(value: string): string {
    var trimmed := Trim(value);
    if trimmed == [] then value
    else
      var normalized := CollapseSpaces(trimmed);
      var upper := Upper(normalized);
      if upper in CanonicalMap then CanonicalMap[upper]
      else Join(CapitalizeEach(SplitOnWhitespace(Lower(normalized))), " ")
  }

  /** The reference form of title case: the first character of the text and every character
      after a space are upper-cased. */
  function TitleCase(s: string): string {
    seq(|s|, i requires 0 <= i < |s| => if i == 0 || s[i - 1] == ' ' then UpperChar(s[i]) else s[i])
  }

  /** Every word starts with a character that is not a lower-case letter and goes on without
      upper-case letters. */
  predicate TitleCased(s: string) {
    forall i :: 0 <= i < |s| ==>
      if i == 0 || s[i - 1] == ' ' then !IsLowerLetter(s[i]) else !IsUpperLetter(s[i])
  }

  /** The index of the first `c` in `s`, or `|s|`. */
  function IndexOf(s: string, c: char): (k: nat)
    ensures k <= |s| && c !in s[..k] && (k < |s| ==> s[k] == c)
    decreases |s|
  {
    if s == [] || s[0] == c then 0 else 1 + IndexOf(s[1..], c)
  }

  lemma TitleCaseOfWord(w: string)
    requires ' ' !in w
    ensures TitleCase(w) == Capitalize(w)
  {
  }

  lemma TitleCaseOfSplit(w: string, rest: string)
    requires ' ' !in w
    ensures TitleCase(w + " " + rest) == Capitalize(w) + " " + TitleCase(rest)
  {
    var s := w + " " + rest;
    var r := Capitalize(w) + " " + TitleCase(rest);
    assert |Capitalize(w)| == |w|;
    forall i | 0 <= i < |s| ensures TitleCase(s)[i] == r[i] {
      if i < |w| {
        assert s[i] == w[i] && r[i] == Capitalize(w)[i];
        if i > 0 {
          assert s[i - 1] == w[i - 1];
        }
      } else if i == |w| {
        assert s[i] == ' ' && r[i] == ' ';
      } else {
        assert s[i] == rest[i - |w| - 1];
        if i > |w| + 1 {
          assert s[i - 1] == rest[i - |w| - 2];
        }
      }
    }
  }

  /** Upper-casing the first letter of every space-separated word is `TitleCase`. */
  lemma {:induction false} CapitalizedWordsAreTitleCase(s: string)
    ensures Join(CapitalizeEach(Split(s, ' ')), " ") == TitleCase(s)
    decreases |s|
  {
    var k := IndexOf(s, ' ');
    if k == |s| {
      assert s[..k] == s;
      SplitWord(s, "", ' ');
      assert CapitalizeEach([s]) == [Capitalize(s)];
      TitleCaseOfWord(s);
    } else {
      var w, rest := s[..k], s[k + 1..];
      assert s == w + [' '] + rest;
      SplitWord(w, rest, ' ');
      CapitalizedWordsAreTitleCase(rest);
      CapitalizeJoinCons(w, Split(rest, ' '));
      TitleCaseOfSplit(w, rest);
    }
  }

  lemma CapitalizeJoinCons(w: string, ws: seq<string>)
    requires ws != []
    ensures Join(CapitalizeEach([w] + ws), " ") == Capitalize(w) + " " + Join(CapitalizeEach(ws), " ")
  {
    var cs := CapitalizeEach([w] + ws);
    assert cs[1..] == CapitalizeEach(ws);
  }

  /** On single-spaced text `split(/\s+/)` is the split on the plain space. */
  lemma {:induction false} SplitOnWhitespaceOfSingleSpaced(s: string)
    requires SingleSpaced(s)
    ensures SplitOnWhitespace(s) == Split(s, ' ')
    decreases |s|
  {
    if s != [] {
      SingleSpacedTail(s);
      SplitOnWhitespaceOfSingleSpaced(s[1..]);
      if IsSpace(s[0]) {
        assert s[0] == ' ';
        assert |s| == 1 || !IsSpace(s[1]);
        assert TrimStart(s) == TrimStart(s[1..]);
        assert TrimStart(s[1..]) == s[1..];
      }
    }
  }

  /** Upper-casing one character keeps its lower-case form, never makes whitespace and
      leaves no lower-case letter. */
  lemma UpperCharFacts(c: char)
    ensures LowerChar(UpperChar(c)) == LowerChar(c) && UpperChar(UpperChar(c)) == UpperChar(c)
    ensures (IsSpace(UpperChar(c)) <==> IsSpace(c)) && (UpperChar(c) == ' ' <==> c == ' ')
    ensures !IsLowerLetter(UpperChar(c))
  {
  }

  /** Title case changes only the case of letters at word starts. */
  lemma TitleCaseCase(s: string)
    ensures |TitleCase(s)| == |s|
    ensures Lower(TitleCase(s)) == Lower(s) && Upper(TitleCase(s)) == Upper(s)
  {
    var r := TitleCase(s);
    forall i | 0 <= i < |s| ensures LowerChar(r[i]) == LowerChar(s[i]) && UpperChar(r[i]) == UpperChar(s[i]) {
      UpperCharFacts(s[i]);
    }
  }

  lemma TitleCaseTidy(s: string)
    requires Tidy(s)
    ensures Tidy(TitleCase(s))
  {
    var r := TitleCase(s);
    forall i | 0 <= i < |s| ensures (IsSpace(r[i]) <==> IsSpace(s[i])) && (r[i] == ' ' <==> s[i] == ' ') {
      UpperCharFacts(s[i]);
    }
  }

  lemma TitleCaseIsTitleCased(s: string)
    requires forall i :: 0 <= i < |s| ==> !IsUpperLetter(s[i])
    ensures TitleCased(TitleCase(s))
  {
    var r := TitleCase(s);
    forall i | 0 <= i < |s| ensures (r[i] == ' ' <==> s[i] == ' ') && !IsLowerLetter(UpperChar(s[i])) {
      UpperCharFacts(s[i]);
    }
  }

  /** The title-case branch of `normalizeCondition` on tidy text. */
  lemma TitleBranch(n: string)
    requires Tidy(n)
    ensures Join(CapitalizeEach(SplitOnWhitespace(Lower(n))), " ") == TitleCase(Lower(n))
    ensures Tidy(Lower(n))
  {
    LowerKeepsShape(n);
    SplitOnWhitespaceOfSingleSpaced(Lower(n));
    CapitalizedWordsAreTitleCase(Lower(n));
  }

  lemma CanonicalKeysUpper()
    ensures forall k :: k in CanonicalMap ==> Upper(k) == k
  {
  }

  /** The label `v` is tidy and its own upper-case form maps back to it. */
  ghost predicate LabelFixed(v: string) {
    v != [] && Tidy(v) && Upper(v) in CanonicalMap && CanonicalMap[Upper(v)] == v
  }

  // One lemma per label of the map: each needs only its own literal's upper-case form, and
  // proving the labels one at a time keeps every proof obligation small. `CanonicalLabelsFixed`
  // gathers them.
  lemma LabelBrandNewFixed()
    ensures LabelFixed("Brand New")
  {
    assert Upper("Brand New") == "BRAND NEW";
  }

  lemma LabelBrandNewUnwornFixed()
    ensures LabelFixed("Brand New Unworn")
  {
    LabelBrandNewUnwornTidy();
    assert Upper("Brand New Unworn") == "BRAND NEW UNWORN";
  }

  lemma LabelBrandNewUnwornTidy()
    ensures Tidy("Brand New Unworn")
  {
    var v := "Brand New Unworn";
    assert forall i :: 0 <= i < |v| && IsSpace(v[i]) ==> i == 5 || i == 9;
  }

  lemma LabelUnwornFixed()
    ensures LabelFixed("Unworn")
  {
    assert Upper("Unworn") == "UNWORN";
  }

  lemma LabelMintFixed()
    ensures LabelFixed("Mint")
  {
    assert Upper("Mint") == "MINT";
  }

  lemma LabelLikeNewFixed()
    ensures LabelFixed("Like New")
  {
    assert Upper("Like New") == "LIKE NEW";
  }

  lemma LabelExcellentFixed()
    ensures LabelFixed("Excellent")
  {
    assert Upper("Excellent") == "EXCELLENT";
  }

  lemma LabelVeryGoodFixed()
    ensures LabelFixed("Very Good")
  {
    assert Upper("Very Good") == "VERY GOOD";
  }

  lemma LabelGoodFixed()
    ensures LabelFixed("Good")
  {
    assert Upper("Good") == "GOOD";
  }

  lemma LabelFairFixed()
    ensures LabelFixed("Fair")
  {
    assert Upper("Fair") == "FAIR";
  }

  /** Every label of the map is tidy, and is mapped to itself by its own upper-case form. */
  lemma CanonicalLabelsFixed()
    ensures forall k :: k in CanonicalMap ==> LabelFixed(CanonicalMap[k])
  {
    LabelBrandNewFixed();
    LabelBrandNewUnwornFixed();
    LabelUnwornFixed();
    LabelMintFixed();
    LabelLikeNewFixed();
    LabelExcellentFixed();
    LabelVeryGoodFixed();
    LabelGoodFixed();
    LabelFairFixed();
  }

  /** The value `normalizeCondition` works on. */
  function ConditionShape(value: string): string {
    CollapseSpaces(Trim(value))
  }

  lemma ConditionShapeTidy(value: string)
    ensures Tidy(ConditionShape(value)) && (ConditionShape(value) == [] <==> Blank(value))
  {
    CollapseOfTrimmedIsTidy(Trim(value));
    CollapseShape(Trim(value));
  }

  /** A blank value comes back unchanged; any other comes back tidy and non-empty, either as
      the map's label for it or, when it has none, as the value itself in title case. */
  lemma NormalizeConditionMeaning(value: string)
    ensures Blank(value) ==> NormalizeCondition(value) == value
    ensures !Blank(value) ==>
      var n, r := ConditionShape(value), NormalizeCondition(value);
      && r != [] && Tidy(r)
      && (Upper(n) in CanonicalMap ==> r == CanonicalMap[Upper(n)])
      && (Upper(n) !in CanonicalMap ==> EqualsIgnoreCase(r, n) && TitleCased(r))
  {
    if !Blank(value) {
      var n := ConditionShape(value);
      ConditionShapeTidy(value);
      if Upper(n) in CanonicalMap {
        CanonicalLabelsFixed();
      } else {
        TitleBranch(n);
        LowerKeepsShape(n);
        TitleCaseCase(Lower(n));
        TitleCaseTidy(Lower(n));
        TitleCaseIsTitleCased(Lower(n));
      }
    }
  }

  /** Normalising a normalised condition changes nothing. */
  lemma NormalizeConditionIdempotent(value: string)
    ensures NormalizeCondition(NormalizeCondition(value)) == NormalizeCondition(value)
  {
    if !Blank(value) {
      var n := ConditionShape(value);
      var r := NormalizeCondition(value);
      ConditionShapeTidy(value);
      if Upper(n) in CanonicalMap {
        CanonicalLabelsFixed();
        TidyIsFixed(r);
      } else {
        TitleBranch(n);
        LowerKeepsShape(n);
        TitleCaseCase(Lower(n));
        TitleCaseTidy(Lower(n));
        TidyIsFixed(r);
        assert Upper(r) == Upper(n);
        assert Lower(r) == Lower(n);
      }
    }
  }

  /** The result depends only on the value's words up to case: values that collapse to the
      same text ignoring case normalise alike. */
  lemma NormalizeConditionIgnoresCaseAndLayout(a: string, b: string)
    requires !Blank(a) && !Blank(b)
    requires EqualsIgnoreCase(ConditionShape(a), ConditionShape(b))
    ensures NormalizeCondition(a) == NormalizeCondition(b)
  {
    LowerKeepsShape(ConditionShape(a));
    LowerKeepsShape(ConditionShape(b));
  }

  /** Every key of the map, in any case and with any spacing, gives that key's label. */
  lemma NormalizeConditionOfKey(value: string, k: string)
    requires k in CanonicalMap && !Blank(value)
    requires EqualsIgnoreCase(ConditionShape(value), k)
    ensures NormalizeCondition(value) == CanonicalMap[k]
  {
    CanonicalKeysUpper();
    LowerKeepsShape(ConditionShape(value));
    LowerKeepsShape(k);
  }

  lemma {:induction false} CollapseSpaceFree(a: string, rest: string)
    requires NoSpaces(a)
    ensures CollapseSpaces(a + rest) == a + CollapseSpaces(rest)
    decreases |a|
  {
    if a != [] {
      CollapseSpaceFree(a[1..], rest);
      CollapseSpaceFreeStep(a, rest);
    } else {
      assert a + rest == rest;
    }
  }

  lemma CollapseSpaceFreeStep(a: string, rest: string)
    requires a != [] && NoSpaces(a)
    requires CollapseSpaces(a[1..] + rest) == a[1..] + CollapseSpaces(rest)
    ensures CollapseSpaces(a + rest) == a + CollapseSpaces(rest)
  {
    var h, t := [a[0]], a[1..];
    assert a == h + t;
    ConcatAssoc(h, t, rest);
    CollapseCons(a[0], t + rest);
    ConcatAssoc(h, t, CollapseSpaces(rest));
  }

  /** Two words with a run of spaces between them collapse to the words with one space. */
  lemma ShapeOfSpacedWords(a: string, gap: string, b: string)
    requires a != [] && b != [] && NoSpaces(a) && NoSpaces(b)
    requires gap != [] && forall i :: 0 <= i < |gap| ==> IsSpace(gap[i])
    ensures !Blank(a + gap + b) && ConditionShape(a + gap + b) == a + " " + b
  {
    var s := a + gap + b;
    var t := gap + b;
    assert s == a + t;
    assert s[0] == a[0] && s[|s| - 1] == b[|b| - 1];
    assert Trimmed(s);
    TrimOfTrimmed(s);
    CollapseSpaceFree(a, t);
    CollapseGap(gap, b);
  }

  lemma CollapseGap(gap: string, b: string)
    requires b != [] && NoSpaces(b)
    requires gap != [] && forall i :: 0 <= i < |gap| ==> IsSpace(gap[i])
    ensures CollapseSpaces(gap + b) == " " + b
  {
    var t := gap + b;
    assert t[0] == gap[0];
    CollapseSpaceRun(t);
    TrimStartOfSpaces(gap, b);
    CollapseOfSingleSpaced(b);
  }

  lemma CollapseSpaceRun(t: string)
    requires t != [] && IsSpace(t[0])
    ensures CollapseSpaces(t) == " " + CollapseSpaces(TrimStart(t))
  {
  }

  lemma {:induction false} TrimStartOfSpaces(gap: string, b: string)
    requires forall i :: 0 <= i < |gap| ==> IsSpace(gap[i])
    requires b != [] && !IsSpace(b[0])
    ensures TrimStart(gap + b) == b
    decreases |gap|
  {
    if gap != [] {
      assert (gap + b)[1..] == gap[1..] + b;
      TrimStartOfSpaces(gap[1..], b);
    } else {
      assert gap + b == b;
    }
  }

  lemma NewUnwornKey()
    ensures "NEW UNWORN" in CanonicalMap && CanonicalMap["NEW UNWORN"] == "Brand New Unworn"
    ensures EqualsIgnoreCase("new" + " " + "unworn", "NEW UNWORN")
  {
    assert Lower("NEW UNWORN") == "new" + " " + "unworn";
  }

  /** The example of the map keys: "new", any run of whitespace, "unworn" gives the label
      "Brand New Unworn". */
  lemma NewUnwornExample(gap: string)
    requires gap != [] && forall i :: 0 <= i < |gap| ==> IsSpace(gap[i])
    ensures NormalizeCondition("new" + gap + "unworn") == "Brand New Unworn"
  {
    ShapeOfSpacedWords("new", gap, "unworn");
    NewUnwornKey();
    NormalizeConditionOfKey("new" + gap + "unworn", "NEW UNWORN");
  }

  // ---------------------------------------------------------------------------------------
  // Brand prefixes in model names
  // ---------------------------------------------------------------------------------------

  /** The spellings `stripBrandPrefix` removes from the front of a model name, in order. */
  function Aliases(b: CanonicalBrand): seq<string> {
    match b
    case Rolex => ["Rolex"]
    case Omega => ["Omega"]
    case Cartier => ["Cartier"]
    case Tudor => ["Tudor"]
    case RichardMille => ["Richard Mille", "RM"]
    case PatekPhilippe => ["Patek Philippe", "Patek"]
    case AudemarsPiguet => ["Audemars Piguet", "Audemars", "AP", "A.P."]
  }

  /** The escaped pattern `^p\s+` with the `i` flag matches at the start of `s`. */
  predicate AliasPrefixed(s: string, p: string) {
    |p| < |s| && EqualsIgnoreCase(s[..|p|], p) && IsSpace(s[|p|])
  }

  /** `s.replace(new RegExp("^" + escaped + "\\s+", "i"), "")`: the alias goes together with
      the whole run of whitespace after it. */
  function StripAlias(s: string, p: string): string {
    if AliasPrefixed(s, p) then TrimStart(s[|p|..]) else s
  }

  /** Every alias in turn is stripped from the result of the previous one. */
  function StripAliases(s: string, ps: seq<string>): string
    decreases |ps|
  {
    if ps == [] then s else StripAliases(StripAlias(s, ps[0]), ps[1..])
  }

  lemma EndsWithTransitive(a: string, b: string, c: string)
    requires EndsWith(a, b) && EndsWith(b, c)
    ensures EndsWith(a, c)
  {
    assert a[|a| - |c|..] == a[|a| - |b|..][|b| - |c|..];
  }

  lemma StripAliasSuffix(s: string, p: string)
    ensures EndsWith(s, StripAlias(s, p))
  {
    if AliasPrefixed(s, p) {
      var x := s[|p|..];
      var r := TrimStart(x);
      assert x[|x| - |r|..] == s[|s| - |r|..];
    }
  }

  lemma {:induction false} StripAliasesSuffix(s: string, ps: seq<string>)
    ensures EndsWith(s, StripAliases(s, ps))
    decreases |ps|
  {
    if ps != [] {
      var t := StripAlias(s, ps[0]);
      StripAliasSuffix(s, ps[0]);
      StripAliasesSuffix(t, ps[1..]);
      EndsWithTransitive(s, t, StripAliases(t, ps[1..]));
    }
  }

  lemma {:induction false} StripAliasesUnprefixed(s: string, ps: seq<string>)
    requires forall p :: p in ps ==> !AliasPrefixed(s, p)
    ensures StripAliases(s, ps) == s
    decreases |ps|
  {
    if ps != [] {
      StripAliasesUnprefixed(s, ps[1..]);
    }
  }

  /** Trimming a suffix of a trimmed string leaves a suffix of it. */
  lemma TrimOfSuffix(t: string, x: string)
    requires Trimmed(t) && EndsWith(t, x)
    ensures EndsWith(t, Trim(x))
  {
    var y := TrimStart(x);
    EndsWithTransitive(t, x, y);
    if y != [] {
      assert y[|y| - 1] == t[|t| - 1];
      assert TrimEnd(y) == y;
    }
  }

  /** `stripBrandPrefix`: the model name, trimmed, with each alias of the brand removed in
      turn from its front, trimmed again. The result is a trimmed suffix of the trimmed
      name, and is that name itself when no alias followed by whitespace starts it. */
  method StripBrandPrefix(model: string, brand: CanonicalBrand) returns (r: string)
    ensures r == Trim(StripAliases(Trim(model), Aliases(brand)))
    ensures Trimmed(r) && EndsWith(Trim(model), r)
    ensures (forall p :: p in Aliases(brand) ==> !AliasPrefixed(Trim(model), p)) ==> r == Trim(model)
  {
    var aliases := Aliases(brand);
    var result := StripEachAlias(Trim(model), aliases);
    r := Trim(result);
    StrippedModelShape(model, aliases, result);
  }

  /** The loop of `stripBrandPrefix` over the aliases. */
  method StripEachAlias(s: string, aliases: seq<string>) returns (result: string)
    ensures result == StripAliases(s, aliases)
  {
    result := s;
    for i := 0 to |aliases|
      invariant StripAliases(result, aliases[i..]) == StripAliases(s, aliases)
    {
      StripAliasesStep(result, aliases, i);
      result := StripAlias(result, aliases[i]);
    }
    assert aliases[|aliases|..] == [];
  }

  lemma StripAliasesStep(s: string, ps: seq<string>, i: nat)
    requires i < |ps|
    ensures StripAliases(s, ps[i..]) == StripAliases(StripAlias(s, ps[i]), ps[i + 1..])
  {
    assert ps[i..][1..] == ps[i + 1..];
  }

  lemma StrippedModelShape(model: string, aliases: seq<string>, result: string)
    requires result == StripAliases(Trim(model), aliases)
    ensures Trimmed(Trim(result)) && EndsWith(Trim(model), Trim(result))
    ensures (forall p :: p in aliases ==> !AliasPrefixed(Trim(model), p)) ==> Trim(result) == Trim(model)
  {
    StripAliasesSuffix(Trim(model), aliases);
    TrimOfSuffix(Trim(model), result);
    if forall p :: p in aliases ==> !AliasPrefixed(Trim(model), p) {
      StripAliasesUnprefixed(Trim(model), aliases);
      TrimIdempotent(model);
    }
  }

  // ---------------------------------------------------------------------------------------
  // The pass over the inventory
  // ---------------------------------------------------------------------------------------

  /** The columns the pass reads from an inventory row. */
  datatype Item = Item(brand: string, model: string, condition: string, description: string, tags: seq<string>)

  /** The `data` of an update: a value for each field that is written. */
  datatype Patch = Patch(brand: Option<string>, model: Option<string>, condition: Option<string>, tags: Option<seq<string>>)

  /** `[brand, model, description].filter(Boolean).join(" ")`. */
  function Candidates(item: Item): string {
    Join(NonEmptyOnly([item.brand, item.model, item.description]), " ")
  }

  /** `/^\d{4}$/.test(brand)`. */
  predicate YearLike(s: string) { |s| == 4 && AllDigits(s) }

  /** `needsBrandFix`. */
  predicate NeedsBrandFix(brand: string, detected: Option<CanonicalBrand>) {
    YearLike(brand) || brand == "AP" || (detected.Some? && brand != BrandName(detected.value))
  }

  /** `nextModel`: both arms of the source's conditional strip the brand prefix whenever a
      brand is detected. */
  function NextModel(model: string, detected: Option<CanonicalBrand>): string {
    if detected.Some? then Trim(StripAliases(Trim(model), Aliases(detected.value))) else model
  }

  /** `nextTags`: the detected brand name is added when the tags lack it, through a `Set`. */
  function NextTags(tags: seq<string>, detected: Option<CanonicalBrand>): seq<string> {
    if detected.Some? && BrandName(detected.value) !in tags then Dedupe(tags + [BrandName(detected.value)])
    else tags
  }

  /** The brand is rewritten exactly when one is detected under a different name. */
  predicate BrandChanges(brand: string, detected: Option<CanonicalBrand>) {
    detected.Some? && brand != BrandName(detected.value)
  }

  /** The values the pass computes for one item before it decides: the detected brand, the
      next model name, the next condition and the next tags. */
  datatype Next = Next(detected: Option<CanonicalBrand>, model: string, condition: string, tags: seq<string>)

  function NextFor(item: Item): Next {
    var detected := DetectCanonicalBrand(Candidates(item));
    Next(detected, NextModel(item.model, detected), NormalizeCondition(item.condition), NextTags(item.tags, detected))
  }

  /** `shouldUpdate` and the update `data`, from the computed values. */
  function PlanWith(item: Item, next: Next): Option<Patch> {
    var shouldUpdate :=
      || (NeedsBrandFix(item.brand, next.detected) && BrandChanges(item.brand, next.detected))
      || next.condition != item.condition
      || next.model != item.model
      || |next.tags| != |item.tags|;
    if !shouldUpdate then None
    else Some(Patch(
      if BrandChanges(item.brand, next.detected) then Some(BrandName(next.detected.value)) else None,
      if next.model != item.model then Some(next.model) else None,
      if next.condition != item.condition then Some(next.condition) else None,
      if |next.tags| != |item.tags| then Some(next.tags) else None))
  }

  /** `prisma.inventory.update`: the written fields take their new values. */
  function Apply(item: Item, p: Patch): Item {
    item.(brand := p.brand.GetOr(item.brand), model := p.model.GetOr(item.model),
          condition := p.condition.GetOr(item.condition), tags := p.tags.GetOr(item.tags))
  }

  /** The row after the pass has decided with the values `next`. */
  function Outcome(item: Item, next: Next): Item {
    match PlanWith(item, next)
    case None => item
    case Some(p) => Apply(item, p)
  }

  /** The update the pass makes to one item, or `None` when it skips the item. */
  function PlanFor(item: Item): Option<Patch> {
    PlanWith(item, NextFor(item))
  }

  /** The row after the pass. */
  function Backfilled(item: Item): Item {
    Outcome(item, NextFor(item))
  }

  /** `nextTags` keeps every tag, holds the detected name, and adds nothing else; on tags
      without repeats it is the tags with the name appended when they lack it. */
  lemma NextTagsMeaning(tags: seq<string>, detected: Option<CanonicalBrand>)
    ensures forall t :: t in tags ==> t in NextTags(tags, detected)
    ensures detected.Some? ==> BrandName(detected.value) in NextTags(tags, detected)
    ensures forall t :: t in NextTags(tags, detected) ==> t in tags || (detected.Some? && t == BrandName(detected.value))
    ensures Distinct(tags) && detected.Some? && BrandName(detected.value) !in tags ==>
      NextTags(tags, detected) == tags + [BrandName(detected.value)]
  {
    if detected.Some? && BrandName(detected.value) !in tags {
      var xs := tags + [BrandName(detected.value)];
      DedupeMeaning(xs);
      if Distinct(tags) {
        DedupeOfDistinct(xs);
      }
    }
  }

  /** Tags that repeat a value hide the new brand tag: the de-duplicated list is no longer
      than before, so the count test decides the tags are unchanged. */
  lemma RepeatedTagHidesDetected(t: string, b: CanonicalBrand)
    requires t != BrandName(b)
    ensures BrandName(b) !in [t, t] && BrandName(b) in NextTags([t, t], Some(b))
    ensures |NextTags([t, t], Some(b))| == |[t, t]|
  {
    var xs := [t, t, BrandName(b)];
    assert xs[..2][..1] == [t] && xs[..2] == [t, t];
    assert Dedupe([t]) == [t] by {
      assert [t][..0] == [];
    }
    assert Dedupe([t, t]) == [t];
    assert Dedupe(xs) == [t, BrandName(b)];
  }

  /** After the pass the brand is the detected name, when there is one; the model, the
      condition and, when its length differs, the tag list are the computed ones; the
      description is kept. */
  lemma OutcomeFields(item: Item, next: Next)
    ensures var r := Outcome(item, next);
      && r.brand == (if next.detected.Some? then BrandName(next.detected.value) else item.brand)
      && r.model == next.model
      && r.condition == next.condition
      && r.description == item.description
      && r.tags == (if |next.tags| != |item.tags| then next.tags else item.tags)
  {
  }

  /** An item is written exactly when the update changes it, and every written field gets a
      value different from the old one. */
  lemma PlanWritesOnlyChanges(item: Item, next: Next)
    ensures PlanWith(item, next).Some? <==> Outcome(item, next) != item
    ensures PlanWith(item, next).Some? ==>
      var p := PlanWith(item, next).value;
      && (p.brand.Some? ==> p.brand.value != item.brand)
      && (p.model.Some? ==> p.model.value != item.model)
      && (p.condition.Some? ==> p.condition.value != item.condition)
      && (p.tags.Some? ==> p.tags.value != item.tags)
  {
  }

  /** The pass over one row: the brand becomes the detected name, the model loses the
      brand's prefixes, the condition is normalised, and the row is written exactly when
      this changes it. */
  lemma BackfilledMeaning(item: Item)
    ensures var next := NextFor(item);
      var r := Backfilled(item);
      && r.brand == (if next.detected.Some? then BrandName(next.detected.value) else item.brand)
      && r.model == NextModel(item.model, next.detected)
      && r.condition == NormalizeCondition(item.condition)
      && r.description == item.description
      && (PlanFor(item).Some? <==> r != item)
  {
    OutcomeFields(item, NextFor(item));
    PlanWritesOnlyChanges(item, NextFor(item));
  }

  /** The pass writes the item. */
  predicate Writes(item: Item) { PlanFor(item).Some? }

  /** The number of items among `ids` that satisfy `w`. */
  function CountWhere(start: map<string, Item>, ids: seq<string>, w: Item -> bool): nat
    requires forall id :: id in ids ==> id in start
    decreases |ids|
  {
    if ids == [] then 0
    else
      var last := ids[|ids| - 1];
      CountWhere(start, ids[..|ids| - 1], w) + (if w(start[last]) then 1 else 0)
  }

  /** The table after the first `n` items of `ids` have been visited, each visited row
      replaced by `step` of its old value and the rows with `w` counted as updated. */
  ghost predicate BackfillState(start: map<string, Item>, rows: map<string, Item>, ids: seq<string>, n: nat,
                                updated: nat, skipped: nat, step: Item -> Item, w: Item -> bool)
    requires n <= |ids| && forall id :: id in ids ==> id in start
  {
    && rows.Keys == start.Keys
    && updated + skipped == n
    && updated == CountWhere(start, ids[..n], w)
    && forall id :: id in rows ==> rows[id] == (if id in ids[..n] then step(start[id]) else start[id])
  }

  /** `after` is `before` with the row `id` replaced by `v`. */
  ghost predicate RowReplaced(before: map<string, Item>, after: map<string, Item>, id: string, v: Item) {
    && after.Keys == before.Keys && id in after && after[id] == v
    && forall k :: k in before && k != id ==> after[k] == before[k]
  }

  /** Writing the planned update, or nothing when there is none, replaces the row by the
      outcome of the plan. */
  lemma RowOutcome(rows: map<string, Item>, id: string, next: Next, plan: Option<Patch>)
    requires id in rows && plan == PlanWith(rows[id], next)
    ensures plan.None? ==> RowReplaced(rows, rows, id, Outcome(rows[id], next))
    ensures plan.Some? ==> RowReplaced(rows, rows[id := Apply(rows[id], plan.value)], id, Outcome(rows[id], next))
  {
    var item := rows[id];
    if plan.None? {
      RowWritten(rows, id, item);
      assert rows[id := item] == rows;
    } else {
      RowWritten(rows, id, Apply(item, plan.value));
    }
  }

  lemma RowWritten(rows: map<string, Item>, id: string, v: Item)
    requires id in rows
    ensures RowReplaced(rows, rows[id := v], id, v)
  {
  }

  lemma NotYetVisited(start: map<string, Item>, rows: map<string, Item>, ids: seq<string>, n: nat,
                      updated: nat, skipped: nat, step: Item -> Item, w: Item -> bool)
    requires n < |ids| && Distinct(ids) && forall id :: id in ids ==> id in start
    requires BackfillState(start, rows, ids, n, updated, skipped, step, w)
    ensures ids[n] in rows && rows[ids[n]] == start[ids[n]]
  {
    assert ids[n] !in ids[..n];
  }

  lemma BackfillStep(start: map<string, Item>, before: map<string, Item>, after: map<string, Item>, ids: seq<string>,
                     n: nat, updated: nat, skipped: nat, step: Item -> Item, w: Item -> bool)
    requires n < |ids| && Distinct(ids) && forall id :: id in ids ==> id in start
    requires BackfillState(start, before, ids, n, updated, skipped, step, w)
    requires RowReplaced(before, after, ids[n], step(start[ids[n]]))
    ensures var wrote := w(start[ids[n]]);
      BackfillState(start, after, ids, n + 1,
        if wrote then updated + 1 else updated, if wrote then skipped else skipped + 1, step, w)
  {
    var id := ids[n];
    assert ids[..n + 1] == ids[..n] + [id];
    assert ids[..n + 1][..n] == ids[..n];
  }

  /** The body of `main`'s loop up to the write: detects the brand, computes the next model,
      condition and tags, and decides whether and what to update. */
  method PlanItem(item: Item) returns (plan: Option<Patch>)
    ensures plan == PlanFor(item)
  {
    var detected := DetectCanonicalBrand(Candidates(item));
    var nextModel := item.model;
    if detected.Some? {
      nextModel := StripBrandPrefix(item.model, detected.value);
    }
    var nextCondition := NormalizeCondition(item.condition);
    var nextTags := NextTags(item.tags, detected);
    var shouldUpdate :=
      || (NeedsBrandFix(item.brand, detected) && BrandChanges(item.brand, detected))
      || nextCondition != item.condition
      || nextModel != item.model
      || |nextTags| != |item.tags|;
    ghost var next := Next(detected, nextModel, nextCondition, nextTags);
    assert next == NextFor(item);
    if !shouldUpdate {
      plan := None;
    } else {
      plan := Some(Patch(
        if BrandChanges(item.brand, detected) then Some(BrandName(detected.value)) else None,
        if nextModel != item.model then Some(nextModel) else None,
        if nextCondition != item.condition then Some(nextCondition) else None,
        if |nextTags| != |item.tags| then Some(nextTags) else None));
    }
  }

  /** The inventory table, by row id. */
  class Inventory {
    var rows: map<string, Item>

    constructor(rows: map<string, Item>)
      ensures this.rows == rows
    {
      this.rows := rows;
    }

    /** One turn of `main`'s loop: plans the row's update and, unless the row is skipped,
        writes it. */
    method BackfillRow(id: string) returns (wrote: bool)
      requires id in rows
      modifies this
      ensures wrote == Writes(old(rows)[id])
      ensures RowReplaced(old(rows), rows, id, Backfilled(old(rows)[id]))
    {
      var item := rows[id];
      var plan := PlanItem(item);
      ghost var next := NextFor(item);
      RowOutcome(rows, id, next, plan);
      if plan.None? {
        wrote := false;
      } else {
        rows := rows[id := Apply(item, plan.value)];
        wrote := true;
      }
    }

    /** `main`: visits every row once, in the order `findMany` returned them, writes the
        planned update of each row that needs one, and counts the rows written and skipped. */
    method Backfill(ids: seq<string>) returns (updated: nat, skipped: nat)
      requires Distinct(ids) && forall id :: id in rows <==> id in ids
      modifies this
      ensures rows.Keys == old(rows).Keys
      ensures forall id :: id in rows ==> rows[id] == Backfilled(old(rows)[id])
      ensures updated + skipped == |ids|
      ensures updated == CountWhere(old(rows), ids, Writes)
    {
      ghost var start := rows;
      updated, skipped := 0, 0;
      for n := 0 to |ids|
        invariant BackfillState(start, rows, ids, n, updated, skipped, Backfilled, Writes)
      {
        var id := ids[n];
        NotYetVisited(start, rows, ids, n, updated, skipped, Backfilled, Writes);
        ghost var before, counted, passed := rows, updated, skipped;
        var wrote := BackfillRow(id);
        if wrote {
          updated := updated + 1;
        } else {
          skipped := skipped + 1;
        }
        BackfillStep(start, before, rows, ids, n, counted, passed, Backfilled, Writes);
      }
      assert ids[..|ids|] == ids;
    }
  }
}
