/**
 * The pure field normalisers of lib/importers/facebook.ts: brand detection, the
 * year, reference and condition parsers (each regular expression written out as a
 * scanner), model derivation, price parsing, image-list cleaning and the shapes an
 * import file may take.
 */
module ListingFields {
  import opened Prelude
  import opened Strings
  import opened Search
  import Slug

  // ---------------------------------------------------------------- brand

  const KnownBrands: seq<string> := ["Rolex", "Omega", "Audemars Piguet", "Patek Philippe", "AP"]

  /** The first of `brands` whose upper-case form begins `upper`. */
  function FirstPrefixBrand(upper: string, brands: seq<string>): (r: Option<nat>)
    ensures r.Some? ==> r.value < |brands| && StartsWith(upper, Upper(brands[r.value]))
    ensures r.Some? ==> forall j :: 0 <= j < r.value ==> !StartsWith(upper, Upper(brands[j]))
    ensures r.None? ==> forall j :: 0 <= j < |brands| ==> !StartsWith(upper, Upper(brands[j]))
    decreases |brands|
  {
    if brands == [] then None
    else if StartsWith(upper, Upper(brands[0])) then Some(0)
    else
      match FirstPrefixBrand(upper, brands[1..])
      case Some(k) => Some(k + 1)
      case None => None
  }

  /** `detectBrand`: "Rolex" for any `R0LEX`, else the first known brand that begins the
      upper-cased trimmed title (`AP` standing for Audemars Piguet), else the first word. */
  function DetectBrand(title: string): string {
    var normalized := Trim(title);
    var upper := Upper(normalized);
    if Contains(upper, "R0LEX") then "Rolex"
    else
      match FirstPrefixBrand(upper, KnownBrands)
      case Some(k) => BrandLabel(KnownBrands[k])
      case None =>
        var firstWord := Split(normalized, ' ')[0];
        if firstWord != [] then firstWord else "Rolex"
  }

  /** The name a vocabulary entry stands for: `AP` is Audemars Piguet. */
  function BrandLabel(entry: string): string {
    if entry == "AP" then "Audemars Piguet" else entry
  }

  /** The brand names `detectBrand` can return from its fixed vocabulary. */
  predicate IsKnownBrandName(b: string) {
    b == "Rolex" || b == "Omega" || b == "Audemars Piguet" || b == "Patek Philippe"
  }

  lemma KnownBrandsUpper()
    ensures Upper(KnownBrands[0]) == "ROLEX" && Upper(KnownBrands[1]) == "OMEGA"
    ensures Upper(KnownBrands[2]) == "AUDEMARS PIGUET" && Upper(KnownBrands[3]) == "PATEK PHILIPPE"
    ensures Upper(KnownBrands[4]) == "AP"
  {
    UpperShortNames();
    UpperAudemars();
    UpperPatek();
  }

  lemma UpperShortNames()
    ensures Upper("Rolex") == "ROLEX" && Upper("Omega") == "OMEGA" && Upper("AP") == "AP"
  {
    assert Upper("Rolex") == "ROLEX";
    assert Upper("Omega") == "OMEGA";
  }

  /** `detectBrand` never returns an empty name, and a blank title gives "Rolex". */
  lemma DetectBrandNonEmpty(title: string)
    ensures DetectBrand(title) != []
    ensures Blank(title) ==> DetectBrand(title) == "Rolex"
  {
    if Blank(title) {
      DetectBrandOfBlank(title);
    } else {
      DetectBrandNamesSomething(title);
    }
  }

  lemma DetectBrandOfBlank(title: string)
    requires Blank(title)
    ensures DetectBrand(title) == "Rolex"
  {
    var normalized := Trim(title);
    var upper := Upper(normalized);
    KnownBrandNames();
    assert |upper| == 0;
    assert !Contains(upper, "R0LEX");
    NoBrandBeginsShort(upper, KnownBrands);
    assert Split(normalized, ' ')[0] == [];
  }

  lemma DetectBrandNamesSomething(title: string)
    ensures DetectBrand(title) != []
  {
    var upper := Upper(Trim(title));
    if !Contains(upper, "R0LEX") {
      var m := FirstPrefixBrand(upper, KnownBrands);
      if m.Some? {
        KnownBrandNames();
        assert KnownBrands[m.value] != [];
      }
    }
  }

  /** Every entry of the vocabulary is non-empty, and every entry but `AP` is a brand name. */
  lemma KnownBrandNames()
    ensures forall j :: 0 <= j < |KnownBrands| ==> KnownBrands[j] != []
    ensures forall j :: 0 <= j < |KnownBrands| && KnownBrands[j] != "AP" ==> IsKnownBrandName(KnownBrands[j])
  {
  }

  lemma NoBrandBeginsShort(upper: string, brands: seq<string>)
    requires forall j :: 0 <= j < |brands| ==> |upper| < |brands[j]|
    ensures FirstPrefixBrand(upper, brands).None?
  {
  }

  /** No title begins with two different entries of the vocabulary: their upper-case forms
      differ within the shorter one. */
  lemma PrefixesExclusive(upper: string, i: nat, j: nat)
    requires i < |KnownBrands| && j < |KnownBrands|
    requires StartsWith(upper, Upper(KnownBrands[i])) && StartsWith(upper, Upper(KnownBrands[j]))
    ensures i == j
  {
    KnownBrandsUpper();
    var a, b := Upper(KnownBrands[i]), Upper(KnownBrands[j]);
    assert upper[0] == a[0] && upper[0] == b[0];
    assert upper[1] == a[1] && upper[1] == b[1];
  }

  /** Any `R0LEX` gives "Rolex"; otherwise the vocabulary entry that begins the upper-cased
      trimmed title gives its name (at most one entry can), so the result is a known name. */
  lemma DetectBrandKnown(title: string)
    requires var upper := Upper(Trim(title));
      Contains(upper, "R0LEX") || exists j :: 0 <= j < |KnownBrands| && StartsWith(upper, Upper(KnownBrands[j]))
    ensures IsKnownBrandName(DetectBrand(title))
    ensures Contains(Upper(Trim(title)), "R0LEX") ==> DetectBrand(title) == "Rolex"
    ensures forall j :: 0 <= j < |KnownBrands| && !Contains(Upper(Trim(title)), "R0LEX") && StartsWith(Upper(Trim(title)), Upper(KnownBrands[j]))
              ==> DetectBrand(title) == BrandLabel(KnownBrands[j])
  {
    var upper := Upper(Trim(title));
    if !Contains(upper, "R0LEX") {
      var i :| 0 <= i < |KnownBrands| && StartsWith(upper, Upper(KnownBrands[i]));
      DetectBrandPrefix(title, i);
      forall j | 0 <= j < |KnownBrands| && StartsWith(upper, Upper(KnownBrands[j]))
        ensures DetectBrand(title) == BrandLabel(KnownBrands[j])
      {
        DetectBrandPrefix(title, j);
      }
    }
  }

  /** Without `R0LEX`, a title that begins with vocabulary entry `j` is that entry's brand. */
  lemma DetectBrandPrefix(title: string, j: nat)
    requires !Contains(Upper(Trim(title)), "R0LEX")
    requires j < |KnownBrands| && StartsWith(Upper(Trim(title)), Upper(KnownBrands[j]))
    ensures DetectBrand(title) == BrandLabel(KnownBrands[j]) && IsKnownBrandName(BrandLabel(KnownBrands[j]))
  {
    var upper := Upper(Trim(title));
    var m := FirstPrefixBrand(upper, KnownBrands);
    assert m.Some?;
    PrefixesExclusive(upper, j, m.value);
    KnownBrandNames();
  }


  /** `AP`, when no longer brand name and no `R0LEX` applies, stands for Audemars Piguet. */
  lemma DetectBrandAP(title: string)
    requires var upper := Upper(Trim(title));
      && !Contains(upper, "R0LEX") && StartsWith(upper, "AP")
      && !StartsWith(upper, "ROLEX") && !StartsWith(upper, "OMEGA")
      && !StartsWith(upper, "AUDEMARS PIGUET") && !StartsWith(upper, "PATEK PHILIPPE")
    ensures DetectBrand(title) == "Audemars Piguet"
  {
    KnownBrandsUpper();
  }

  /** Any other non-blank title gives its first space-delimited word, a non-empty prefix of the
      trimmed title without spaces. */
  lemma DetectBrandFirstWord(title: string)
    requires var upper := Upper(Trim(title));
      && !Blank(title) && !Contains(upper, "R0LEX")
      && forall j :: 0 <= j < |KnownBrands| ==> !StartsWith(upper, Upper(KnownBrands[j]))
    ensures DetectBrand(title) == Split(Trim(title), ' ')[0]
    ensures StartsWith(Trim(title), DetectBrand(title)) && ' ' !in DetectBrand(title) && DetectBrand(title) != []
  {
  }

  // ---------------------------------------------------------------- year

  /** `/Year:\s*(\d{4})/i` matched at the start of `t`: the label, any whitespace, then four
      digits, whose value is the result. */
  function YearPrefix(t: string): Option<int> {
    if StartsWithIgnoreCase(t, "Year:") then
      var digits := TrimStart(t[5..]);
      if |digits| >= 4 && AllDigits(digits[..4]) then Some(DigitsValue(digits[..4])) else None
    else None
  }

  /** `/\b(19|20)\d{2}\b/` matches at index `i` of `s`. */
  predicate TitleYearAt(s: string, i: int) {
    && 0 <= i && i + 4 <= |s|
    && (i == 0 || !IsWordChar(s[i - 1]))
    && ((s[i] == '1' && s[i + 1] == '9') || (s[i] == '2' && s[i + 1] == '0'))
    && IsDigit(s[i + 2]) && IsDigit(s[i + 3])
    && (i + 4 == |s| || !IsWordChar(s[i + 4]))
  }

  /** The value of the first title year at index `i` or later. */
  function TitleYearFrom(s: string, i: nat): (r: Option<int>)
    ensures r.Some? ==> exists k :: i <= k && TitleYearAt(s, k) && r.value == DigitsValue(s[k..k + 4])
                                     && forall j :: i <= j < k ==> !TitleYearAt(s, j)
    ensures r.None? ==> forall k :: i <= k ==> !TitleYearAt(s, k)
    decreases |s| - i
  {
    if i + 4 > |s| then None
    else if TitleYearAt(s, i) then
      assert AllDigits(s[i..i + 4]);
      Some(DigitsValue(s[i..i + 4]))
    else TitleYearFrom(s, i + 1)
  }

  /** `parseYear`: the description's `Year:` value, else the first title year, else the
      current year (a parameter here). */
  function ParseYear(title: string, description: string, currentYear: int): int {
    match FirstMatch(description, YearPrefix)
    case Some(y) => y
    case None =>
      match TitleYearFrom(title, 0)
      case Some(y) => y
      case None => currentYear
  }

  lemma YearPrefixRange(t: string)
    ensures YearPrefix(t).Some? ==> 0 <= YearPrefix(t).value <= 9999
  {
    if YearPrefix(t).Some? {
      var d := TrimStart(t[5..])[..4];
      DigitsValueBound(d);
    }
  }

  lemma {:induction false} DigitsValueBound(s: string)
    requires AllDigits(s)
    ensures DigitsValue(s) < Pow10(|s|)
    decreases |s|
  {
    if s != [] {
      DigitsValueBound(s[..|s| - 1]);
    }
  }

  function Pow10(n: nat): (r: nat)
    ensures r >= 1
  {
    if n == 0 then 1 else 10 * Pow10(n - 1)
  }

  /** A title year lies in 1900..2099. */
  lemma TitleYearRange(s: string, i: int)
    requires TitleYearAt(s, i)
    ensures 1900 <= DigitsValue(s[i..i + 4]) <= 2099
  {
    var d := s[i..i + 4];
    DigitsValueFour(d);
  }

  lemma DigitsValueFour(d: string)
    requires |d| == 4 && AllDigits(d)
    ensures DigitsValue(d) == 1000 * DigitValue(d[0]) + 100 * DigitValue(d[1]) + 10 * DigitValue(d[2]) + DigitValue(d[3])
  {
    assert d[..3][..2] == d[..2] && d[..2][..1] == d[..1] && d[..1][..0] == [];
    assert DigitsValue(d[..1]) == DigitValue(d[0]);
    assert DigitsValue(d[..2]) == DigitsValue(d[..1]) * 10 + DigitValue(d[1]);
    assert DigitsValue(d[..3]) == DigitsValue(d[..2]) * 10 + DigitValue(d[2]);
  }

  /** The leftmost `Year:` of the description decides the year, which lies in 0..9999. */
  lemma ParseYearFromDescription(title: string, description: string, currentYear: int, k: int)
    requires 0 <= k <= |description| && YearPrefix(description[k..]).Some?
    requires forall j :: 0 <= j < k ==> YearPrefix(description[j..]).None?
    ensures ParseYear(title, description, currentYear) == YearPrefix(description[k..]).value
    ensures 0 <= ParseYear(title, description, currentYear) <= 9999
  {
    FirstMatchIsLeftmost(description, YearPrefix);
    YearPrefixRange(description[k..]);
    if FirstMatch(description, YearPrefix).Some? {
      var k' :| 0 <= k' <= |description| && YearPrefix(description[k'..]) == FirstMatch(description, YearPrefix)
                && forall j :: 0 <= j < k' ==> YearPrefix(description[j..]).None?;
      assert k' == k;
    }
  }

  /** Without a `Year:` in the description, the leftmost title year decides, and lies in
      1900..2099. */
  lemma ParseYearFromTitle(title: string, description: string, currentYear: int, i: int)
    requires forall k :: 0 <= k <= |description| ==> YearPrefix(description[k..]).None?
    requires TitleYearAt(title, i) && forall j :: 0 <= j < i ==> !TitleYearAt(title, j)
    ensures ParseYear(title, description, currentYear) == DigitsValue(title[i..i + 4])
    ensures 1900 <= ParseYear(title, description, currentYear) <= 2099
  {
    assert description[0..] == description;
    TitleYearRange(title, i);
    match FirstMatch(description, YearPrefix)
    case Some(_) =>
      FirstMatchIsLeftmost(description, YearPrefix);
    case None =>
      match TitleYearFrom(title, 0)
      case Some(y) =>
        var k :| 0 <= k && TitleYearAt(title, k) && y == DigitsValue(title[k..k + 4])
                 && forall j :: 0 <= j < k ==> !TitleYearAt(title, j);
        assert k == i;
      case None =>
  }

  /** With no year anywhere, the current year is used. */
  lemma ParseYearDefault(title: string, description: string, currentYear: int)
    requires forall k :: 0 <= k <= |description| ==> YearPrefix(description[k..]).None?
    requires forall i :: !TitleYearAt(title, i)
    ensures ParseYear(title, description, currentYear) == currentYear
  {
    FirstMatchIsLeftmost(description, YearPrefix);
  }

  // ---------------------------------------------------------------- reference

  /** The characters of `[A-Za-z0-9\-\.]`. */
  predicate IsRefChar(c: char) { IsUpperLetter(c) || IsLowerLetter(c) || IsDigit(c) || c == '-' || c == '.' }

  /** The longest prefix of `s` made of reference characters. */
  function RefRun(s: string): (r: string)
    ensures |r| <= |s| && r == s[..|r|]
    ensures forall i :: 0 <= i < |r| ==> IsRefChar(r[i])
    ensures |r| < |s| ==> !IsRefChar(s[|r|])
    decreases |s|
  {
    if s != [] && IsRefChar(s[0]) then [s[0]] + RefRun(s[1..]) else []
  }

  /** `/Ref:?\s*([A-Za-z0-9\-\.]+)/i` matched at the start of `t`: the label, an optional
      colon, any whitespace, then the longest run of reference characters. Giving up the
      colon never helps, since a colon is neither whitespace nor a reference character. */
  function RefPrefix(t: string): Option<string> {
    if StartsWithIgnoreCase(t, "Ref") then
      var afterLabel := if |t| > 3 && t[3] == ':' then t[4..] else t[3..];
      var run := RefRun(TrimStart(afterLabel));
      if run != [] then Some(run) else None
    else None
  }

  /** `/\(([^)]+)\)/` matched at the start of `t`: an opening parenthesis, then the text up to
      the first closing one, which must not be empty. */
  function ParenPrefix(t: string): Option<string> {
    if t != [] && t[0] == '(' then
      var inner := Split(t[1..], ')')[0];
      if inner != [] && |inner| < |t| - 1 then Some(inner) else None
    else None
  }

  /** `parseReference`: the description's `Ref` value, else the first parenthesised text of
      the title, else "unlisted-reference". */
  function ParseReference(title: string, description: string): string {
    match FirstMatch(description, RefPrefix)
    case Some(r) => r
    case None =>
      match FirstMatch(title, ParenPrefix)
      case Some(r) => r
      case None => "unlisted-reference"
  }

  /** Every reference is non-empty; one read from the description is made of reference
      characters, and one read from the title holds no closing parenthesis. */
  lemma ParseReferenceShape(title: string, description: string)
    ensures ParseReference(title, description) != []
    ensures FirstMatch(description, RefPrefix).Some? ==>
              forall i :: 0 <= i < |ParseReference(title, description)| ==> IsRefChar(ParseReference(title, description)[i])
    ensures FirstMatch(description, RefPrefix).None? && FirstMatch(title, ParenPrefix).Some? ==>
              ')' !in ParseReference(title, description)
    ensures FirstMatch(description, RefPrefix).None? && FirstMatch(title, ParenPrefix).None? ==>
              ParseReference(title, description) == "unlisted-reference"
  {
    FirstMatchIsLeftmost(description, RefPrefix);
    FirstMatchIsLeftmost(title, ParenPrefix);
    if FirstMatch(description, RefPrefix).Some? {
      var k :| 0 <= k <= |description| && RefPrefix(description[k..]) == FirstMatch(description, RefPrefix)
               && forall j :: 0 <= j < k ==> RefPrefix(description[j..]).None?;
    } else if FirstMatch(title, ParenPrefix).Some? {
      var k :| 0 <= k <= |title| && ParenPrefix(title[k..]) == FirstMatch(title, ParenPrefix)
               && forall j :: 0 <= j < k ==> ParenPrefix(title[j..]).None?;
    }
  }

  // ---------------------------------------------------------------- condition

  predicate IsLineBreak(c: char) { c == '\n' || c == '\r' }

  /** The prefix of `s` before its first `\n` or `\r`. */
  function LineHead(s: string): (r: string)
    ensures |r| <= |s| && r == s[..|r|]
    ensures forall i :: 0 <= i < |r| ==> !IsLineBreak(r[i])
    ensures |r| < |s| ==> IsLineBreak(s[|r|])
    decreases |s|
  {
    if s != [] && !IsLineBreak(s[0]) then [s[0]] + LineHead(s[1..]) else []
  }

  /** The last index of `s` holding a character other than `\n` and `\r`. */
  function LastNonBreak(s: string): (r: Option<nat>)
    ensures r.Some? ==> r.value < |s| && !IsLineBreak(s[r.value])
    ensures r.Some? ==> forall i :: r.value < i < |s| ==> IsLineBreak(s[i])
    ensures r.None? ==> forall i :: 0 <= i < |s| ==> IsLineBreak(s[i])
    decreases |s|
  {
    if s == [] then None
    else if !IsLineBreak(s[|s| - 1]) then Some(|s| - 1)
    else LastNonBreak(s[..|s| - 1])
  }

  /** The group of `/Condition:\s*([^\n\r]+)/i` matched at the start of `t`: after the label
      and the whitespace, the rest of the line. When the whitespace runs to the end of the
      text, `\s*` gives characters back until the group can take one, which leaves the group
      holding the last whitespace character that is not a line break. */
  function ConditionCapture(t: string): Option<string> {
    if StartsWithIgnoreCase(t, "Condition:") then
      var rest := t[10..];
      var value := TrimStart(rest);
      if value != [] then Some(LineHead(value))
      else
        match LastNonBreak(rest)
        case Some(p) => Some([rest[p]])
        case None => None
    else None
  }

  const KnownConditions: seq<string> := ["Unworn", "Excellent", "Very Good", "Good"]

  /** The first of `names` that occurs in `lowered` in lower case. */
  function FirstContained(lowered: string, names: seq<string>): (r: Option<string>)
    ensures r.Some? ==> r.value in names && Contains(lowered, Lower(r.value))
    ensures r.None? ==> forall j :: 0 <= j < |names| ==> !Contains(lowered, Lower(names[j]))
    decreases |names|
  {
    if names == [] then None
    else if Contains(lowered, Lower(names[0])) then Some(names[0])
    else FirstContained(lowered, names[1..])
  }

  /** `parseCondition`: the trimmed rest of the first `Condition:` line, else the first known
      condition word in the text, else "Excellent". The value is not canonicalised. */
  function ParseCondition(description: string): string {
    match FirstMatch(description, ConditionCapture)
    case Some(c) => Trim(c)
    case None => FirstContained(Lower(description), KnownConditions).GetOr("Excellent")
  }

  lemma ConditionCaptureShape(t: string)
    ensures ConditionCapture(t).Some? ==> '\n' !in ConditionCapture(t).value && '\r' !in ConditionCapture(t).value
  {
  }

  /** A condition read from a `Condition:` label is trimmed and on one line; any other
      condition is one of the known words. */
  lemma ParseConditionShape(description: string)
    ensures FirstMatch(description, ConditionCapture).Some? ==>
              var c := ParseCondition(description);
              Trimmed(c) && '\n' !in c && '\r' !in c
    ensures FirstMatch(description, ConditionCapture).None? ==> ParseCondition(description) in KnownConditions
  {
    forall u ensures ConditionCapture(u).Some? ==> OneLine(ConditionCapture(u).value) {
      ConditionCaptureShape(u);
    }
    FirstMatchKeeps(description, ConditionCapture, OneLine);
    if FirstMatch(description, ConditionCapture).Some? {
      var g := FirstMatch(description, ConditionCapture).value;
      TrimAvoids(g, '\n');
      TrimAvoids(g, '\r');
    }
  }

  predicate OneLine(s: string) { '\n' !in s && '\r' !in s }

  // ---------------------------------------------------------------- model

  /** `model.replace(new RegExp("^" + brand + "\\s*", "i"), "")` for a brand read literally:
      the brand, up to case, at the very start of the text, with the whitespace after it. */
  function StripLeadingBrand(model: string, brand: string): string {
    if StartsWithIgnoreCase(model, brand) then TrimStart(model[|brand|..]) else model
  }

  /** `.replace(/\([^)]*\)/g, "")`: every opening parenthesis that has a closing one after it
      is removed together with everything up to that closing one. */
  function RemoveParenGroups(s: string): string
    decreases |s|
  {
    if s == [] then []
    else if s[0] == '(' && |Split(s[1..], ')')[0]| < |s| - 1 then
      RemoveParenGroups(s[|Split(s[1..], ')')[0]| + 2..])
    else [s[0]] + RemoveParenGroups(s[1..])
  }

  /** The first three rewrites of `deriveModel`, with the brand escaped before it goes into
      the regular expression: strip the leading brand, then every occurrence of the year, then
      every occurrence of the reference up to case. */
  function StripTitle(title: string, brand: string, year: int, reference: string): string {
    var withoutBrand := if brand != [] then StripLeadingBrand(title, brand) else title;
    var withoutYear := if year != 0 then RemoveAll(withoutBrand, IntToString(year), false) else withoutBrand;
    if reference != [] then RemoveAll(withoutYear, reference, true) else withoutYear
  }

  /** The last three rewrites of `deriveModel`: drop parenthesised groups, collapse whitespace
      runs to one space, trim. */
  function TidyText(s: string): string {
    Trim(CollapseSpaces(RemoveParenGroups(s)))
  }

  lemma TidyTextIsTidy(s: string)
    ensures Tidy(TidyText(s))
  {
    CollapseShape(RemoveParenGroups(s));
    TrimKeepsSingleSpaced(CollapseSpaces(RemoveParenGroups(s)));
  }

  /** `deriveModel` with the brand escaped; the title itself when nothing is left. */
  function DeriveModel(title: string, brand: string, year: int, reference: string): string {
    var cleaned := TidyText(StripTitle(title, brand, year, reference));
    if cleaned != [] then cleaned else title
  }

  /** The model is the title itself or a non-empty, trimmed, single-spaced text; so it is
      never empty for a non-empty title. */
  lemma DeriveModelShape(title: string, brand: string, year: int, reference: string)
    ensures var m := DeriveModel(title, brand, year, reference);
      m == title || (m != [] && Tidy(m))
    ensures title != [] ==> DeriveModel(title, brand, year, reference) != []
  {
    TidyTextIsTidy(StripTitle(title, brand, year, reference));
  }

  /** The characters with a meaning of their own in a regular expression. */
  predicate IsRegexSyntax(c: char) { c in "\\^$.*+?()[]{}|" }

  /** A brand in which no character has a meaning of its own in a regular expression. */
  predicate PlainBrand(brand: string) {
    forall i :: 0 <= i < |brand| ==> !IsRegexSyntax(brand[i])
  }

  /** `title.replace(new RegExp("^" + brand + "\\s*", "i"), "")` as the JavaScript engine
      evaluates it for a title and a brand, `None` when the constructor throws. The engine is
      a parameter of the model; `KnownEngine` says what is known of it. */
  type PatternStrip = (string, string) -> Option<string>

  /** What the engine does with the patterns `deriveModel` builds, as far as the model relies
      on it: a non-empty plain brand is matched literally, up to case, with the whitespace
      after it; a brand opening with `*`, `+` or `?` puts a quantifier right after `^`, which
      the constructor refuses ("Nothing to repeat"). */
  ghost predicate KnownEngine(strip: PatternStrip) {
    && (forall title, brand :: brand != [] && PlainBrand(brand) ==> strip(title, brand) == Some(StripLeadingBrand(title, brand)))
    && (forall title, brand :: brand != [] && brand[0] in "*+?" ==> strip(title, brand).None?)
  }

  /** The brand escaped before it goes into the pattern, as the reference already is: every
      brand is then stripped literally and nothing throws. */
  const EscapedStrip: PatternStrip := (title, brand) => Some(StripLeadingBrand(title, brand))

  /** The steps of `deriveModel` after the brand: drop the year and the reference from the
      text the brand strip left, tidy, and fall back to the title when nothing is left. */
  function FinishModel(title: string, stripped: string, year: int, reference: string): string {
    var cleaned := TidyText(StripTitle(stripped, [], year, reference));
    if cleaned != [] then cleaned else title
  }

  /** `deriveModel` as written: the brand goes into a pattern without escaping, so the model
      is whatever `strip` makes of the title, and nothing (`None`) when the pattern throws. */
  function DeriveModelAsWritten(title: string, brand: string, year: int, reference: string, strip: PatternStrip): (r: Option<string>)
    ensures r.None? <==> brand != [] && strip(title, brand).None?
  {
    if brand == [] then Some(DeriveModel(title, brand, year, reference))
    else
      match strip(title, brand)
      case None => None
      case Some(stripped) => Some(FinishModel(title, stripped, year, reference))
  }

  /** With the brand escaped, `deriveModel` never throws and gives the intended model. */
  lemma DeriveModelEscaped(title: string, brand: string, year: int, reference: string)
    ensures DeriveModelAsWritten(title, brand, year, reference, EscapedStrip) == Some(DeriveModel(title, brand, year, reference))
  {
    if brand != [] {
      assert EscapedStrip(title, brand) == Some(StripLeadingBrand(title, brand));
      FinishAfterBrand(title, brand, year, reference);
    }
  }

  /** Finishing the literally stripped title is `DeriveModel`. */
  lemma FinishAfterBrand(title: string, brand: string, year: int, reference: string)
    requires brand != []
    ensures FinishModel(title, StripLeadingBrand(title, brand), year, reference) == DeriveModel(title, brand, year, reference)
  {
    assert StripTitle(StripLeadingBrand(title, brand), [], year, reference) == StripTitle(title, brand, year, reference);
  }

  /** As written, a plain brand gives the intended model. */
  lemma DeriveModelAsWrittenOfPlain(title: string, brand: string, year: int, reference: string, strip: PatternStrip)
    requires KnownEngine(strip) && PlainBrand(brand)
    ensures DeriveModelAsWritten(title, brand, year, reference, strip) == Some(DeriveModel(title, brand, year, reference))
  {
    if brand != [] {
      assert strip(title, brand) == Some(StripLeadingBrand(title, brand));
      FinishAfterBrand(title, brand, year, reference);
    }
  }

  /** As written, a brand opening with a quantifier makes `deriveModel` throw. */
  lemma DeriveModelAsWrittenThrows(title: string, brand: string, year: int, reference: string, strip: PatternStrip)
    requires KnownEngine(strip) && brand != [] && brand[0] in "*+?"
    ensures DeriveModelAsWritten(title, brand, year, reference, strip).None?
  {
    assert strip(title, brand).None?;
  }

  /** The names of the vocabulary hold no regular-expression syntax. */
  lemma KnownBrandIsPlain(b: string)
    requires IsKnownBrandName(b)
    ensures PlainBrand(b)
  {
    if b == "Rolex" {
      LettersArePlain("Rolex");
    } else if b == "Omega" {
      LettersArePlain("Omega");
    } else if b == "Audemars Piguet" {
      LettersArePlain("Audemars Piguet");
    } else {
      LettersArePlain("Patek Philippe");
    }
  }

  lemma LettersArePlain(b: string)
    requires forall i :: 0 <= i < |b| ==> IsUpperLetter(b[i]) || IsLowerLetter(b[i]) || b[i] == ' '
    ensures PlainBrand(b)
  {
  }

  lemma {:induction false} RemoveParenGroupsNoParen(s: string)
    requires '(' !in s
    ensures RemoveParenGroups(s) == s
    decreases |s|
  {
    if s != [] {
      RemoveParenGroupsNoParen(s[1..]);
      assert [s[0]] + s[1..] == s;
    }
  }

  lemma {:induction false} RemoveAllAbsent(s: string, p: string, ignoreCase: bool)
    requires |p| > 0 && AbsentIgnoreCase(s, p)
    ensures RemoveAll(s, p, ignoreCase) == s
    decreases |s|
  {
    if |s| >= |p| {
      assert !OccursAtIgnoreCase(s, p, 0);
      assert s[0..|p|] == s[..|p|];
      forall k ensures !OccursAtIgnoreCase(s[1..], p, k) {
        if 0 <= k && k + |p| <= |s| - 1 {
          assert !OccursAtIgnoreCase(s, p, k + 1);
          assert s[1..][k..k + |p|] == s[k + 1..k + 1 + |p|];
        }
      }
      RemoveAllAbsent(s[1..], p, ignoreCase);
      assert [s[0]] + s[1..] == s;
    }
  }

  lemma StripLeadingBrandOf(brand: string, rest: string)
    requires brand != [] && rest != [] && !IsSpace(rest[0])
    ensures StripLeadingBrand(brand + " " + rest, brand) == rest
  {
    var title := brand + (" " + rest);
    assert brand + " " + rest == title;
    assert title[..|brand|] == brand && title[|brand|..] == " " + rest;
    assert StartsWithIgnoreCase(title, brand);
    assert (" " + rest)[1..] == rest;
    assert TrimStart(" " + rest) == rest;
  }

  lemma StripBrandedTitle(brand: string, rest: string, year: int, reference: string)
    requires brand != [] && rest != [] && !IsSpace(rest[0])
    requires year != 0 ==> AbsentIgnoreCase(rest, IntToString(year))
    requires reference != [] ==> AbsentIgnoreCase(rest, reference)
    ensures StripTitle(brand + " " + rest, brand, year, reference) == rest
  {
    StripLeadingBrandOf(brand, rest);
    if year != 0 {
      RemoveAllAbsent(rest, IntToString(year), false);
    }
    if reference != [] {
      RemoveAllAbsent(rest, reference, true);
    }
  }

  /** The leading brand is stripped literally, whatever characters it holds: a title made of
      the brand, a space and a tidy rest without parentheses, the year or the reference, has
      that rest as its model. */
  lemma DeriveModelOfBrandedTitle(brand: string, rest: string, year: int, reference: string)
    requires brand != [] && rest != [] && Tidy(rest) && '(' !in rest
    requires year != 0 ==> AbsentIgnoreCase(rest, IntToString(year))
    requires reference != [] ==> AbsentIgnoreCase(rest, reference)
    ensures DeriveModel(brand + " " + rest, brand, year, reference) == rest
  {
    StripBrandedTitle(brand, rest, year, reference);
    RemoveParenGroupsNoParen(rest);
    TidyIsFixed(rest);
  }

  /** A listing title whose first word is a marker in regular-expression syntax. */
  const SoldTitle := SoldMarker + " " + SoldRest
  const SoldMarker := "*SOLD*"
  const SoldRest := "Rolex GMT"

  lemma NoKnownBrandBeginning(title: string)
    requires title != [] && !IsUpperLetter(title[0]) && !IsLowerLetter(title[0]) && '0' !in title
    ensures !Contains(Upper(title), "R0LEX")
    ensures forall j :: 0 <= j < |KnownBrands| ==> !StartsWith(Upper(title), Upper(KnownBrands[j]))
  {
    var upper := Upper(title);
    forall i | 0 <= i < |upper| ensures upper[i] != '0' {
      assert upper[i] == UpperChar(title[i]);
    }
    ContainsNeedsChar(upper, "R0LEX", 1);
    KnownBrandsUpper();
    assert upper[0] == title[0];
  }

  /** A trimmed title whose first word opens with a character that is not a letter, and which
      holds no `0`, has that first word as its brand. */
  lemma DetectBrandOfMarkedTitle(marker: string, rest: string)
    requires marker != [] && ' ' !in marker && !IsUpperLetter(marker[0]) && !IsLowerLetter(marker[0])
    requires Trimmed(marker + " " + rest) && '0' !in marker + " " + rest
    ensures DetectBrand(marker + " " + rest) == marker
  {
    var title := marker + [' '] + rest;
    assert title == marker + " " + rest;
    assert title[0] == marker[0];
    NoKnownBrandBeginning(title);
    TrimOfTrimmed(title);
    TrimEmptyIff(title);
    DetectBrandFirstWord(title);
    SplitWord(marker, rest, ' ');
  }

  lemma SoldTitleBrand()
    ensures DetectBrand(SoldTitle) == SoldMarker
  {
    assert SoldTitle[0] == '*' && SoldTitle[|SoldTitle| - 1] == 'T';
    assert '0' !in SoldMarker && '0' !in SoldRest;
    DetectBrandOfMarkedTitle(SoldMarker, SoldRest);
  }

  lemma SoldRestTidy()
    ensures SoldRest != [] && Tidy(SoldRest) && '(' !in SoldRest
  {
  }

  lemma SoldRestFree(year: int)
    ensures AbsentIgnoreCase(SoldRest, IntToString(year))
    ensures AbsentIgnoreCase(SoldRest, "unlisted-reference")
  {
    var y := IntToString(year);
    var s := SoldRest;
    assert forall i :: 0 <= i < |s| ==> !IsDigit(LowerChar(s[i]));
    if year < 0 {
      assert y[1..] == NatToString(-year);
      AbsentByChar(s, y, 1);
    } else {
      AbsentByChar(s, y, 0);
    }
  }

  /** As written, importing a listing titled `*SOLD* Rolex GMT` throws while deriving its
      model; with the brand escaped, the model is `Rolex GMT`. */
  lemma SoldTitleCounterexample(year: int, reference: string, strip: PatternStrip)
    requires KnownEngine(strip)
    ensures DetectBrand(SoldTitle) == SoldMarker
    ensures DeriveModelAsWritten(SoldTitle, SoldMarker, year, reference, strip).None?
    ensures DeriveModel(SoldTitle, SoldMarker, year, "unlisted-reference") == SoldRest
  {
    SoldTitleBrand();
    DeriveModelAsWrittenThrows(SoldTitle, SoldMarker, year, reference, strip);
    SoldRestFree(year);
    SoldRestTidy();
    DeriveModelOfBrandedTitle(SoldMarker, SoldRest, year, "unlisted-reference");
  }

  /** Characters outside the input never appear in the output of `RemoveParenGroups`. */
  lemma {:induction false} RemoveParenGroupsAvoids(s: string, c: char)
    requires c !in s
    ensures c !in RemoveParenGroups(s)
    decreases |s|
  {
    if s != [] {
      if s[0] == '(' && |Split(s[1..], ')')[0]| < |s| - 1 {
        var k := |Split(s[1..], ')')[0]| + 2;
        assert forall i :: 0 <= i < |s| - k ==> s[k..][i] == s[k + i];
        RemoveParenGroupsAvoids(s[k..], c);
      } else {
        assert forall i :: 0 <= i < |s| - 1 ==> s[1..][i] == s[1 + i];
        RemoveParenGroupsAvoids(s[1..], c);
      }
    }
  }

  /** No opening parenthesis has a closing one after it. */
  predicate NoParenGroup(r: string) {
    forall i, j :: 0 <= i < j < |r| && r[i] == '(' ==> r[j] != ')'
  }

  /** After `RemoveParenGroups` no opening parenthesis has a closing one after it. */
  lemma {:induction false} RemoveParenGroupsComplete(s: string)
    ensures NoParenGroup(RemoveParenGroups(s))
    decreases |s|
  {
    if s != [] {
      var inner := Split(s[1..], ')')[0];
      if s[0] == '(' && |inner| < |s| - 1 {
        RemoveParenGroupsComplete(s[|inner| + 2..]);
      } else {
        var t := RemoveParenGroups(s[1..]);
        RemoveParenGroupsComplete(s[1..]);
        if s[0] == '(' {
          assert inner == s[1..];
          RemoveParenGroupsAvoids(s[1..], ')');
        }
        UnclosedCons(s[0], t);
      }
    }
  }

  lemma UnclosedCons(c: char, t: string)
    requires NoParenGroup(t)
    requires c == '(' ==> ')' !in t
    ensures NoParenGroup([c] + t)
  {
    var r := [c] + t;
    forall i, j | 0 <= i < j < |r| && r[i] == '(' ensures r[j] != ')' {
      assert r[j] == t[j - 1];
      if i > 0 {
        assert r[i] == t[i - 1];
      }
    }
  }


  // ---------------------------------------------------------------- price

  datatype PriceValue = PriceNumber(amount: real) | PriceText(text: string)

  predicate IsPriceChar(c: char) { IsDigit(c) || c == '.' }

  /** `s.replace(/[^0-9.]/g, "")`. */
  function KeepPriceChars(s: string): (r: string)
    ensures forall i :: 0 <= i < |r| ==> IsPriceChar(r[i])
    decreases |s|
  {
    if s == [] then [] else (if IsPriceChar(s[0]) then [s[0]] else []) + KeepPriceChars(s[1..])
  }

  /** `Number(s)` for a string of digits and dots: the empty string is 0, digits with at most
      one dot and at least one digit are their decimal value, anything else is NaN (`None`). */
  function DecimalValue(s: string): Option<real>
    requires forall i :: 0 <= i < |s| ==> IsPriceChar(s[i])
  {
    var whole := Split(s, '.')[0];
    PricePartDigits(s, whole, 0);
    if |whole| == |s| then
      assert whole == s;
      Some(DigitsValue(whole) as real)
    else
      var fraction := s[|whole| + 1..];
      if '.' in fraction || (whole == [] && fraction == []) then None
      else
        PricePartDigits(s, fraction, |whole| + 1);
        Some(DigitsValue(whole) as real + DigitsValue(fraction) as real / Pow10(|fraction|) as real)
  }

  /** A dot-free stretch of a string of digits and dots is all digits. */
  lemma PricePartDigits(s: string, part: string, offset: nat)
    requires forall i :: 0 <= i < |s| ==> IsPriceChar(s[i])
    requires offset + |part| <= |s| && part == s[offset..offset + |part|] && '.' !in part
    ensures AllDigits(part)
  {
    forall i | 0 <= i < |part| ensures IsDigit(part[i]) {
      assert part[i] == s[offset + i];
    }
  }

  /** `parsePrice`: a number is kept, a text is read after dropping everything but digits and
      dots and counts 0 when that is not a number, and a missing price is 0. */
  function ParsePrice(value: Option<PriceValue>): real {
    match value
    case Some(PriceNumber(x)) => x
    case Some(PriceText(s)) => DecimalValue(KeepPriceChars(s)).GetOr(0.0)
    case None => 0.0
  }

  lemma {:induction false} KeepPriceCharsAppend(a: string, b: string)
    ensures KeepPriceChars(a + b) == KeepPriceChars(a) + KeepPriceChars(b)
    decreases |a|
  {
    if a != [] {
      assert (a + b)[1..] == a[1..] + b;
      KeepPriceCharsAppend(a[1..], b);
    } else {
      assert a + b == b;
    }
  }

  lemma {:induction false} KeepPriceCharsOfDigits(s: string)
    requires AllDigits(s)
    ensures KeepPriceChars(s) == s
    decreases |s|
  {
    if s != [] {
      KeepPriceCharsOfDigits(s[1..]);
    }
  }

  lemma {:induction false} KeepPriceCharsNone(s: string)
    requires forall i :: 0 <= i < |s| ==> !IsPriceChar(s[i])
    ensures KeepPriceChars(s) == []
    decreases |s|
  {
    if s != [] {
      KeepPriceCharsNone(s[1..]);
    }
  }

  /** A whole number written among other characters that are neither digits nor dots, such as
      a currency sign and thousands separators around it, is read back as that number. */
  lemma ParsePriceOfDecoratedNumber(before: string, n: nat, after: string)
    requires forall i :: 0 <= i < |before| ==> !IsPriceChar(before[i])
    requires forall i :: 0 <= i < |after| ==> !IsPriceChar(after[i])
    ensures ParsePrice(Some(PriceText(before + NatToString(n) + after))) == n as real
  {
    var digits := NatToString(n);
    KeepPriceCharsAppend(before + digits, after);
    KeepPriceCharsAppend(before, digits);
    KeepPriceCharsNone(before);
    KeepPriceCharsNone(after);
    KeepPriceCharsOfDigits(digits);
    assert KeepPriceChars(before + digits + after) == digits;
    assert '.' !in digits;
    assert Split(digits, '.')[0] == digits by {
      SplitWord(digits, [], '.');
    }
    DigitsValueOfNatToString(n);
  }

  /** Text prices are never negative. */
  lemma ParsePriceTextNonNegative(s: string)
    ensures ParsePrice(Some(PriceText(s))) >= 0.0
  {
  }

  // ---------------------------------------------------------------- images and entries

  /** An element of a JSON array: a string or something else. */
  datatype JsonItem = JsonString(s: string) | JsonOther

  /** The strings of `items` that are not blank, unchanged and in order. */
  function NonBlankStrings(items: seq<JsonItem>): (r: seq<string>)
    ensures |r| <= |items|
    decreases |items|
  {
    if items == [] then []
    else
      (if items[0].JsonString? && !Blank(items[0].s) then [items[0].s] else [])
      + NonBlankStrings(items[1..])
  }

  /** `normalizeImages`: a missing or non-array value gives no images; otherwise the
      non-blank strings, kept as they are. */
  function NormalizeImages(images: Option<seq<JsonItem>>): seq<string> {
    match images
    case None => []
    case Some(items) => NonBlankStrings(items)
  }

  /** Exactly the non-blank string elements survive, in their original form. */
  lemma {:induction false} NonBlankStringsMembers(items: seq<JsonItem>)
    ensures forall u :: u in NonBlankStrings(items) <==> JsonString(u) in items && !Blank(u)
    decreases |items|
  {
    if items != [] {
      NonBlankStringsMembers(items[1..]);
      assert items == [items[0]] + items[1..];
    }
  }

  datatype ProductId = IdText(text: string) | IdNumber(number: int)

  /** One entry of an import file; every field may be missing. */
  datatype RawListing = RawListing(
    productId: Option<ProductId>,
    finalPrice: Option<PriceValue>,
    images: Option<seq<JsonItem>>,
    url: Option<string>,
    description: Option<string>,
    title: Option<string>,
    status: Option<string>,
    featured: Option<bool>,
    boxAndPapers: Option<bool>)

  /** `item.product_id?.toString()`. */
  function ExternalIdOf(item: RawListing): Option<string> {
    match item.productId
    case None => None
    case Some(IdText(s)) => Some(s)
    case Some(IdNumber(n)) => Some(IntToString(n))
  }

  /** A parsed import file: an array of entries, an object of named values, or anything else. */
  datatype JsonDoc = DocArray(entries: seq<RawListing>) | DocObject(fields: map<string, JsonDoc>) | DocOther

  /** `parseListingsFromJson`: the array itself, else its `items` array, else its `data` array,
      else nothing. */
  function ParseListingsFromJson(raw: JsonDoc): seq<RawListing> {
    match raw
    case DocArray(entries) => entries
    case DocObject(fields) =>
      if "items" in fields && fields["items"].DocArray? then fields["items"].entries
      else if "data" in fields && fields["data"].DocArray? then fields["data"].entries
      else []
    case DocOther => []
  }

  /** Wrapping the entries in an object under `items` or `data` reads the same as the bare
      array, and `items` wins over `data`. */
  lemma WrappedListings(entries: seq<RawListing>, others: seq<RawListing>)
    ensures ParseListingsFromJson(DocObject(map["items" := DocArray(entries)])) == ParseListingsFromJson(DocArray(entries))
    ensures ParseListingsFromJson(DocObject(map["data" := DocArray(entries)])) == ParseListingsFromJson(DocArray(entries))
    ensures ParseListingsFromJson(DocObject(map["items" := DocArray(entries), "data" := DocArray(others)])) == entries
  {
  }

  // ---------------------------------------------------------------- normalised listing

  /** The fields `upsertListing` writes, apart from the slug. */
  datatype Listing = Listing(
    brand: string,
    model: string,
    reference: string,
    year: int,
    condition: string,
    price: real,
    status: string,
    boxAndPapers: bool,
    description: string,
    images: seq<string>,
    featured: bool,
    sourceUrl: Option<string>)

  /** The title, description, brand, year and reference `upsertListing` reads from an entry. */
  function TitleOf(item: RawListing): string { item.title.GetOr("Untitled Listing") }
  function DescriptionOf(item: RawListing): string { item.description.GetOr("") }
  function BrandOf(item: RawListing): string { DetectBrand(TitleOf(item)) }
  function YearOf(item: RawListing, currentYear: int): int { ParseYear(TitleOf(item), DescriptionOf(item), currentYear) }
  function ReferenceOf(item: RawListing): string { ParseReference(TitleOf(item), DescriptionOf(item)) }

  /** The fields `upsertListing` writes for an entry whose model is `model`, with the
      defaults it applies. */
  function ListingWith(item: RawListing, currentYear: int, model: string): Listing {
    Listing(
      BrandOf(item),
      model,
      ReferenceOf(item),
      YearOf(item, currentYear),
      ParseCondition(DescriptionOf(item)),
      ParsePrice(item.finalPrice),
      item.status.GetOr("Available"),
      item.boxAndPapers.GetOr(true),
      DescriptionOf(item),
      NormalizeImages(item.images),
      item.featured.GetOr(false),
      item.url)
  }

  /** The normalised fields of an entry, with the brand escaped in `deriveModel`. */
  function NormalizeListing(item: RawListing, currentYear: int): Listing {
    ListingWith(item, currentYear, DeriveModel(TitleOf(item), BrandOf(item), YearOf(item, currentYear), ReferenceOf(item)))
  }

  /** The normalised fields of an entry as `upsertListing` computes them, with `deriveModel`
      as written: nothing when the brand pattern throws, otherwise the escaped normalisation
      in every field but possibly the model. */
  function NormalizeListingAsWritten(item: RawListing, currentYear: int, strip: PatternStrip): (r: Option<Listing>)
    ensures r.None? <==> strip(TitleOf(item), BrandOf(item)).None?
    ensures r.Some? ==> r.value == NormalizeListing(item, currentYear).(model := r.value.model)
  {
    DetectBrandNonEmpty(TitleOf(item));
    match DeriveModelAsWritten(TitleOf(item), BrandOf(item), YearOf(item, currentYear), ReferenceOf(item), strip)
    case None => None
    case Some(model) => Some(ListingWith(item, currentYear, model))
  }

  /** With the brand escaped, normalisation never throws and is `NormalizeListing`. */
  lemma NormalizeEscaped(item: RawListing, currentYear: int)
    ensures NormalizeListingAsWritten(item, currentYear, EscapedStrip) == Some(NormalizeListing(item, currentYear))
  {
    DeriveModelEscaped(TitleOf(item), BrandOf(item), YearOf(item, currentYear), ReferenceOf(item));
  }

  /** As written, an entry whose detected brand is plain (every brand of the vocabulary is)
      normalises as intended. */
  lemma NormalizeAsWrittenOfPlain(item: RawListing, currentYear: int, strip: PatternStrip)
    requires KnownEngine(strip) && PlainBrand(BrandOf(item))
    ensures NormalizeListingAsWritten(item, currentYear, strip) == Some(NormalizeListing(item, currentYear))
  {
    DeriveModelAsWrittenOfPlain(TitleOf(item), BrandOf(item), YearOf(item, currentYear), ReferenceOf(item), strip);
  }

  /** As written, an entry titled `*SOLD* Rolex GMT` cannot be normalised: the pattern for its
      brand `*SOLD*` throws. */
  lemma SoldEntryThrows(item: RawListing, currentYear: int, strip: PatternStrip)
    requires KnownEngine(strip) && item.title == Some(SoldTitle)
    ensures NormalizeListingAsWritten(item, currentYear, strip).None?
  {
    SoldTitleBrand();
    assert SoldMarker[0] == '*';
    NormalizeThrows(item, currentYear, strip);
  }

  /** As written, an entry whose detected brand opens with a quantifier cannot be normalised. */
  lemma NormalizeThrows(item: RawListing, currentYear: int, strip: PatternStrip)
    requires KnownEngine(strip) && BrandOf(item) != [] && BrandOf(item)[0] in "*+?"
    ensures NormalizeListingAsWritten(item, currentYear, strip).None?
  {
    assert strip(TitleOf(item), BrandOf(item)).None?;
  }

  /** The slug `upsertListing` starts from. */
  function SlugBase(l: Listing): string {
    Slug.ToSlug(l.brand + "-" + l.model + "-" + l.reference)
  }
}
