/**
 * lib/formatters.ts: the condition label and the standard five-line product
 * description that the importer's parsers read back.
 */
module Formatters {
  import opened Strings

  /** `formatConditionLabel`: the trimmed value in upper case, or the value itself when blank. */
  function FormatConditionLabel(condition: string): string {
    if !Blank(condition) then Upper(Trim(condition)) else condition
  }

  /** A non-blank condition comes out trimmed, non-empty, without lower-case letters and
      equal to the trimmed input up to case; a blank one comes out unchanged. */
  lemma FormatConditionLabelMeaning(condition: string)
    ensures Blank(condition) ==> FormatConditionLabel(condition) == condition
    ensures !Blank(condition) ==>
      var r := FormatConditionLabel(condition);
      && r != [] && Trimmed(r)
      && (forall i :: 0 <= i < |r| ==> !IsLowerLetter(r[i]))
      && EqualsIgnoreCase(r, Trim(condition))
  {
    UpperKeepsShape(Trim(condition));
  }

  lemma LabelOfUpperTrimmed(r: string)
    requires Trimmed(r) && r != [] && Upper(r) == r
    ensures FormatConditionLabel(r) == r
  {
    TrimOfTrimmed(r);
  }

  /** Labelling a label changes nothing. */
  lemma FormatConditionLabelIdempotent(condition: string)
    ensures FormatConditionLabel(FormatConditionLabel(condition)) == FormatConditionLabel(condition)
  {
    if !Blank(condition) {
      var r := Upper(Trim(condition));
      UpperKeepsShape(Trim(condition));
      assert Upper(r) == r;
      LabelOfUpperTrimmed(r);
    }
  }

  const SetComplete := "Complete Set w/ Box and Papers"
  const SetWatchOnly := "Watch Only"
  // String literals are split with `+` so that the verifier does not unfold long literals
  // character by character when it compares them.
  const Footer := "Available for " + "purchase from " + "Exclusive Time Zone"

  /** The separator `buildStandardProductDescriptionInline` puts between lines, exactly as the
      source file spells it (the UTF-8 bytes of a bullet read back as Windows-1252). */
  const InlineSeparator := " \U{00E2}\U{20AC}\U{00A2} "

  function SetLabel(boxAndPapers: bool): string {
    if boxAndPapers then SetComplete else SetWatchOnly
  }

  /** The five lines of the standard description, in order. */
  function DescriptionLines(year: int, reference: string, condition: string, boxAndPapers: bool): seq<string> {
    [ "Year: " + IntToString(year),
      "Ref: " + reference,
      "Condition: " + FormatConditionLabel(condition),
      "Set: " + SetLabel(boxAndPapers),
      Footer ]
  }

  /** `buildStandardProductDescription`. */
  function BuildStandardProductDescription(year: int, reference: string, condition: string, boxAndPapers: bool): string {
    Join(DescriptionLines(year, reference, condition, boxAndPapers), "\n")
  }

  /** `buildStandardProductDescriptionInline`: every newline replaced by the separator. */
  function BuildStandardProductDescriptionInline(year: int, reference: string, condition: string, boxAndPapers: bool): string {
    ReplaceChar(BuildStandardProductDescription(year, reference, condition, boxAndPapers), '\n', InlineSeparator)
  }

  lemma NoNewlineInLabel(condition: string)
    requires '\n' !in condition
    ensures '\n' !in FormatConditionLabel(condition)
  {
    TrimAvoids(condition, '\n');
    UpperKeepsShape(Trim(condition));
  }

  lemma NoNewlineInYear(year: int)
    ensures '\n' !in IntToString(year)
  {
    if year < 0 { assert IntToString(year) == "-" + NatToString(-year); }
  }

  lemma NoNewlineInFixedText(boxAndPapers: bool)
    ensures '\n' !in "Year: " && '\n' !in "Ref: " && '\n' !in "Condition: " && '\n' !in "Set: "
    ensures '\n' !in SetLabel(boxAndPapers) && '\n' !in Footer
  {
    NoNewlineInFooter();
  }

  lemma NoNewlineInFooter()
    ensures '\n' !in Footer
  {
    assert '\n' !in "Available for " && '\n' !in "purchase from " && '\n' !in "Exclusive Time Zone";
  }

  lemma NoNewlineInLines(year: int, reference: string, condition: string, boxAndPapers: bool)
    requires '\n' !in reference && '\n' !in condition
    ensures forall i :: 0 <= i < 5 ==> '\n' !in DescriptionLines(year, reference, condition, boxAndPapers)[i]
  {
    NoNewlineInLabel(condition);
    NoNewlineInYear(year);
    NoNewlineInFixedText(boxAndPapers);
  }

  lemma SetLineNamesFullSet(boxAndPapers: bool)
    ensures ("Set: " + SetLabel(boxAndPapers) == "Set: " + SetComplete) <==> boxAndPapers
  {
    if !boxAndPapers {
      assert |"Set: " + SetLabel(boxAndPapers)| != |"Set: " + SetComplete|;
    }
  }

  /** For newline-free inputs the description splits back into exactly its five lines, Year,
      Ref, Condition, Set and the footer, and the Set line names the full set exactly when box
      and papers are included. */
  lemma DescriptionHasFiveLines(year: int, reference: string, condition: string, boxAndPapers: bool)
    requires '\n' !in reference && '\n' !in condition
    ensures
      var lines := Split(BuildStandardProductDescription(year, reference, condition, boxAndPapers), '\n');
      && lines == DescriptionLines(year, reference, condition, boxAndPapers)
      && |lines| == 5
      && (lines[3] == "Set: " + SetComplete <==> boxAndPapers)
  {
    var lines := DescriptionLines(year, reference, condition, boxAndPapers);
    NoNewlineInLines(year, reference, condition, boxAndPapers);
    SplitJoin(lines, '\n');
    SetLineNamesFullSet(boxAndPapers);
  }

  lemma NoNewlineInSeparator()
    ensures '\n' !in InlineSeparator
  {
  }

  /** The inline description is the lines joined by the separator, so it holds no newline
      when the inputs hold none. */
  lemma InlineDescriptionIsJoin(year: int, reference: string, condition: string, boxAndPapers: bool)
    requires '\n' !in reference && '\n' !in condition
    ensures
      var inline := BuildStandardProductDescriptionInline(year, reference, condition, boxAndPapers);
      && inline == Join(DescriptionLines(year, reference, condition, boxAndPapers), InlineSeparator)
      && '\n' !in inline
  {
    var lines := DescriptionLines(year, reference, condition, boxAndPapers);
    NoNewlineInLines(year, reference, condition, boxAndPapers);
    ReplaceCharJoin(lines, '\n', InlineSeparator);
    NoNewlineInSeparator();
    JoinAvoids(lines, InlineSeparator, '\n');
  }
}
