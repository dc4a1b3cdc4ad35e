/**
 * The standard description of lib/formatters.ts read back by the importer's parsers of
 * lib/importers/facebook.ts: the year, the reference and the condition shown come back out.
 */
module DescriptionRoundTrip {
  import opened Prelude
  import opened Strings
  import opened Search
  import opened ListingFields
  import opened Formatters

  lemma SplitAtPrefix(p: string, t: string)
    ensures (p + t)[..|p|] == p && (p + t)[|p|..] == t
  {
  }

  lemma Reassociate(p: string, q: string, x: string, y: string, z: string)
    ensures (p + q + x) + y + z == p + (q + (x + (y + z)))
  {
  }

  lemma TrimStartOfSpaced(t: string)
    requires t != [] && !IsSpace(t[0])
    ensures TrimStart(" " + t) == t
  {
    assert (" " + t)[1..] == t;
  }

  lemma YearLineMatches(digits: string, rest: string)
    requires |digits| == 4 && AllDigits(digits)
    ensures YearPrefix(("Year: " + digits) + "\n" + rest) == Some(DigitsValue(digits))
  {
    var tail := digits + ("\n" + rest);
    var d := "Year:" + (" " + tail);
    assert "Year: " == "Year:" + " ";
    Reassociate("Year:", " ", digits, "\n", rest);
    SplitAtPrefix("Year:", " " + tail);
    assert StartsWithIgnoreCase(d, "Year:");
    TrimStartOfSpaced(tail);
    SplitAtPrefix(digits, "\n" + rest);
  }

  /** The description opens with its Year line, so the year is read at index 0. */
  lemma YearReadBack(digits: string, rest: string)
    requires |digits| == 4 && AllDigits(digits)
    ensures FirstMatch(("Year: " + digits) + "\n" + rest, YearPrefix) == Some(DigitsValue(digits))
  {
    YearLineMatches(digits, rest);
  }

  lemma {:induction false} RefRunPrefix(a: string, b: string)
    requires forall i :: 0 <= i < |a| ==> IsRefChar(a[i])
    requires b == [] || !IsRefChar(b[0])
    ensures RefRun(a + b) == a
    decreases |a|
  {
    if a == [] {
      assert a + b == b;
    } else {
      assert (a + b)[1..] == a[1..] + b;
      RefRunPrefix(a[1..], b);
    }
  }

  lemma RefLineMatches(reference: string, rest: string)
    requires reference != [] && forall i :: 0 <= i < |reference| ==> IsRefChar(reference[i])
    ensures RefPrefix(("Ref: " + reference) + "\n" + rest) == Some(reference)
  {
    var tail := reference + ("\n" + rest);
    var r1 := "Ref:" + (" " + tail);
    assert "Ref: " == "Ref:" + " ";
    Reassociate("Ref:", " ", reference, "\n", rest);
    SplitAtPrefix("Ref:", " " + tail);
    assert r1[..3] == "Ref" && r1[3] == ':';
    assert StartsWithIgnoreCase(r1, "Ref");
    TrimStartOfSpaced(tail);
    RefRunPrefix(reference, "\n" + rest);
    assert RefRun(TrimStart(r1[4..])) == reference;
  }

  /** A line without `Ref` is skipped, and the Ref line that follows gives its token. */
  lemma RefReadBack(l0: string, reference: string, rest: string)
    requires AbsentIgnoreCase(l0, "Ref")
    requires reference != [] && forall i :: 0 <= i < |reference| ==> IsRefChar(reference[i])
    ensures FirstMatch(l0 + "\n" + (("Ref: " + reference) + "\n" + rest), RefPrefix) == Some(reference)
  {
    var r1 := ("Ref: " + reference) + "\n" + rest;
    forall t | RefPrefix(t).Some? ensures StartsWithIgnoreCase(t, "Ref") {
    }
    LineSkip(l0, r1, RefPrefix, "Ref");
    RefLineMatches(reference, rest);
  }

  lemma {:induction false} LineHeadPrefix(a: string, b: string)
    requires forall i :: 0 <= i < |a| ==> !IsLineBreak(a[i])
    requires b != [] && IsLineBreak(b[0])
    ensures LineHead(a + b) == a
    decreases |a|
  {
    if a == [] {
      assert a + b == b;
    } else {
      assert (a + b)[1..] == a[1..] + b;
      LineHeadPrefix(a[1..], b);
    }
  }

  lemma ConditionLineMatches(shown: string, rest: string)
    requires shown != [] && Trimmed(shown) && '\n' !in shown && '\r' !in shown
    ensures ConditionCapture(("Condition: " + shown) + "\n" + rest) == Some(shown)
  {
    var tail := shown + ("\n" + rest);
    var r2 := "Condition:" + (" " + tail);
    assert "Condition: " == "Condition:" + " ";
    Reassociate("Condition:", " ", shown, "\n", rest);
    SplitAtPrefix("Condition:", " " + tail);
    assert StartsWithIgnoreCase(r2, "Condition:");
    TrimStartOfSpaced(tail);
    LineHeadPrefix(shown, "\n" + rest);
    assert LineHead(TrimStart(r2[10..])) == shown;
  }

  /** Two lines without `Condition:` are skipped, and the Condition line that follows gives
      its label. */
  lemma ConditionReadBack(l0: string, l1: string, shown: string, rest: string)
    requires AbsentIgnoreCase(l0, "Condition:") && AbsentIgnoreCase(l1, "Condition:")
    requires shown != [] && Trimmed(shown) && '\n' !in shown && '\r' !in shown
    ensures FirstMatch(l0 + "\n" + (l1 + "\n" + (("Condition: " + shown) + "\n" + rest)), ConditionCapture) == Some(shown)
  {
    var r2 := ("Condition: " + shown) + "\n" + rest;
    CaptureNeedsLabel();
    LineSkip(l0, l1 + "\n" + r2, ConditionCapture, "Condition:");
    LineSkip(l1, r2, ConditionCapture, "Condition:");
    ConditionLineMatches(shown, rest);
    FirstMatchHere(r2, ConditionCapture);
  }

  lemma CaptureNeedsLabel()
    ensures forall t :: ConditionCapture(t).Some? ==> StartsWithIgnoreCase(t, "Condition:")
    ensures |"Condition:"| > 0 && '\n' !in "Condition:"
  {
  }

  lemma FirstMatchHere<T>(t: string, m: string -> Option<T>)
    requires m(t).Some?
    ensures FirstMatch(t, m) == m(t)
  {
  }

  lemma YearLineLacksLabels(digits: string)
    requires AllDigits(digits)
    ensures AbsentIgnoreCase("Year: " + digits, "Ref")
    ensures AbsentIgnoreCase("Year: " + digits, "Condition:")
  {
    var l0 := "Year: " + digits;
    assert forall i :: 6 <= i < |l0| ==> l0[i] == digits[i - 6];
    AbsentByChar(l0, "Ref", 2);
    AbsentByChar(l0, "Condition:", 0);
  }

  lemma RefLineLacksLabel(reference: string)
    requires forall i :: 0 <= i < |reference| ==> IsRefChar(reference[i])
    ensures AbsentIgnoreCase("Ref: " + reference, "Condition:")
  {
    var l1 := "Ref: " + reference;
    assert forall i :: 5 <= i < |l1| ==> l1[i] == reference[i - 5];
    AbsentByChar(l1, "Condition:", 9);
  }

  lemma LabelOneLine(condition: string)
    requires !Blank(condition) && '\n' !in condition && '\r' !in condition
    ensures var shown := FormatConditionLabel(condition);
      shown != [] && Trimmed(shown) && '\n' !in shown && '\r' !in shown
  {
    FormatConditionLabelMeaning(condition);
    var t := Trim(condition);
    TrimAvoids(condition, '\n');
    TrimAvoids(condition, '\r');
    UpperAvoids(t, '\n');
    UpperAvoids(t, '\r');
    assert FormatConditionLabel(condition) == Upper(t);
  }

  /** The five lines of the description, with the first three split off. */
  lemma DescriptionSplit(year: int, reference: string, condition: string, boxAndPapers: bool)
    ensures var lines := DescriptionLines(year, reference, condition, boxAndPapers);
      BuildStandardProductDescription(year, reference, condition, boxAndPapers)
        == lines[0] + "\n" + (lines[1] + "\n" + (lines[2] + "\n" + Join(lines[3..], "\n")))
  {
    var lines := DescriptionLines(year, reference, condition, boxAndPapers);
    var rest := Join(lines[3..], "\n");
    assert lines[1..][1..] == lines[2..] && lines[2..][1..] == lines[3..];
    assert Join(lines[2..], "\n") == lines[2] + "\n" + rest;
    assert Join(lines[1..], "\n") == lines[1] + "\n" + Join(lines[2..], "\n");
  }

  lemma YearOfStandard(d: string, year: int, tail: string, title: string, currentYear: int)
    requires 1000 <= year <= 9999
    requires d == ("Year: " + IntToString(year)) + "\n" + tail
    ensures ParseYear(title, d, currentYear) == year
  {
    NatToStringFourDigits(year);
    DigitsValueOfNatToString(year);
    YearReadBack(NatToString(year), tail);
  }

  lemma RefOfStandard(d: string, year: int, reference: string, tail: string, title: string)
    requires reference != [] && forall i :: 0 <= i < |reference| ==> IsRefChar(reference[i])
    requires 1000 <= year <= 9999
    requires d == ("Year: " + IntToString(year)) + "\n" + (("Ref: " + reference) + "\n" + tail)
    ensures ParseReference(title, d) == reference
  {
    NatToStringFourDigits(year);
    YearLineLacksLabels(NatToString(year));
    RefReadBack("Year: " + IntToString(year), reference, tail);
  }

  lemma ConditionOfStandard(d: string, l0: string, l1: string, shown: string, rest: string)
    requires AbsentIgnoreCase(l0, "Condition:") && AbsentIgnoreCase(l1, "Condition:")
    requires shown != [] && Trimmed(shown) && '\n' !in shown && '\r' !in shown
    requires d == l0 + "\n" + (l1 + "\n" + (("Condition: " + shown) + "\n" + rest))
    ensures ParseCondition(d) == shown
  {
    ConditionReadBack(l0, l1, shown, rest);
    TrimOfTrimmed(shown);
  }

  lemma StandardYearRoundTrip(year: int, reference: string, condition: string, boxAndPapers: bool,
                               title: string, currentYear: int)
    requires 1000 <= year <= 9999
    ensures ParseYear(title, BuildStandardProductDescription(year, reference, condition, boxAndPapers), currentYear) == year
  {
    var d := BuildStandardProductDescription(year, reference, condition, boxAndPapers);
    var lines := DescriptionLines(year, reference, condition, boxAndPapers);
    DescriptionSplit(year, reference, condition, boxAndPapers);
    YearOfStandard(d, year, lines[1] + "\n" + (lines[2] + "\n" + Join(lines[3..], "\n")), title, currentYear);
  }

  lemma StandardRefRoundTrip(year: int, reference: string, condition: string, boxAndPapers: bool, title: string)
    requires 1000 <= year <= 9999
    requires reference != [] && forall i :: 0 <= i < |reference| ==> IsRefChar(reference[i])
    ensures ParseReference(title, BuildStandardProductDescription(year, reference, condition, boxAndPapers)) == reference
  {
    var d := BuildStandardProductDescription(year, reference, condition, boxAndPapers);
    var lines := DescriptionLines(year, reference, condition, boxAndPapers);
    DescriptionSplit(year, reference, condition, boxAndPapers);
    RefOfStandard(d, year, reference, lines[2] + "\n" + Join(lines[3..], "\n"), title);
  }

  lemma StandardConditionRoundTrip(year: int, reference: string, condition: string, boxAndPapers: bool)
    requires 1000 <= year <= 9999
    requires forall i :: 0 <= i < |reference| ==> IsRefChar(reference[i])
    requires !Blank(condition) && '\n' !in condition && '\r' !in condition
    ensures ParseCondition(BuildStandardProductDescription(year, reference, condition, boxAndPapers))
      == FormatConditionLabel(condition)
  {
    var d := BuildStandardProductDescription(year, reference, condition, boxAndPapers);
    var lines := DescriptionLines(year, reference, condition, boxAndPapers);
    DescriptionSplit(year, reference, condition, boxAndPapers);
    NatToStringFourDigits(year);
    YearLineLacksLabels(NatToString(year));
    RefLineLacksLabel(reference);
    LabelOneLine(condition);
    ConditionOfStandard(d, lines[0], lines[1], FormatConditionLabel(condition), Join(lines[3..], "\n"));
  }

  /** The importer reads back the year, the reference and the condition shown of a standard
      description built from a four-digit year, a reference of `[A-Za-z0-9.-]` characters and
      a non-blank one-line condition, whatever the title. */
  lemma StandardDescriptionRoundTrip(year: int, reference: string, condition: string, boxAndPapers: bool,
                                     title: string, currentYear: int)
    requires 1000 <= year <= 9999
    requires reference != [] && forall i :: 0 <= i < |reference| ==> IsRefChar(reference[i])
    requires !Blank(condition) && '\n' !in condition && '\r' !in condition
    ensures var d := BuildStandardProductDescription(year, reference, condition, boxAndPapers);
      && ParseYear(title, d, currentYear) == year
      && ParseReference(title, d) == reference
      && ParseCondition(d) == FormatConditionLabel(condition)
  {
    StandardYearRoundTrip(year, reference, condition, boxAndPapers, title, currentYear);
    StandardRefRoundTrip(year, reference, condition, boxAndPapers, title);
    StandardConditionRoundTrip(year, reference, condition, boxAndPapers);
  }
}
