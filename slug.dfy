/**
 * `toSlug` of lib/importers/facebook.ts: lower-case the text, turn every run of
 * characters outside `[a-z0-9]` into one hyphen, and strip hyphens from both ends.
 */
module Slug {
  import opened Strings

  predicate IsAlnum(c: char) { IsLowerLetter(c) || IsDigit(c) }

  /** Every character is in `[a-z0-9-]` and no two hyphens are adjacent. */
  ghost predicate HyphenSeparated(s: string) {
    && (forall i :: 0 <= i < |s| ==> IsAlnum(s[i]) || s[i] == '-')
    && (forall i, j :: 0 <= i < j < |s| && j == i + 1 ==> !(s[i] == '-' && s[j] == '-'))
  }

  /** What a slug looks like: `[a-z0-9-]` only, no hyphen at either end, no `--`. */
  ghost predicate IsSlug(s: string) {
    HyphenSeparated(s) && (s == [] || (s[0] != '-' && s[|s| - 1] != '-'))
  }

  /** Drops the leading run of characters outside `[a-z0-9]`. */
  function DropRun(s: string): (r: string)
    ensures |r| <= |s| && r == s[|s| - |r|..]
    ensures r == [] || IsAlnum(r[0])
    ensures |s| > 0 && !IsAlnum(s[0]) ==> |r| < |s|
    decreases |s|
  {
    if |s| > 0 && !IsAlnum(s[0]) then DropRun(s[1..]) else s
  }

  /** `.replace(/[^a-z0-9]+/g, "-")`. */
  function HyphenateRuns(s: string): (r: string)
    ensures HyphenSeparated(r)
    ensures r == [] <==> s == []
    ensures r != [] ==> (r[0] == '-' <==> !IsAlnum(s[0]))
    decreases |s|
  {
    if s == [] then []
    else if !IsAlnum(s[0]) then
      var t := HyphenateRuns(DropRun(s));
      HyphenSeparatedCons('-', t);
      "-" + t
    else
      var t := HyphenateRuns(s[1..]);
      HyphenSeparatedCons(s[0], t);
      [s[0]] + t
  }

  lemma HyphenSeparatedCons(c: char, t: string)
    requires HyphenSeparated(t) && (IsAlnum(c) || c == '-')
    requires c == '-' ==> t == [] || t[0] != '-'
    ensures HyphenSeparated([c] + t)
  {
    var r := [c] + t;
    assert r[1..] == t;
    forall i, j | 0 <= i < j < |r| && j == i + 1 ensures !(r[i] == '-' && r[j] == '-') {
      if i > 0 {
        assert r[i] == t[i - 1] && r[j] == t[j - 1];
      }
    }
  }

  /** `.replace(/^-+/, "")`. */
  function DropLeadingHyphens(s: string): (r: string)
    ensures |r| <= |s| && r == s[|s| - |r|..]
    ensures r == [] || r[0] != '-'
    decreases |s|
  {
    if |s| > 0 && s[0] == '-' then DropLeadingHyphens(s[1..]) else s
  }

  /** `.replace(/-+$/, "")`. */
  function DropTrailingHyphens(s: string): (r: string)
    ensures |r| <= |s| && r == s[..|r|]
    ensures r == [] || r[|r| - 1] != '-'
    decreases |s|
  {
    if |s| > 0 && s[|s| - 1] == '-' then DropTrailingHyphens(s[..|s| - 1]) else s
  }

  lemma HyphenSeparatedSlice(s: string, a: int, b: int)
    requires HyphenSeparated(s) && 0 <= a <= b <= |s|
    ensures HyphenSeparated(s[a..b])
  {
    var t := s[a..b];
    forall i, j | 0 <= i && j == i + 1 && j < |t| ensures !(t[i] == '-' && t[j] == '-') {
      assert t[i] == s[a + i] && t[j] == s[a + j];
    }
  }

  /** `toSlug(value)`; its result is always a slug. */
  function ToSlug(value: string): (r: string)
    ensures IsSlug(r)
  {
    var h := HyphenateRuns(Lower(value));
    var lead := DropLeadingHyphens(h);
    HyphenSeparatedSlice(h, |h| - |lead|, |h|);
    var r := DropTrailingHyphens(lead);
    HyphenSeparatedSlice(lead, 0, |r|);
    r
  }

  lemma {:induction false} HyphenateFixed(s: string)
    requires HyphenSeparated(s)
    ensures HyphenateRuns(s) == s
    decreases |s|
  {
    if s != [] {
      HyphenSeparatedSlice(s, 1, |s|);
      HyphenateFixed(s[1..]);
      if !IsAlnum(s[0]) {
        assert |s| == 1 || s[1] != '-';
        assert DropRun(s) == DropRun(s[1..]) == s[1..];
        assert HyphenateRuns(s) == "-" + HyphenateRuns(s[1..]);
      } else {
        assert HyphenateRuns(s) == [s[0]] + HyphenateRuns(s[1..]);
      }
    }
  }

  /** A slug is its own slug. */
  lemma SlugIsFixed(s: string)
    requires IsSlug(s)
    ensures ToSlug(s) == s
  {
    assert Lower(s) == s;
    HyphenateFixed(s);
  }

  /** `toSlug(toSlug(s)) == toSlug(s)`. */
  lemma ToSlugIdempotent(s: string)
    ensures ToSlug(ToSlug(s)) == ToSlug(s)
  {
    SlugIsFixed(ToSlug(s));
  }
}
