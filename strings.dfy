/**
 * The JavaScript string operations the core relies on, over `seq<char>`:
 * `trim`, `toLowerCase`/`toUpperCase` (ASCII letters), `startsWith`,
 * `includes`, `split` on one character, `join`, the `/\s+/g` collapse,
 * global literal replacement and decimal rendering of numbers.
 */
module Strings {

  /** The characters matched by `\s` and removed by `trim()`: ECMAScript
      WhiteSpace and LineTerminator code points. Tab, line feed, vertical tab,
      form feed and carriage return are the range U+0009..U+000D. */
  predicate IsSpace(c: char) {
    c == ' ' || ('\t' <= c <= '\r') || ('\U{00A0}' <= c && c in HighSpaces)
  }

  /** The whitespace code points outside ASCII. */
  const HighSpaces: set<char> := {
    '\U{00A0}', '\U{1680}', '\U{2000}', '\U{2001}', '\U{2002}', '\U{2003}', '\U{2004}', '\U{2005}',
    '\U{2006}', '\U{2007}', '\U{2008}', '\U{2009}', '\U{200A}', '\U{2028}', '\U{2029}', '\U{202F}',
    '\U{205F}', '\U{3000}', '\U{FEFF}' }

  predicate IsDigit(c: char) { '0' <= c <= '9' }
  predicate IsUpperLetter(c: char) { 'A' <= c <= 'Z' }
  predicate IsLowerLetter(c: char) { 'a' <= c <= 'z' }

  /** The characters of `\w`, which decide where `\b` holds. */
  predicate IsWordChar(c: char) { IsUpperLetter(c) || IsLowerLetter(c) || IsDigit(c) || c == '_' }

  function LowerChar(c: char): char { if IsUpperLetter(c) then (c as int + 32) as char else c }
  function UpperChar(c: char): char { if IsLowerLetter(c) then (c as int - 32) as char else c }

  function Lower(s: string): string { seq(|s|, i requires 0 <= i < |s| => LowerChar(s[i])) }
  function Upper(s: string): string { seq(|s|, i requires 0 <= i < |s| => UpperChar(s[i])) }

  /** Upper-casing keeps every non-letter, so whitespace and line breaks stay where they were. */
  lemma UpperKeepsShape(s: string)
    ensures |Upper(s)| == |s|
    ensures forall i :: 0 <= i < |s| ==> (IsSpace(Upper(s)[i]) <==> IsSpace(s[i]))
    ensures forall i :: 0 <= i < |s| ==> (Upper(s)[i] == '\n' <==> s[i] == '\n')
    ensures forall i :: 0 <= i < |s| ==> !IsLowerLetter(Upper(s)[i])
    ensures Lower(Upper(s)) == Lower(s)
  {
  }

  /** Lower-casing keeps every non-letter; case-folding twice is folding once. */
  lemma LowerKeepsShape(s: string)
    ensures |Lower(s)| == |s|
    ensures forall i :: 0 <= i < |s| ==> (IsSpace(Lower(s)[i]) <==> IsSpace(s[i]))
    ensures forall i :: 0 <= i < |s| ==> (Lower(s)[i] == ' ' <==> s[i] == ' ')
    ensures forall i :: 0 <= i < |s| ==> !IsUpperLetter(Lower(s)[i])
    ensures Upper(Lower(s)) == Upper(s) && Lower(Lower(s)) == Lower(s)
  {
  }

  /** Equality under the ASCII case folding that a regular expression's `i` flag applies. */
  predicate EqualsIgnoreCase(a: string, b: string) { Lower(a) == Lower(b) }

  predicate StartsWith(s: string, p: string) { |p| <= |s| && s[..|p|] == p }
  predicate EndsWith(s: string, p: string) { |p| <= |s| && s[|s| - |p|..] == p }
  predicate StartsWithIgnoreCase(s: string, p: string) { |p| <= |s| && EqualsIgnoreCase(s[..|p|], p) }

  /** `/^https?:\/\//i.test(s)`: the string opens with `http://` or `https://`, in any case. */
  predicate HasHttpScheme(s: string) {
    StartsWithIgnoreCase(s, "http://") || StartsWithIgnoreCase(s, "https://")
  }

  /** A string that opens with `/` has no URL scheme. */
  lemma SlashHasNoScheme(s: string)
    requires s != [] && s[0] == '/'
    ensures !HasHttpScheme(s)
  {
    if |s| >= 7 {
      assert Lower(s[..7])[0] == '/';
    }
    if |s| >= 8 {
      assert Lower(s[..8])[0] == '/';
    }
  }

  /** `p` occurs in `s` at index `i`. */
  predicate OccursAt(s: string, p: string, i: int) { 0 <= i <= |s| - |p| && s[i..i + |p|] == p }

  /** `s.includes(p)`. */
  predicate Contains(s: string, p: string) {
    exists i :: 0 <= i <= |s| - |p| && OccursAt(s, p, i)
  }

  /** A text lacking one character of `p` does not contain `p`. */
  lemma ContainsNeedsChar(s: string, p: string, j: int)
    requires 0 <= j < |p| && p[j] !in s
    ensures !Contains(s, p)
  {
    forall i | 0 <= i <= |s| - |p| ensures !OccursAt(s, p, i) {
      assert s[i..i + |p|][j] == s[i + j];
    }
  }

  predicate NoSpaces(s: string) { forall i :: 0 <= i < |s| ==> !IsSpace(s[i]) }

  /** No whitespace at either end: what `trim()` leaves. */
  predicate Trimmed(s: string) { s == [] || (!IsSpace(s[0]) && !IsSpace(s[|s| - 1])) }

  /** Every whitespace character is a plain space, and no two of them are adjacent. */
  ghost predicate SingleSpaced(s: string) {
    && (forall i :: 0 <= i < |s| && IsSpace(s[i]) ==> s[i] == ' ')
    && (forall i, j :: 0 <= i < j < |s| && j == i + 1 ==> !(IsSpace(s[i]) && IsSpace(s[j])))
  }

  /** Trimmed and single-spaced: a fixed point of trimming and of collapsing `\s+`. */
  ghost predicate Tidy(s: string) { Trimmed(s) && SingleSpaced(s) }

  function TrimStart(s: string): (r: string)
    ensures |r| <= |s| && r == s[|s| - |r|..]
    ensures r == [] || !IsSpace(r[0])
    ensures |s| > 0 && IsSpace(s[0]) ==> |r| < |s|
    decreases |s|
  {
    if |s| > 0 && IsSpace(s[0]) then TrimStart(s[1..]) else s
  }

  function TrimEnd(s: string): (r: string)
    ensures |r| <= |s| && r == s[..|r|]
    ensures r == [] || !IsSpace(r[|r| - 1])
    decreases |s|
  {
    if |s| > 0 && IsSpace(s[|s| - 1]) then TrimEnd(s[..|s| - 1]) else s
  }

  /** What `TrimStart` removes is whitespace. */
  lemma {:induction false} TrimStartDropsSpaces(s: string)
    ensures forall i :: 0 <= i < |s| - |TrimStart(s)| ==> IsSpace(s[i])
    decreases |s|
  {
    if |s| > 0 && IsSpace(s[0]) {
      TrimStartDropsSpaces(s[1..]);
      assert forall i :: 1 <= i < |s| ==> s[i] == s[1..][i - 1];
    }
  }

  /** What `TrimEnd` removes is whitespace. */
  lemma {:induction false} TrimEndDropsSpaces(s: string)
    ensures forall i :: |TrimEnd(s)| <= i < |s| ==> IsSpace(s[i])
    decreases |s|
  {
    if |s| > 0 && IsSpace(s[|s| - 1]) {
      TrimEndDropsSpaces(s[..|s| - 1]);
      assert forall i :: 0 <= i < |s| - 1 ==> s[i] == s[..|s| - 1][i];
    }
  }

  /** `s.trim()`. */
  function Trim(s: string): (r: string)
    ensures Trimmed(r) && |r| <= |s|
  {
    TrimEnd(TrimStart(s))
  }

  /** `trim()` leaves nothing exactly when every character is whitespace. */
  lemma TrimEmptyIff(s: string)
    ensures Trim(s) == [] <==> forall i :: 0 <= i < |s| ==> IsSpace(s[i])
  {
    var t := TrimStart(s);
    TrimStartDropsSpaces(s);
    TrimEndDropsSpaces(t);
    if Trim(s) == [] {
      forall i | 0 <= i < |s| ensures IsSpace(s[i]) {
        if i >= |s| - |t| {
          assert s[i] == t[i - (|s| - |t|)];
        }
      }
    }
  }

  /** `r` occurs in `s` at index `a`. */
  predicate RunAt(s: string, a: nat, r: string) {
    a + |r| <= |s| && forall i :: 0 <= i < |r| ==> r[i] == s[a + i]
  }

  /** What `trim()` keeps is one contiguous run of the input. */
  lemma TrimSlice(s: string)
    ensures RunAt(s, |s| - |TrimStart(s)|, Trim(s))
  {
    RunOfSuffixPrefix(s, TrimStart(s), Trim(s));
  }

  /** A prefix of a suffix is a run. */
  lemma RunOfSuffixPrefix(s: string, t: string, r: string)
    requires |t| <= |s| && t == s[|s| - |t|..] && |r| <= |t| && r == t[..|r|]
    ensures RunAt(s, |s| - |t|, r)
  {
    forall i | 0 <= i < |r| ensures r[i] == s[|s| - |t| + i] {
      assert r[i] == t[i];
    }
  }

  /** Trimming never introduces a character. */
  lemma TrimAvoids(s: string, c: char)
    requires c !in s
    ensures c !in Trim(s)
  {
    TrimSlice(s);
    AvoidsRun(s, |s| - |TrimStart(s)|, Trim(s), c);
  }

  lemma AvoidsRun(s: string, a: nat, r: string, c: char)
    requires c !in s && RunAt(s, a, r)
    ensures c !in r
  {
    assert forall i :: 0 <= i < |r| ==> r[i] == s[a + i];
  }

  /** Upper-casing never introduces a character that is not an upper-case letter. */
  lemma UpperAvoids(s: string, c: char)
    requires c !in s && !IsUpperLetter(c)
    ensures c !in Upper(s)
  {
    assert forall i :: 0 <= i < |s| ==> Upper(s)[i] == UpperChar(s[i]) && s[i] != c;
  }

  /** The upper-case forms of the longer brand names the importers match against. */
  lemma UpperAudemars()
    ensures Upper("Audemars Piguet") == "AUDEMARS PIGUET"
  {
    assert Upper("Audemars Piguet") == "AUDEMARS " + "PIGUET";
  }

  lemma UpperPatek()
    ensures Upper("Patek Philippe") == "PATEK PHILIPPE"
  {
    assert Upper("Patek Philippe") == "PATEK " + "PHILIPPE";
  }
  lemma UpperRichardMille()
    ensures Upper("Richard Mille") == "RICHARD MILLE"
  {
    assert Upper("Richard Mille") == "RICHARD " + "MILLE";
  }

  /** A blank string: `!s.trim()`. */
  predicate Blank(s: string) { Trim(s) == [] }

  lemma TrimOfTrimmed(s: string)
    requires Trimmed(s)
    ensures Trim(s) == s
  {
  }

  lemma TrimIdempotent(s: string)
    ensures Trim(Trim(s)) == Trim(s)
  {
    TrimOfTrimmed(Trim(s));
  }

  /** `s.replace(/\s+/g, " ")`: every maximal run of whitespace becomes one space. */
  function CollapseSpaces(s: string): string
    decreases |s|
  {
    if s == [] then []
    else if IsSpace(s[0]) then " " + CollapseSpaces(TrimStart(s))
    else [s[0]] + CollapseSpaces(s[1..])
  }

  /** Prepending one character to a single-spaced string keeps it single-spaced when the
      character is not whitespace, or is a plain space followed by a non-space. */
  lemma SingleSpacedCons(c: char, t: string)
    requires SingleSpaced(t)
    requires !IsSpace(c) || (c == ' ' && (t == [] || !IsSpace(t[0])))
    ensures SingleSpaced([c] + t)
  {
    var u := [c] + t;
    forall i, j | 0 <= i < j < |u| && j == i + 1 ensures !(IsSpace(u[i]) && IsSpace(u[j])) {
      if i > 0 {
        assert u[i] == t[i - 1] && u[j] == t[j - 1];
      }
    }
    forall i | 0 <= i < |u| && IsSpace(u[i]) ensures u[i] == ' ' {
      if i > 0 {
        assert u[i] == t[i - 1];
      }
    }
  }

  /** The collapsed string is no longer, empty only for the empty string, single-spaced, and
      begins and ends with whitespace exactly when the input does. */
  lemma CollapseShape(s: string)
    ensures var r := CollapseSpaces(s);
      && |r| <= |s| && (r == [] <==> s == [])
      && SingleSpaced(r)
      && (r != [] ==> (IsSpace(r[0]) <==> IsSpace(s[0])))
      && (r != [] ==> (IsSpace(r[|r| - 1]) <==> IsSpace(s[|s| - 1])))
  {
    CollapseFront(s);
    CollapseSingleSpaced(s);
    CollapseBack(s);
  }

  lemma {:induction false} CollapseFront(s: string)
    ensures var r := CollapseSpaces(s);
      && |r| <= |s| && (r == [] <==> s == [])
      && (r != [] ==> (IsSpace(r[0]) <==> IsSpace(s[0])))
    decreases |s|
  {
    if s != [] {
      if IsSpace(s[0]) {
        CollapseFront(TrimStart(s));
      } else {
        CollapseFront(s[1..]);
      }
    }
  }

  lemma {:induction false} CollapseSingleSpaced(s: string)
    ensures SingleSpaced(CollapseSpaces(s))
    decreases |s|
  {
    if s != [] {
      if IsSpace(s[0]) {
        var t := TrimStart(s);
        CollapseSingleSpaced(t);
        CollapseFront(t);
        SingleSpacedCons(' ', CollapseSpaces(t));
      } else {
        CollapseSingleSpaced(s[1..]);
        SingleSpacedCons(s[0], CollapseSpaces(s[1..]));
      }
    }
  }

  /** Collapsing keeps whether the text ends in whitespace. */
  predicate LastSpaceKept(s: string) {
    var r := CollapseSpaces(s);
    r != [] ==> (IsSpace(r[|r| - 1]) <==> IsSpace(s[|s| - 1]))
  }

  lemma {:induction false} CollapseBack(s: string)
    ensures LastSpaceKept(s)
    decreases |s|
  {
    if s != [] {
      if IsSpace(s[0]) {
        CollapseBack(TrimStart(s));
        CollapseBackSpace(s);
      } else {
        CollapseBack(s[1..]);
        CollapseBackChar(s);
      }
    }
  }

  lemma CollapseBackSpace(s: string)
    requires s != [] && IsSpace(s[0]) && LastSpaceKept(TrimStart(s))
    ensures LastSpaceKept(s)
  {
    var t := TrimStart(s);
    CollapseFront(t);
    LastOfCons(' ', CollapseSpaces(t), CollapseSpaces(s));
    if t == [] {
      TrimStartDropsSpaces(s);
      assert IsSpace(s[|s| - 1]);
    } else {
      assert t[|t| - 1] == s[|s| - 1];
    }
  }

  lemma CollapseBackChar(s: string)
    requires s != [] && !IsSpace(s[0]) && LastSpaceKept(s[1..])
    ensures LastSpaceKept(s)
  {
    CollapseFront(s[1..]);
    LastOfCons(s[0], CollapseSpaces(s[1..]), CollapseSpaces(s));
    if |s| > 1 {
      assert s[1..][|s| - 2] == s[|s| - 1];
    }
  }

  lemma LastOfCons(c: char, rt: string, r: string)
    requires r == [c] + rt
    ensures r[|r| - 1] == if rt == [] then c else rt[|rt| - 1]
  {
  }

  lemma CollapseOfTrimmedIsTidy(s: string)
    requires Trimmed(s)
    ensures Tidy(CollapseSpaces(s))
  {
    CollapseShape(s);
  }

  lemma SingleSpacedTail(s: string)
    requires SingleSpaced(s) && s != []
    ensures SingleSpaced(s[1..])
  {
    var t := s[1..];
    forall i, j | 0 <= i && j == i + 1 && j < |t| ensures !(IsSpace(t[i]) && IsSpace(t[j])) {
      assert t[i] == s[i + 1] && t[j] == s[j + 1];
    }
  }

  /** A space followed by a non-space collapses to one space. */
  lemma CollapseLoneSpace(s: string)
    requires |s| > 0 && IsSpace(s[0]) && (|s| == 1 || !IsSpace(s[1]))
    ensures CollapseSpaces(s) == " " + CollapseSpaces(s[1..])
  {
    assert TrimStart(s) == TrimStart(s[1..]);
    assert TrimStart(s[1..]) == s[1..];
  }

  lemma CollapseNonSpace(s: string)
    requires |s| > 0 && !IsSpace(s[0])
    ensures CollapseSpaces(s) == [s[0]] + CollapseSpaces(s[1..])
  {
  }

  /** A non-space character in front passes through collapsing unchanged. */
  lemma CollapseCons(c: char, u: string)
    requires !IsSpace(c)
    ensures CollapseSpaces([c] + u) == [c] + CollapseSpaces(u)
  {
    assert ([c] + u)[1..] == u;
  }

  lemma ConcatAssoc(p: string, q: string, r: string)
    ensures (p + q) + r == p + (q + r)
  {
  }

  lemma {:induction false} CollapseOfSingleSpaced(s: string)
    requires SingleSpaced(s)
    ensures CollapseSpaces(s) == s
    decreases |s|
  {
    if s != [] {
      SingleSpacedTail(s);
      CollapseOfSingleSpaced(s[1..]);
      if IsSpace(s[0]) {
        assert s[0] == ' ';
        assert |s| == 1 || !IsSpace(s[1]);
        CollapseLoneSpace(s);
        assert " " + s[1..] == s;
      } else {
        CollapseNonSpace(s);
        assert [s[0]] + s[1..] == s;
      }
    }
  }

  /** A tidy string is left alone by trimming and by collapsing. */
  lemma TidyIsFixed(s: string)
    requires Tidy(s)
    ensures Trim(s) == s && CollapseSpaces(s) == s
  {
    TrimOfTrimmed(s);
    CollapseOfSingleSpaced(s);
  }

  /** Every run of a single-spaced string is single-spaced. */
  lemma SingleSpacedRun(s: string, a: nat, r: string)
    requires SingleSpaced(s) && RunAt(s, a, r)
    ensures SingleSpaced(r)
  {
    forall i | 0 <= i < |r| && IsSpace(r[i]) ensures r[i] == ' ' {
      assert r[i] == s[a + i];
    }
    forall i, j | 0 <= i < j < |r| && j == i + 1 ensures !(IsSpace(r[i]) && IsSpace(r[j])) {
      assert r[i] == s[a + i] && r[j] == s[a + j];
    }
  }

  /** Trimming a single-spaced string keeps it single-spaced. */
  lemma TrimKeepsSingleSpaced(s: string)
    requires SingleSpaced(s)
    ensures Tidy(Trim(s))
  {
    TrimSlice(s);
    SingleSpacedRun(s, |s| - |TrimStart(s)|, Trim(s));
  }

  /** `s.split(sep)` for a one-character separator. */
  function Split(s: string, sep: char): (r: seq<string>)
    ensures |r| >= 1
    ensures |r[0]| <= |s| && r[0] == s[..|r[0]|] && sep !in r[0]
    ensures |r[0]| < |s| ==> s[|r[0]|] == sep
    decreases |s|
  {
    if s == [] then [""]
    else
      var rest := Split(s[1..], sep);
      if s[0] == sep then [""] + rest else [[s[0]] + rest[0]] + rest[1..]
  }

  /** `ws.join(sep)`. */
  function Join(ws: seq<string>, sep: string): string
    decreases |ws|
  {
    if |ws| == 0 then "" else if |ws| == 1 then ws[0] else ws[0] + sep + Join(ws[1..], sep)
  }

  lemma {:induction false} SplitWord(w: string, rest: string, sep: char)
    requires sep !in w
    ensures Split(w + [sep] + rest, sep) == [w] + Split(rest, sep)
    ensures Split(w, sep) == [w]
    decreases |w|
  {
    if w == [] {
      assert ([] + [sep] + rest)[1..] == rest;
    } else {
      SplitWord(w[1..], rest, sep);
      assert (w + [sep] + rest)[1..] == w[1..] + [sep] + rest;
      assert [w[0]] + w[1..] == w;
    }
  }

  /** Splitting a joined list gives the list back when no element holds the separator. */
  lemma {:induction false} SplitJoin(ws: seq<string>, sep: char)
    requires |ws| >= 1
    requires forall i :: 0 <= i < |ws| ==> sep !in ws[i]
    ensures Split(Join(ws, [sep]), sep) == ws
    decreases |ws|
  {
    if |ws| == 1 {
      SplitWord(ws[0], "", sep);
    } else {
      var tail := Join(ws[1..], [sep]);
      assert Join(ws, [sep]) == ws[0] + [sep] + tail;
      SplitJoin(ws[1..], sep);
      SplitWord(ws[0], tail, sep);
      assert [ws[0]] + ws[1..] == ws;
    }
  }

  /** Replaces every occurrence of the character `c` by `r` (`replaceAll` with a one-character pattern). */
  function ReplaceChar(s: string, c: char, r: string): string
    decreases |s|
  {
    if s == [] then "" else (if s[0] == c then r else [s[0]]) + ReplaceChar(s[1..], c, r)
  }

  lemma {:induction false} ReplaceCharAppend(a: string, b: string, c: char, r: string)
    ensures ReplaceChar(a + b, c, r) == ReplaceChar(a, c, r) + ReplaceChar(b, c, r)
    decreases |a|
  {
    if a == [] {
      assert a + b == b;
    } else {
      var head := if a[0] == c then r else [a[0]];
      ReplaceCharAppend(a[1..], b, c, r);
      assert (a + b)[0] == a[0] && (a + b)[1..] == a[1..] + b;
      calc {
        ReplaceChar(a + b, c, r);
        head + ReplaceChar(a[1..] + b, c, r);
        head + (ReplaceChar(a[1..], c, r) + ReplaceChar(b, c, r));
        (head + ReplaceChar(a[1..], c, r)) + ReplaceChar(b, c, r);
      }
    }
  }

  lemma {:induction false} ReplaceCharAbsent(s: string, c: char, r: string)
    requires c !in s
    ensures ReplaceChar(s, c, r) == s
    decreases |s|
  {
    if s != [] {
      ReplaceCharAbsent(s[1..], c, r);
    }
  }

  /** Replacing the separator of a join replaces the separator of the join. */
  lemma {:induction false} ReplaceCharJoin(ws: seq<string>, c: char, r: string)
    requires forall i :: 0 <= i < |ws| ==> c !in ws[i]
    ensures ReplaceChar(Join(ws, [c]), c, r) == Join(ws, r)
    decreases |ws|
  {
    if |ws| == 1 {
      ReplaceCharAbsent(ws[0], c, r);
    } else if |ws| > 1 {
      ReplaceCharJoin(ws[1..], c, r);
      ReplaceCharAppend(ws[0] + [c], Join(ws[1..], [c]), c, r);
      ReplaceCharAppend(ws[0], [c], c, r);
      ReplaceCharAbsent(ws[0], c, r);
    }
  }

  lemma {:induction false} JoinAvoids(ws: seq<string>, sep: string, c: char)
    requires c !in sep
    requires forall i :: 0 <= i < |ws| ==> c !in ws[i]
    ensures c !in Join(ws, sep)
    decreases |ws|
  {
    if |ws| > 1 {
      JoinAvoids(ws[1..], sep, c);
    }
  }

  /** Removes, left to right, every non-overlapping occurrence of the literal `p`
      (`s.replace(new RegExp(escaped(p), "g" or "ig"), "")`). */
  function RemoveAll(s: string, p: string, ignoreCase: bool): (r: string)
    requires |p| > 0
    ensures |r| <= |s|
    decreases |s|
  {
    if |s| < |p| then s
    else if (if ignoreCase then EqualsIgnoreCase(s[..|p|], p) else s[..|p|] == p) then RemoveAll(s[|p|..], p, ignoreCase)
    else [s[0]] + RemoveAll(s[1..], p, ignoreCase)
  }

  function DigitChar(d: nat): char
    requires d < 10
  {
    ('0' as int + d) as char
  }

  function DigitValue(c: char): nat
    requires IsDigit(c)
  {
    c as int - '0' as int
  }

  predicate AllDigits(s: string) { forall i :: 0 <= i < |s| ==> IsDigit(s[i]) }

  /** `String(n)` for a non-negative integer. */
  function NatToString(n: nat): (r: string)
    ensures |r| >= 1 && AllDigits(r)
    decreases n
  {
    if n < 10 then [DigitChar(n)] else NatToString(n / 10) + [DigitChar(n % 10)]
  }

  /** `String(i)` for an integer. */
  function IntToString(i: int): string {
    if i < 0 then "-" + NatToString(-i) else NatToString(i)
  }

  /** The value of a string of decimal digits (`Number` on such a string). */
  function DigitsValue(s: string): nat
    requires AllDigits(s)
    decreases |s|
  {
    if s == [] then 0 else DigitsValue(s[..|s| - 1]) * 10 + DigitValue(s[|s| - 1])
  }

  /** Reading back a rendered number gives the number. */
  lemma {:induction false} DigitsValueOfNatToString(n: nat)
    ensures DigitsValue(NatToString(n)) == n
    decreases n
  {
    if n >= 10 {
      DigitsValueOfNatToString(n / 10);
      var s := NatToString(n / 10) + [DigitChar(n % 10)];
      assert s[..|s| - 1] == NatToString(n / 10);
    }
  }

  lemma NatToStringInjective(a: nat, b: nat)
    requires NatToString(a) == NatToString(b)
    ensures a == b
  {
    DigitsValueOfNatToString(a);
    DigitsValueOfNatToString(b);
  }

  /** Four-digit numbers render as exactly four digits. */
  lemma NatToStringFourDigits(n: nat)
    requires 1000 <= n <= 9999
    ensures |NatToString(n)| == 4
  {
    var a, b, c := n / 10, n / 10 / 10, n / 10 / 10 / 10;
    assert 100 <= a <= 999 && 10 <= b <= 99 && 1 <= c <= 9;
    assert |NatToString(c)| == 1;
    assert |NatToString(b)| == 2;
    assert |NatToString(a)| == 3;
  }

  /** The strings of `ws` that are not empty, in order (`filter(Boolean)`). */
  function NonEmptyOnly(ws: seq<string>): (r: seq<string>)
    ensures |r| <= |ws|
    ensures forall i :: 0 <= i < |r| ==> r[i] != []
    ensures forall w :: w in r <==> w in ws && w != []
    decreases |ws|
  {
    if ws == [] then [] else (if ws[0] == [] then [] else [ws[0]]) + NonEmptyOnly(ws[1..])
  }

  /** `ws.map((w) => w.trim())`. */
  function TrimEach(ws: seq<string>): seq<string> {
    seq(|ws|, i requires 0 <= i < |ws| => Trim(ws[i]))
  }

  lemma TrimEachCons(w: string, ws: seq<string>)
    ensures TrimEach([w] + ws) == [Trim(w)] + TrimEach(ws)
  {
    var xs := [w] + ws;
    assert xs[1..] == ws;
    assert TrimEach(xs)[1..] == TrimEach(ws);
  }

  lemma NonEmptyOnlyCons(w: string, ws: seq<string>)
    requires w != []
    ensures NonEmptyOnly([w] + ws) == [w] + NonEmptyOnly(ws)
  {
    assert ([w] + ws)[1..] == ws;
  }
}
