/**
 * The leftmost-match search that `String.prototype.match` performs for a
 * regular expression without the `g` flag: the pattern is tried at index 0,
 * 1, 2, ... and the first index where it matches decides the result. A
 * pattern is given as a matcher on the remaining suffix of the subject.
 */
module Search {
  import opened Prelude
  import opened Strings

  /** The first match of `m` at any suffix of `t`, trying the longest suffix first. */
  function FirstMatch<T>(t: string, m: string -> Option<T>): Option<T>
    decreases |t|
  {
    if m(t).Some? then m(t) else if t == [] then None else FirstMatch(t[1..], m)
  }

  /** `FirstMatch` is the match at the least index where the matcher succeeds, and none when
      it succeeds nowhere. */
  lemma {:induction false} FirstMatchIsLeftmost<T>(t: string, m: string -> Option<T>)
    ensures FirstMatch(t, m).Some? ==>
              exists k :: 0 <= k <= |t| && m(t[k..]) == FirstMatch(t, m) && forall j :: 0 <= j < k ==> m(t[j..]).None?
    ensures FirstMatch(t, m).None? ==> forall k :: 0 <= k <= |t| ==> m(t[k..]).None?
    decreases |t|
  {
    assert t[0..] == t;
    if m(t).None? && t != [] {
      FirstMatchIsLeftmost(t[1..], m);
      assert forall k :: 0 <= k <= |t| - 1 ==> t[1..][k..] == t[k + 1..];
      if FirstMatch(t, m).Some? {
        var k :| 0 <= k <= |t| - 1 && m(t[1..][k..]) == FirstMatch(t, m) && forall j :: 0 <= j < k ==> m(t[1..][j..]).None?;
        forall j | 0 <= j < k + 1 ensures m(t[j..]).None? {
          if j > 0 {
            assert t[j..] == t[1..][j - 1..];
          }
        }
      } else {
        forall k | 0 <= k <= |t| ensures m(t[k..]).None? {
          if k > 0 {
            assert t[k..] == t[1..][k - 1..];
          }
        }
      }
    }
  }

  /** A property every match of `m` has, the first match has. */
  lemma {:induction false} FirstMatchKeeps<T>(t: string, m: string -> Option<T>, P: T -> bool)
    requires forall u :: m(u).Some? ==> P(m(u).value)
    ensures FirstMatch(t, m).Some? ==> P(FirstMatch(t, m).value)
    decreases |t|
  {
    if m(t).None? && t != [] {
      FirstMatchKeeps(t[1..], m, P);
    }
  }

  /** A prefix at none of whose positions the matcher succeeds can be skipped. */
  lemma {:induction false} FirstMatchSkip<T>(a: string, b: string, m: string -> Option<T>)
    requires forall k :: 0 <= k < |a| ==> m((a + b)[k..]).None?
    ensures FirstMatch(a + b, m) == FirstMatch(b, m)
    decreases |a|
  {
    if a == [] {
      assert a + b == b;
    } else {
      assert (a + b)[0..] == a + b;
      assert (a + b)[1..] == a[1..] + b;
      forall k | 0 <= k < |a| - 1 ensures m((a[1..] + b)[k..]).None? {
        assert (a[1..] + b)[k..] == (a + b)[k + 1..];
      }
      FirstMatchSkip(a[1..], b, m);
    }
  }

  /** `p` occurs in `s` at index `k`, up to ASCII case. */
  predicate OccursAtIgnoreCase(s: string, p: string, k: int) {
    0 <= k && k + |p| <= |s| && EqualsIgnoreCase(s[k..k + |p|], p)
  }

  /** `p` occurs nowhere in `s`, up to ASCII case. */
  ghost predicate AbsentIgnoreCase(s: string, p: string) {
    forall k :: !OccursAtIgnoreCase(s, p, k)
  }

  /** A character of `p` that `s` lacks (at the positions where it could line up) rules `p` out. */
  lemma AbsentByChar(s: string, p: string, j: int)
    requires 0 <= j < |p|
    requires forall i :: j <= i < |s| ==> LowerChar(s[i]) != LowerChar(p[j])
    ensures AbsentIgnoreCase(s, p)
  {
    forall k | 0 <= k && k + |p| <= |s| ensures !OccursAtIgnoreCase(s, p, k) {
      assert Lower(s[k..k + |p|])[j] == LowerChar(s[k + j]);
      assert Lower(p)[j] == LowerChar(p[j]);
    }
  }

  /** A matcher that needs the literal `p` (up to case) at the start of its subject, where `p`
      holds no line feed, cannot succeed anywhere in a line that lacks `p`: the search moves on
      to the next line. */
  lemma LineSkip<T>(line: string, rest: string, m: string -> Option<T>, p: string)
    requires forall t :: m(t).Some? ==> StartsWithIgnoreCase(t, p)
    requires |p| > 0 && '\n' !in p
    requires AbsentIgnoreCase(line, p)
    ensures FirstMatch(line + "\n" + rest, m) == FirstMatch(rest, m)
  {
    var a := line + "\n";
    assert a + rest == line + "\n" + rest;
    forall k | 0 <= k < |a| ensures !StartsWithIgnoreCase((a + rest)[k..], p) {
      var t := (a + rest)[k..];
      if k + |p| <= |line| {
        assert !OccursAtIgnoreCase(line, p, k);
        assert t[..|p|] == line[k..k + |p|];
      } else if |p| <= |t| {
        var o := |line| - k;
        assert Lower(t[..|p|])[o] == '\n';
        assert Lower(p)[o] == LowerChar(p[o]) != '\n';
      }
    }
    FirstMatchSkip(a, rest, m);
  }
}
