/** Small value types shared by every module (an optional value, a byte) and the
    `new Set(...)` de-duplication of a list. */
module Prelude {

  /** A value that may be absent (JavaScript `null` / `undefined`). */
  datatype Option<T> = None | Some(value: T) {
    function GetOr(default: T): T {
      match this
      case Some(v) => v
      case None => default
    }
  }

  /** One octet of a response body. */
  newtype byte = x: int | 0 <= x < 256

  /** No value occurs twice. */
  predicate Distinct<T(==)>(xs: seq<T>) {
    forall i, j :: 0 <= i < j < |xs| ==> xs[i] != xs[j]
  }

  /** `Array.from(new Set(xs))`: each value of `xs` once, at the place it first occurs. */
  function Dedupe<T(==)>(xs: seq<T>): (r: seq<T>)
    ensures |r| <= |xs|
    decreases |xs|
  {
    if xs == [] then []
    else
      var r := Dedupe(xs[..|xs| - 1]);
      if xs[|xs| - 1] in r then r else r + [xs[|xs| - 1]]
  }

  /** De-duplication keeps exactly the values of the list, each once. */
  lemma {:induction false} DedupeMeaning<T>(xs: seq<T>)
    ensures Distinct(Dedupe(xs))
    ensures forall x :: x in Dedupe(xs) <==> x in xs
    decreases |xs|
  {
    if xs != [] {
      var init := xs[..|xs| - 1];
      DedupeMeaning(init);
      assert xs == init + [xs[|xs| - 1]];
    }
  }

  /** A list without repeats is its own de-duplication. */
  lemma {:induction false} DedupeOfDistinct<T>(xs: seq<T>)
    requires Distinct(xs)
    ensures Dedupe(xs) == xs
    decreases |xs|
  {
    if xs != [] {
      var init := xs[..|xs| - 1];
      DedupeOfDistinct(init);
      assert xs == init + [xs[|xs| - 1]];
    }
  }

  /** The place where `x` first occurs in `xs`. */
  function FirstIndex<T(==)>(xs: seq<T>, x: T): (k: nat)
    requires x in xs
    ensures k < |xs| && xs[k] == x && x !in xs[..k]
    decreases |xs|
  {
    if xs[0] == x then 0
    else
      var k := FirstIndex(xs[1..], x);
      assert xs[..k + 1] == [xs[0]] + xs[1..][..k];
      k + 1
  }

  /** Any place where `x` occurs with no `x` before it is its first place. */
  lemma FirstIndexUnique<T>(xs: seq<T>, x: T, k: nat)
    requires k < |xs| && xs[k] == x && x !in xs[..k]
    ensures FirstIndex(xs, x) == k
  {
  }

  /** Appending a value leaves the first places of the values already there. */
  lemma FirstIndexSnoc<T>(xs: seq<T>, y: T, x: T)
    requires x in xs
    ensures FirstIndex(xs + [y], x) == FirstIndex(xs, x)
  {
    var k := FirstIndex(xs, x);
    assert (xs + [y])[..k] == xs[..k];
    FirstIndexUnique(xs + [y], x, k);
  }

  /** `d` lists values of `xs` in the order of their first occurrences and skips none:
      whatever occurs before the first place of `d[i]` is among `d[..i]`. */
  ghost predicate FirstOccurrences<T>(xs: seq<T>, d: seq<T>) {
    && (forall x :: x in d ==> x in xs)
    && (forall i, j :: 0 <= i < j < |d| ==> FirstIndex(xs, d[i]) < FirstIndex(xs, d[j]))
    && (forall i, q :: 0 <= i < |d| && 0 <= q < FirstIndex(xs, d[i]) ==> xs[q] in d[..i])
  }

  /** De-duplication keeps the first occurrences, in order. */
  lemma {:induction false} DedupeFirstOccurrences<T>(xs: seq<T>)
    ensures FirstOccurrences(xs, Dedupe(xs))
    decreases |xs|
  {
    if xs != [] {
      var init, last := xs[..|xs| - 1], xs[|xs| - 1];
      DedupeFirstOccurrences(init);
      DedupeMeaning(init);
      assert xs == init + [last];
      if last in Dedupe(init) {
        FirstOccurrencesKeep(init, last, Dedupe(init));
      } else {
        FirstOccurrencesAdd(init, last, Dedupe(init));
      }
    }
  }

  /** Every prefix of a list of first occurrences is one too. */
  lemma FirstOccurrencesPrefix<T>(xs: seq<T>, d: seq<T>, n: nat)
    requires FirstOccurrences(xs, d) && n <= |d|
    ensures FirstOccurrences(xs, d[..n])
  {
    forall i | 0 <= i < n ensures d[..n][..i] == d[..i] {
    }
  }

  /** A value seen before changes no first place. */
  lemma FirstOccurrencesKeep<T>(init: seq<T>, last: T, r: seq<T>)
    requires FirstOccurrences(init, r)
    ensures FirstOccurrences(init + [last], r)
  {
    var xs := init + [last];
    forall x | x in r ensures FirstIndex(xs, x) == FirstIndex(init, x) {
      FirstIndexSnoc(init, last, x);
    }
    forall i, q | 0 <= i < |r| && 0 <= q < FirstIndex(xs, r[i]) ensures xs[q] in r[..i] {
      assert xs[q] == init[q];
    }
  }

  /** A new value takes the last first place. */
  lemma FirstOccurrencesAdd<T>(init: seq<T>, last: T, r: seq<T>)
    requires FirstOccurrences(init, r) && last !in init
    requires forall x :: x in init ==> x in r
    ensures FirstOccurrences(init + [last], r + [last])
  {
    var xs, d := init + [last], r + [last];
    forall x | x in r ensures FirstIndex(xs, x) == FirstIndex(init, x) {
      FirstIndexSnoc(init, last, x);
    }
    assert xs[..|init|] == init;
    FirstIndexUnique(xs, last, |init|);
    assert d[..|r|] == r;
    forall i, q | 0 <= i < |d| && 0 <= q < FirstIndex(xs, d[i]) ensures xs[q] in d[..i] {
      assert xs[q] == init[q];
      if i < |r| {
        assert d[..i] == r[..i];
      }
    }
  }

  /** A non-empty list is its head followed by its tail. */
  lemma HeadTail<T>(xs: seq<T>)
    requires xs != []
    ensures [xs[0]] + xs[1..] == xs
  {
  }
}
