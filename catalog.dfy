/**
 * The inventory store as lib/importers/facebook.ts uses it: slug de-duplication
 * (`ensureUniqueSlug`), the full-replacement upsert keyed by external id
 * (`upsertListing`) and the sequential batch import with its counters
 * (`importListings`).
 */
module Catalog {
  import opened Prelude
  import opened Strings
  import opened ListingFields
  import Slug

  /** How a stored item is found: by its external id, or, for a manual entry without one, by
      an internal number. Keying imported items by external id is what makes that id unique. */
  datatype Key = External(id: string) | Internal(n: nat)

  /** A stored item: its slug and its listing fields. */
  datatype Record = Record(slug: string, listing: Listing)

  /** `externalId` is given and not empty, which is what the `externalId ? … : …` tests check. */
  predicate Present(externalId: Option<string>) { externalId.Some? && externalId.value != "" }

  /** The slug `ensureUniqueSlug` tries first: the base slug, else the slug of the external
      id, else "inventory-item". */
  function InitialSlug(baseSlug: string, externalId: Option<string>): string {
    if baseSlug != "" then baseSlug
    else if Present(externalId) then Slug.ToSlug(externalId.value)
    else "inventory-item"
  }

  /** The slugs tried in turn: the initial one, then `initial-1`, `initial-2`, and so on. */
  function Candidate(initial: string, n: nat): string {
    if n == 0 then initial else initial + "-" + NatToString(n)
  }

  /** Different turns try different slugs. */
  lemma CandidateInjective(initial: string, a: nat, b: nat)
    requires Candidate(initial, a) == Candidate(initial, b)
    ensures a == b
  {
    if a != 0 && b != 0 {
      var pa, pb := initial + "-", initial + "-";
      assert Candidate(initial, a)[|pa|..] == NatToString(a);
      assert Candidate(initial, b)[|pb|..] == NatToString(b);
      NatToStringInjective(a, b);
    }
  }

  /** The query of `ensureUniqueSlug` finds a row: one holding `slug` whose external id
      differs from the given one (any row when none is given). Rows without an external id
      count as different; under SQL's null semantics the database's `NOT { externalId }`
      would skip them instead. */
  predicate SlugTakenIn(rows: map<Key, Record>, slug: string, externalId: Option<string>) {
    exists k :: k in rows && rows[k].slug == slug && (!Present(externalId) || k != External(externalId.value))
  }

  /** No two rows share a slug, as the table's unique index demands. */
  ghost predicate SlugsUnique(rows: map<Key, Record>) {
    forall k1, k2 :: k1 in rows && k2 in rows && k1 != k2 ==> rows[k1].slug != rows[k2].slug
  }

  function Slugs(rows: map<Key, Record>): set<string> {
    set k | k in rows :: rows[k].slug
  }

  lemma SubsetSize<T>(a: set<T>, b: set<T>)
    requires a <= b
    ensures |a| <= |b|
  {
    assert b == a + (b - a);
  }

  /** The first `n` candidates are all taken. */
  ghost predicate AllTaken(rows: map<Key, Record>, initial: string, n: int, externalId: Option<string>) {
    forall j :: 0 <= j < n ==> SlugTakenIn(rows, Candidate(initial, j), externalId)
  }

  /** `tried` holds exactly one stored slug for each of the first `n` candidates. */
  ghost predicate TriedSlugs(rows: map<Key, Record>, initial: string, n: int, tried: set<string>) {
    && (forall s :: s in tried ==> exists j :: 0 <= j < n && s == Candidate(initial, j))
    && |tried| == n
    && tried <= Slugs(rows)
  }

  /** When candidate `n` is taken too, it is a stored slug not tried before. */
  lemma TriedOneMore(rows: map<Key, Record>, initial: string, n: nat, externalId: Option<string>, tried: set<string>)
    requires AllTaken(rows, initial, n, externalId) && TriedSlugs(rows, initial, n, tried)
    requires SlugTakenIn(rows, Candidate(initial, n), externalId)
    ensures AllTaken(rows, initial, n + 1, externalId)
    ensures TriedSlugs(rows, initial, n + 1, tried + {Candidate(initial, n)})
  {
    var slug := Candidate(initial, n);
    forall s | s in tried ensures s != slug {
      var j :| 0 <= j < n && s == Candidate(initial, j);
      if s == slug {
        CandidateInjective(initial, j, n);
      }
    }
    var k :| k in rows && rows[k].slug == slug && (!Present(externalId) || k != External(externalId.value));
    assert slug in Slugs(rows);
  }

  /** The key an entry is stored under: its stringified `product_id`, when that is not empty. */
  function EntryKey(item: RawListing): Option<Key> {
    match ExternalIdOf(item)
    case Some(id) => if id != "" then Some(External(id)) else None
    case None => None
  }

  /** The keys of all entries that are not skipped. */
  function EntryKeys(entries: seq<RawListing>): set<Key>
    decreases |entries|
  {
    if entries == [] then {}
    else
      var last := entries[|entries| - 1];
      EntryKeys(entries[..|entries| - 1]) + (if EntryKey(last).Some? then {EntryKey(last).value} else {})
  }

  /** The number of entries skipped for want of an external id. */
  function CountSkipped(entries: seq<RawListing>): nat
    decreases |entries|
  {
    if entries == [] then 0
    else CountSkipped(entries[..|entries| - 1]) + (if EntryKey(entries[|entries| - 1]).None? then 1 else 0)
  }

  /** The number of entries whose key is neither in `start` nor under an earlier entry. */
  function CountCreated(start: set<Key>, entries: seq<RawListing>): nat
    decreases |entries|
  {
    if entries == [] then 0
    else
      var prefix, last := entries[..|entries| - 1], entries[|entries| - 1];
      CountCreated(start, prefix) + (if EntryKey(last).Some? && EntryKey(last).value !in start && EntryKey(last).value !in EntryKeys(prefix) then 1 else 0)
  }

  /** Those entries are as many as the keys the entries add to `start`. */
  lemma {:induction false} CountCreatedIsNewKeys(start: set<Key>, entries: seq<RawListing>)
    ensures CountCreated(start, entries) == |EntryKeys(entries) - start|
    decreases |entries|
  {
    if entries != [] {
      var prefix, last := entries[..|entries| - 1], entries[|entries| - 1];
      CountCreatedIsNewKeys(start, prefix);
      if EntryKey(last).Some? {
        var k := EntryKey(last).value;
        CreatedStep(start, EntryKeys(prefix), k, k !in start + EntryKeys(prefix));
      }
    }
  }

  /** The last entry stored under `k`, which is the one whose fields survive an import. */
  function LastEntry(entries: seq<RawListing>, k: Key): RawListing
    requires k in EntryKeys(entries)
    decreases |entries|
  {
    var last := entries[|entries| - 1];
    if EntryKey(last) == Some(k) then last else LastEntry(entries[..|entries| - 1], k)
  }

  /** What one `upsertListing` call reports; `Raised` is the exception normalising the entry
      raised. */
  datatype UpsertResult = Skipped | Raised | Written(created: bool, slug: string)

  /** What inserting a new row gives: the key it is stored under, or Prisma's P2002 error
      with its `meta.target` when that is an array of field names (`None` otherwise). */
  datatype CreateOutcome = Inserted(key: Key) | UniqueViolation(target: Option<seq<string>>)

  /** What `importListings` reports. */
  datatype ImportSummary = ImportSummary(created: nat, updated: nat, skipped: nat)

  /** How `importListings` ends: its counters, or rejected by the exception entry `at` raised. */
  datatype ImportOutcome = Completed(summary: ImportSummary) | Rejected(at: nat)

  class Store {
    var rows: map<Key, Record>
    var nextInternal: nat

    ghost predicate Valid()
      reads this
    {
      && SlugsUnique(rows)
      && forall k :: k in rows && k.Internal? ==> k.n < nextInternal
    }

    constructor ()
      ensures rows == map[] && nextInternal == 0
      ensures Valid()
    {
      rows := map[];
      nextInternal := 0;
    }

    predicate SlugTaken(slug: string, externalId: Option<string>)
      reads this
    {
      SlugTakenIn(rows, slug, externalId)
    }

    /** `ensureUniqueSlug`: the first candidate slug that no row with a different external id
        holds. The loop ends because every turn that goes on has hit another stored slug. */
    method EnsureUniqueSlug(baseSlug: string, externalId: Option<string>) returns (slug: string)
      ensures !SlugTaken(slug, externalId)
      ensures exists n: nat :: slug == Candidate(InitialSlug(baseSlug, externalId), n)
                && AllTaken(rows, InitialSlug(baseSlug, externalId), n, externalId)
    {
      var initial := InitialSlug(baseSlug, externalId);
      slug := initial;
      var suffix: nat := 1;
      ghost var tried: set<string> := {};
      while SlugTaken(slug, externalId)
        invariant suffix >= 1 && slug == Candidate(initial, suffix - 1)
        invariant AllTaken(rows, initial, suffix - 1, externalId)
        invariant TriedSlugs(rows, initial, suffix - 1, tried)
        decreases |Slugs(rows)| - |tried|
      {
        SubsetSize(tried, Slugs(rows));
        TriedOneMore(rows, initial, suffix - 1, externalId, tried);
        tried := tried + {slug};
        SubsetSize(tried, Slugs(rows));
        slug := initial + "-" + NatToString(suffix);
        suffix := suffix + 1;
      }
    }

    /** The write at the end of `upsertListing`: a slug no row under another key holds, then
        the row under `External(id)` created or entirely replaced; no other row changes. */
    method Put(id: string, l: Listing) returns (created: bool, slug: string)
      requires Valid() && id != ""
      modifies this
      ensures Valid() && nextInternal == old(nextInternal)
      ensures created == (External(id) !in old(rows))
      ensures rows == old(rows)[External(id) := Record(slug, l)]
      ensures !SlugTakenIn(old(rows), slug, Some(id))
      ensures exists n: nat :: slug == Candidate(InitialSlug(SlugBase(l), Some(id)), n)
    {
      slug := EnsureUniqueSlug(SlugBase(l), Some(id));
      created := External(id) !in rows;
      rows := rows[External(id) := Record(slug, l)];
    }

    /** `upsertListing`, with `strip` the engine evaluating the brand pattern: an entry
        without an external id is skipped and changes nothing; an entry whose normalisation
        throws changes nothing either; otherwise the row under that id is created or entirely
        replaced by the entry's normalised fields and a slug no other row holds, and no other
        row changes. */
    method UpsertListing(item: RawListing, currentYear: int, strip: PatternStrip) returns (result: UpsertResult)
      requires Valid()
      modifies this
      ensures Valid() && nextInternal == old(nextInternal)
      ensures EntryKey(item).None? ==> result == Skipped && rows == old(rows)
      ensures EntryKey(item).Some? && NormalizeListingAsWritten(item, currentYear, strip).None? ==>
        result == Raised && rows == old(rows)
      ensures EntryKey(item).Some? && NormalizeListingAsWritten(item, currentYear, strip).Some? ==>
        var k := EntryKey(item).value;
        && result.Written?
        && result.created == (k !in old(rows))
        && rows == old(rows)[k := Record(result.slug, NormalizeListingAsWritten(item, currentYear, strip).value)]
        && !SlugTakenIn(old(rows), result.slug, Some(k.id))
    {
      var externalId := ExternalIdOf(item);
      if externalId.None? || externalId.value == "" {
        return Skipped;
      }
      var normalized := NormalizeListingAsWritten(item, currentYear, strip);
      if normalized.None? {
        return Raised;
      }
      var created, slug := Put(externalId.value, normalized.value);
      result := Written(created, slug);
    }

    /** `prisma.inventory.create`: a row with an external id already stored, or with a slug
        already stored, is refused and nothing changes; otherwise the row is added under its
        external id, or under a fresh internal number when it has none. Which broken index the
        database names, and whether it names it as an array, is not fixed by the program:
        `report` is the error's target as the database gives it. */
    method Create(externalId: Option<string>, slug: string, l: Listing, report: Option<seq<string>>)
      returns (outcome: CreateOutcome)
      requires Valid()
      modifies this
      ensures Valid()
      ensures outcome.UniqueViolation? ==>
                outcome == UniqueViolation(report) && rows == old(rows) && nextInternal == old(nextInternal)
      ensures outcome.Inserted? ==>
                && outcome.key !in old(rows)
                && outcome.key == (if Present(externalId) then External(externalId.value) else Internal(old(nextInternal)))
                && rows == old(rows)[outcome.key := Record(slug, l)]
                && nextInternal == old(nextInternal) + (if Present(externalId) then 0 else 1)
      ensures outcome.UniqueViolation? || outcome.Inserted?
      ensures (!(Present(externalId) && External(externalId.value) in old(rows)) && slug !in Slugs(old(rows))) == outcome.Inserted?
    {
      if (Present(externalId) && External(externalId.value) in rows) || slug in Slugs(rows) {
        return UniqueViolation(report);
      }
      var key := if Present(externalId) then External(externalId.value) else Internal(nextInternal);
      rows := rows[key := Record(slug, l)];
      if !Present(externalId) {
        nextInternal := nextInternal + 1;
      }
      outcome := Inserted(key);
    }

    /** `importListings`: the entries are upserted in order. When none throws, the counters
        add up to the number of entries, `created` counts the keys that were new, the rows
        under those keys hold the last entry given for them, and rows under other keys are
        unchanged. The first entry that throws rejects the import (the loop has no `catch`),
        leaving the rows the entries before it wrote. */
    method ImportListings(entries: seq<RawListing>, currentYear: int, strip: PatternStrip) returns (outcome: ImportOutcome)
      requires Valid()
      modifies this
      ensures Valid() && nextInternal == old(nextInternal)
      ensures outcome.Completed? <==> NoneThrows(entries, Normalizer(currentYear, strip))
      ensures outcome.Completed? ==>
        var summary := outcome.summary;
        && summary.created + summary.updated + summary.skipped == |entries|
        && summary.skipped == CountSkipped(entries)
        && summary.created == CountCreated(old(rows).Keys, entries) == |EntryKeys(entries) - old(rows).Keys|
        && ImportedPrefix(old(rows), rows, entries, Normalizer(currentYear, strip))
      ensures outcome.Rejected? ==> RejectedAt(old(rows), rows, entries, outcome.at, Normalizer(currentYear, strip))
    {
      var summary := ImportSummary(0, 0, 0);
      var i := 0;
      assert entries[..i] == [];
      while i < |entries|
        invariant Valid() && nextInternal == old(nextInternal)
        invariant ImportState(old(rows), rows, entries, i, summary, Normalizer(currentYear, strip))
      {
        ghost var before := rows;
        var result := UpsertListing(entries[i], currentYear, strip);
        assert UpsertStep(before, rows, entries[i], Normalizer(currentYear, strip), result);
        if result.Raised? {
          RejectedHere(old(rows), rows, entries, i, summary, Normalizer(currentYear, strip), result);
          return Rejected(i);
        }
        ImportStep(old(rows), before, rows, entries, i, Normalizer(currentYear, strip), result, summary);
        summary := Tally(summary, result);
        i := i + 1;
      }
      assert entries[..i] == entries;
      CountCreatedIsNewKeys(old(rows).Keys, entries);
      outcome := Completed(summary);
    }

    /** Importing the same entries a second time creates nothing, and a rejected import is
        rejected again at the same entry. */
    method ImportTwice(entries: seq<RawListing>, currentYear: int, strip: PatternStrip) returns (first: ImportOutcome, second: ImportOutcome)
      requires Valid()
      modifies this
      ensures Valid()
      ensures first.Completed? ==> first.summary.created == |EntryKeys(entries) - old(rows).Keys|
      ensures first.Completed? ==>
        second.Completed? && second.summary.created == 0 && second.summary.updated == first.summary.created + first.summary.updated
      ensures first.Rejected? ==> second == first
    {
      first := ImportListings(entries, currentYear, strip);
      second := ImportListings(entries, currentYear, strip);
      if first.Completed? {
        assert EntryKeys(entries) - rows.Keys == {};
      } else {
        FirstThrowUnique(entries, Normalizer(currentYear, strip), first.at, second.at);
      }
    }
  }

  /** `normalizeListing` with the current year and the pattern engine fixed. */
  function Normalizer(currentYear: int, strip: PatternStrip): RawListing -> Option<Listing> {
    item => NormalizeListingAsWritten(item, currentYear, strip)
  }

  /** `upsertListing` throws on the entry: it has an external id, so it is normalised, and
      normalising it throws. */
  predicate Throws(e: RawListing, norm: RawListing -> Option<Listing>) {
    EntryKey(e).Some? && norm(e).None?
  }

  /** No entry throws. */
  ghost predicate NoneThrows(entries: seq<RawListing>, norm: RawListing -> Option<Listing>) {
    forall j :: 0 <= j < |entries| ==> !Throws(entries[j], norm)
  }

  /** The import was rejected by entry `at`, the first that throws, and the rows are those the
      entries before it wrote. */
  ghost predicate RejectedAt(start: map<Key, Record>, rows: map<Key, Record>, entries: seq<RawListing>, at: nat,
                             norm: RawListing -> Option<Listing>) {
    && at < |entries| && Throws(entries[at], norm)
    && NoneThrows(entries[..at], norm)
    && ImportedPrefix(start, rows, entries[..at], norm)
  }

  /** Only one entry can be the first to throw. */
  lemma FirstThrowUnique(entries: seq<RawListing>, norm: RawListing -> Option<Listing>, a: nat, b: nat)
    requires a < |entries| && Throws(entries[a], norm) && NoneThrows(entries[..a], norm)
    requires b < |entries| && Throws(entries[b], norm) && NoneThrows(entries[..b], norm)
    ensures a == b
  {
  }

  /** With the brand escaped no entry throws, so every import completes. */
  lemma EscapedNeverThrows(entries: seq<RawListing>, currentYear: int)
    ensures NoneThrows(entries, Normalizer(currentYear, EscapedStrip))
  {
    forall j | 0 <= j < |entries| ensures !Throws(entries[j], Normalizer(currentYear, EscapedStrip)) {
      NormalizeEscaped(entries[j], currentYear);
    }
  }

  /** As written, an import holding an entry titled `*SOLD* Rolex GMT` with a product id never
      completes. */
  lemma SoldEntryRejectsImport(entries: seq<RawListing>, i: nat, currentYear: int, strip: PatternStrip)
    requires KnownEngine(strip) && i < |entries|
    requires entries[i].title == Some(SoldTitle) && EntryKey(entries[i]).Some?
    ensures !NoneThrows(entries, Normalizer(currentYear, strip))
  {
    SoldEntryThrows(entries[i], currentYear, strip);
    assert Throws(entries[i], Normalizer(currentYear, strip));
  }

  /** After importing `entries` into `start`: the keys are the old ones plus the entries'
      keys, a row under an entry's key holds the last entry given for it, and every other row
      is unchanged. */
  ghost predicate ImportedPrefix(start: map<Key, Record>, rows: map<Key, Record>, entries: seq<RawListing>, norm: RawListing -> Option<Listing>) {
    && rows.Keys == start.Keys + EntryKeys(entries)
    && (forall k :: k in EntryKeys(entries) ==> norm(LastEntry(entries, k)) == Some(rows[k].listing))
    && (forall k :: k in start && k !in EntryKeys(entries) ==> rows[k] == start[k])
  }

  /** The relation one entry's upsert leaves between the rows before and after it. */
  ghost predicate UpsertStep(before: map<Key, Record>, after: map<Key, Record>, e: RawListing, norm: RawListing -> Option<Listing>, result: UpsertResult) {
    && (EntryKey(e).None? ==> result == Skipped && after == before)
    && (Throws(e, norm) ==> result == Raised && after == before)
    && (EntryKey(e).Some? && norm(e).Some? ==>
          && result.Written?
          && result.created == (EntryKey(e).value !in before)
          && after == before[EntryKey(e).value := Record(result.slug, norm(e).value)])
  }

  /** The entries as far as `i + 1` are those as far as `i` and entry `i`. */
  lemma KeysOfPrefix(entries: seq<RawListing>, i: int)
    requires 0 <= i < |entries|
    ensures var e := entries[i];
      && CountSkipped(entries[..i + 1]) == CountSkipped(entries[..i]) + (if EntryKey(e).None? then 1 else 0)
      && EntryKeys(entries[..i + 1]) == EntryKeys(entries[..i]) + (if EntryKey(e).Some? then {EntryKey(e).value} else {})
  {
    assert entries[..i + 1][..i] == entries[..i];
  }

  lemma LastEntryOfPrefix(entries: seq<RawListing>, i: int)
    requires 0 <= i < |entries|
    ensures EntryKey(entries[i]).Some? ==> LastEntry(entries[..i + 1], EntryKey(entries[i]).value) == entries[i]
    ensures forall k :: k in EntryKeys(entries[..i + 1]) && EntryKey(entries[i]) != Some(k) ==>
              k in EntryKeys(entries[..i]) && LastEntry(entries[..i + 1], k) == LastEntry(entries[..i], k)
  {
    KeysOfPrefix(entries, i);
    assert entries[..i + 1][..i] == entries[..i];
  }

  lemma KeysStep(start: map<Key, Record>, before: map<Key, Record>, after: map<Key, Record>, entries: seq<RawListing>, i: int,
                 norm: RawListing -> Option<Listing>, result: UpsertResult)
    requires 0 <= i < |entries|
    requires before.Keys == start.Keys + EntryKeys(entries[..i])
    requires forall k :: k in start && k !in EntryKeys(entries[..i]) ==> before[k] == start[k]
    requires UpsertStep(before, after, entries[i], norm, result) && !result.Raised?
    ensures after.Keys == start.Keys + EntryKeys(entries[..i + 1])
    ensures forall k :: k in start && k !in EntryKeys(entries[..i + 1]) ==> after[k] == start[k]
  {
    KeysOfPrefix(entries, i);
  }

  lemma CountStep(start: set<Key>, before: map<Key, Record>, after: map<Key, Record>, entries: seq<RawListing>, i: int,
                  norm: RawListing -> Option<Listing>, result: UpsertResult)
    requires 0 <= i < |entries|
    requires before.Keys == start + EntryKeys(entries[..i])
    requires UpsertStep(before, after, entries[i], norm, result) && !result.Raised?
    ensures CountSkipped(entries[..i + 1]) == CountSkipped(entries[..i]) + (if result.Skipped? then 1 else 0)
    ensures CountCreated(start, entries[..i + 1])
         == CountCreated(start, entries[..i]) + (if result.Written? && result.created then 1 else 0)
  {
    assert entries[..i + 1][..i] == entries[..i];
  }

  lemma CreatedStep(start: set<Key>, keys: set<Key>, k: Key, created: bool)
    requires created == (k !in start + keys)
    ensures |(keys + {k}) - start| == |keys - start| + (if created then 1 else 0)
  {
    if created {
      assert (keys + {k}) - start == (keys - start) + {k};
    } else {
      assert (keys + {k}) - start == keys - start;
    }
  }

  lemma LastEntryStep(before: map<Key, Record>, after: map<Key, Record>, entries: seq<RawListing>, i: int,
                      norm: RawListing -> Option<Listing>, result: UpsertResult)
    requires 0 <= i < |entries|
    requires before.Keys >= EntryKeys(entries[..i])
    requires forall k :: k in EntryKeys(entries[..i]) ==> norm(LastEntry(entries[..i], k)) == Some(before[k].listing)
    requires UpsertStep(before, after, entries[i], norm, result) && !result.Raised?
    ensures after.Keys >= EntryKeys(entries[..i + 1])
    ensures forall k :: k in EntryKeys(entries[..i + 1]) ==> norm(LastEntry(entries[..i + 1], k)) == Some(after[k].listing)
  {
    KeysOfPrefix(entries, i);
    LastEntryOfPrefix(entries, i);
  }

  /** The counters after one more entry that did not throw. */
  function Tally(counted: ImportSummary, result: UpsertResult): ImportSummary
    requires !result.Raised?
  {
    match result
    case Skipped => counted.(skipped := counted.skipped + 1)
    case Written(created, _) =>
      if created then counted.(created := counted.created + 1) else counted.(updated := counted.updated + 1)
  }

  /** The state of `importListings` after its first `n` entries. */
  ghost predicate ImportState(start: map<Key, Record>, rows: map<Key, Record>, entries: seq<RawListing>, n: int,
                              counted: ImportSummary, norm: RawListing -> Option<Listing>) {
    && 0 <= n <= |entries|
    && counted.created + counted.updated + counted.skipped == n
    && counted.skipped == CountSkipped(entries[..n])
    && counted.created == CountCreated(start.Keys, entries[..n])
    && NoneThrows(entries[..n], norm)
    && ImportedPrefix(start, rows, entries[..n], norm)
  }

  /** An entry that throws ends the import where it stands. */
  lemma RejectedHere(start: map<Key, Record>, rows: map<Key, Record>, entries: seq<RawListing>, i: int,
                     counted: ImportSummary, norm: RawListing -> Option<Listing>, result: UpsertResult)
    requires i < |entries| && ImportState(start, rows, entries, i, counted, norm)
    requires result.Raised? && UpsertStep(rows, rows, entries[i], norm, result)
    ensures RejectedAt(start, rows, entries, i, norm)
    ensures !NoneThrows(entries, norm)
  {
  }

  lemma NoneThrowsStep(entries: seq<RawListing>, i: int, norm: RawListing -> Option<Listing>)
    requires 0 <= i < |entries| && NoneThrows(entries[..i], norm) && !Throws(entries[i], norm)
    ensures NoneThrows(entries[..i + 1], norm)
  {
    assert forall j :: 0 <= j < i ==> entries[..i + 1][j] == entries[..i][j];
  }

  /** What one entry's upsert does to the import's invariant and counters. */
  lemma ImportStep(start: map<Key, Record>, before: map<Key, Record>, after: map<Key, Record>,
                   entries: seq<RawListing>, i: int, norm: RawListing -> Option<Listing>, result: UpsertResult, counted: ImportSummary)
    requires i < |entries|
    requires ImportState(start, before, entries, i, counted, norm)
    requires UpsertStep(before, after, entries[i], norm, result) && !result.Raised?
    ensures ImportState(start, after, entries, i + 1, Tally(counted, result), norm)
  {
    NoneThrowsStep(entries, i, norm);
    CountStep(start.Keys, before, after, entries, i, norm, result);
    KeysStep(start, before, after, entries, i, norm, result);
    LastEntryStep(before, after, entries, i, norm, result);
  }
}
