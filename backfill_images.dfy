/**
 * scripts/backfill_inventory_images.ts: migrate every inventory item whose image list
 * still points at external URLs to stored assets, counting items updated, failed and
 * skipped.
 *
 * The inventory table is reduced to what the script reads and writes, each item's image
 * list (`Database.images`); the asset table is `InventoryImages.AssetStore`. The order
 * of the items (`createdAt` descending) is the `ids` argument.
 */
module BackfillImages {
  import opened Prelude
  import opened Strings
  import opened InventoryImages

  /** `isExternalUrl`: the trimmed value opens with `http://` or `https://`, in any case. */
  predicate IsExternalUrl(value: string) {
    HasHttpScheme(Trim(value))
  }

  /** A string whose first character is not whitespace keeps that character first once trimmed. */
  lemma TrimKeepsFirst(s: string)
    requires s != [] && !IsSpace(s[0])
    ensures Trim(s) != [] && Trim(s)[0] == s[0]
  {
    TrimEndDropsSpaces(s);
  }

  /** Stored references are never external, whatever the id. */
  lemma StoredNotExternal(id: string)
    ensures !IsExternalUrl(BuildInventoryImageUrl(id))
  {
    var v := BuildInventoryImageUrl(id);
    assert v[0] == '/';
    TrimKeepsFirst(v);
    SlashHasNoScheme(Trim(v));
  }

  /** `images.map(trim).filter(Boolean)` (the `typeof` test always passes: the column is a
      list of strings). */
  function Normalize(images: seq<string>): seq<string> {
    NonEmptyOnly(TrimEach(images))
  }

  /** Dropping empty strings from a list without any changes nothing. */
  lemma {:induction false} NonEmptyOnlyOfNonEmpty(ws: seq<string>)
    requires forall i :: 0 <= i < |ws| ==> ws[i] != []
    ensures NonEmptyOnly(ws) == ws
    decreases |ws|
  {
    if ws != [] {
      NonEmptyOnlyOfNonEmpty(ws[1..]);
    }
  }

  lemma TrimEachOfTrimmed(xs: seq<string>)
    requires forall i :: 0 <= i < |xs| ==> Trimmed(xs[i])
    ensures TrimEach(xs) == xs
  {
    forall i | 0 <= i < |xs| ensures TrimEach(xs)[i] == xs[i] {
      TrimOfTrimmed(xs[i]);
    }
  }

  /** Every entry is trimmed and non-empty. */
  ghost predicate Clean(xs: seq<string>) {
    forall i :: 0 <= i < |xs| ==> xs[i] != [] && Trimmed(xs[i])
  }

  /** A clean list is already normalised. */
  lemma NormalizeOfClean(xs: seq<string>)
    requires Clean(xs)
    ensures Normalize(xs) == xs
  {
    TrimEachOfTrimmed(xs);
    NonEmptyOnlyOfNonEmpty(xs);
  }

  /** Normalising yields a clean list. */
  lemma NormalizeClean(images: seq<string>)
    ensures Clean(Normalize(images))
  {
    var ts := TrimEach(images);
    var n := NonEmptyOnly(ts);
    forall i | 0 <= i < |n| ensures Trimmed(n[i]) {
      assert n[i] in ts;
      var j :| 0 <= j < |ts| && ts[j] == n[i];
    }
  }

  /** Normalising twice is normalising once. */
  lemma NormalizeIdempotent(images: seq<string>)
    ensures Normalize(Normalize(images)) == Normalize(images)
  {
    NormalizeClean(images);
    NormalizeOfClean(Normalize(images));
  }

  predicate HasAnyExternal(normalized: seq<string>) {
    exists i :: 0 <= i < |normalized| && IsExternalUrl(normalized[i])
  }

  predicate AllExternal(normalized: seq<string>) {
    |normalized| > 0 && forall i :: 0 <= i < |normalized| ==> IsExternalUrl(normalized[i])
  }

  /** `changed`, as the source computes it: another length, or a differing position. */
  predicate Changed(stored: seq<string>, normalized: seq<string>) {
    |stored| != |normalized| || exists idx :: 0 <= idx < |stored| && stored[idx] != normalized[idx]
  }

  /** The positionwise test is list inequality. */
  lemma ChangedIff(stored: seq<string>, normalized: seq<string>)
    ensures Changed(stored, normalized) <==> stored != normalized
  {
    if stored != normalized && |stored| == |normalized| {
      var idx :| 0 <= idx < |stored| && stored[idx] != normalized[idx];
    }
  }

  datatype Verdict = Updated | Failed | Skipped

  /** How the source counts an item, given its normalised list and what ingestion returned. */
  function VerdictFor(normalized: seq<string>, stored: seq<string>): Verdict {
    if !HasAnyExternal(normalized) then Skipped
    else if |stored| == 0 then Skipped
    else if !Changed(stored, normalized) then Failed
    else Updated
  }

  /** The URLs ingestion visits for an item: its normalised images, capped at the default. */
  function Visited(normalized: seq<string>): seq<string> {
    Unique(normalized, DefaultMaxImages)
  }

  /** For a clean list, ingestion visits its distinct entries, up to the cap. */
  lemma VisitedOfClean(n: seq<string>)
    requires Clean(n)
    ensures Visited(n) == Take(Dedupe(n), DefaultMaxImages)
  {
    NormalizeOfClean(n);
  }

  /** Every URL ingestion visits for an item is one of its normalised images. */
  lemma VisitedInNormalized(images: seq<string>)
    ensures var n := Normalize(images);
      forall i :: 0 <= i < |Visited(n)| ==> Visited(n)[i] in n
  {
    var n := Normalize(images);
    NormalizeClean(images);
    VisitedOfClean(n);
    DedupeMeaning(n);
  }

  lemma HasAnyExternalNonEmpty(n: seq<string>)
    requires HasAnyExternal(n)
    ensures |n| > 0
  {
  }

  /** The `stored.length === 0` branch never fires for an item with an external image:
      that image is visited, so ingestion returns at least one entry. */
  lemma StoredNeverEmpty(images: seq<string>, env: Env, nextKey: nat)
    requires HasAnyExternal(Normalize(images))
    ensures |Results(Visited(Normalize(images)), env, DefaultMaxBytes, nextKey)| > 0
  {
    var n := Normalize(images);
    HasAnyExternalNonEmpty(n);
    NormalizeClean(images);
    VisitedOfClean(n);
    DedupeMeaning(n);
    assert n[0] in Dedupe(n);
  }

  /** A reference to a stored asset: trimmed, non-empty and not external. */
  ghost predicate StoredForm(value: string) {
    IsStoredInventoryImageUrl(value) && value != [] && Trimmed(value) && !IsExternalUrl(value)
  }

  lemma StoredUrlForm(k: nat)
    ensures StoredForm(BuildInventoryImageUrl(AssetId(k)))
  {
    var id := AssetId(k);
    var v := BuildInventoryImageUrl(id);
    BuiltIsStored(id);
    assert v[|v| - 1] == id[|id| - 1];
    StoredNotExternal(id);
  }

  /** Entry `i` of what ingestion returns is the visited URL when its fetch failed and a
      stored reference when it succeeded. */
  lemma EntryShape(u: seq<string>, env: Env, nextKey: nat, i: nat)
    requires i < |u|
    ensures var r := Results(u, env, DefaultMaxBytes, nextKey);
      && (Succeeds(env.fetch(u[i]), DefaultMaxBytes) ==> StoredForm(r[i]))
      && (!Succeeds(env.fetch(u[i]), DefaultMaxBytes) ==> r[i] == u[i])
  {
    ResultsEntries(u, env, DefaultMaxBytes, nextKey);
    if Succeeds(env.fetch(u[i]), DefaultMaxBytes) {
      StoredUrlForm(nextKey + CountStored(u[..i], env, DefaultMaxBytes));
    }
  }

  /** Every entry ingestion returns for an item is trimmed and non-empty. */
  lemma ResultsClean(normalized: seq<string>, env: Env, nextKey: nat)
    ensures Clean(Results(Visited(normalized), env, DefaultMaxBytes, nextKey))
  {
    var u := Visited(normalized);
    UniqueMeaning(normalized, DefaultMaxImages);
    forall i | 0 <= i < |u|
      ensures var r := Results(u, env, DefaultMaxBytes, nextKey); r[i] != [] && Trimmed(r[i])
    {
      EntryShape(u, env, nextKey, i);
    }
  }

  /** An item counted as updated really gets a different image list. */
  lemma UpdatedChangesImages(images: seq<string>, env: Env, nextKey: nat)
    ensures var n := Normalize(images);
      var stored := Results(Visited(n), env, DefaultMaxBytes, nextKey);
      Changed(stored, n) ==> stored != images
  {
    var n := Normalize(images);
    var stored := Results(Visited(n), env, DefaultMaxBytes, nextKey);
    ChangedIff(stored, n);
    if stored == images {
      ResultsClean(n, env, nextKey);
      NormalizeOfClean(images);
    }
  }

  /** When every visited URL is stored, the new list holds no external URL and is already
      normalised, so running the backfill again skips the item. */
  lemma MigratedItemIsSkippedNextTime(normalized: seq<string>, env: Env, nextKey: nat)
    requires forall i :: 0 <= i < |Visited(normalized)| ==> Succeeds(env.fetch(Visited(normalized)[i]), DefaultMaxBytes)
    ensures var stored := Results(Visited(normalized), env, DefaultMaxBytes, nextKey);
      Normalize(stored) == stored && !HasAnyExternal(stored)
  {
    var u := Visited(normalized);
    var stored := Results(u, env, DefaultMaxBytes, nextKey);
    forall i | 0 <= i < |u| ensures StoredForm(stored[i]) {
      EntryShape(u, env, nextKey, i);
    }
    NormalizeOfClean(stored);
  }

  // ----- the start sort order the source computes ---------------------------------------

  /** The sort orders of the item's existing assets. */
  ghost function ItemSortOrders(rows: map<nat, Asset>, inventoryId: string): set<nat> {
    set k | k in rows && rows[k].inventoryId == inventoryId :: rows[k].sortOrder
  }

  /** The largest sort order plus one, or 0 for no assets. */
  ghost function NextSortOrder(orders: set<nat>): (r: nat)
    ensures forall o :: o in orders ==> o < r
    ensures orders == {} <==> r == 0
    ensures orders != {} ==> r - 1 in orders
    decreases orders
  {
    if orders == {} then 0
    else
      var o :| o in orders;
      var rest := NextSortOrder(orders - {o});
      assert forall p :: p in orders && p != o ==> p in orders - {o};
      if o + 1 >= rest then o + 1 else rest
  }

  /** The computed start is never honoured: the first new asset of a call always gets sort
      order 0, below the start the source computed whenever the item already had assets. */
  lemma StartSortOrderIgnored(rows: map<nat, Asset>, inventoryId: string, u: seq<string>, env: Env)
    requires ItemSortOrders(rows, inventoryId) != {}
    ensures var created := NewAssets(inventoryId, u, env, DefaultMaxBytes, 0);
      |created| > 0 ==> created[0].sortOrder == 0 < NextSortOrder(ItemSortOrders(rows, inventoryId))
  {
    NewAssetsFields(inventoryId, u, env, DefaultMaxBytes, 0);
  }

  // ----- one item -------------------------------------------------------------------------

  /** The effect of migrating item `id`: untouched if it has no external image; otherwise
      its assets are dropped first when every image is external, ingestion appends the new
      assets, and the list is written only when the verdict is `Updated`. */
  ghost predicate MigrationOf(id: string, env: Env, imagesBefore: map<string, seq<string>>, imagesAfter: map<string, seq<string>>,
                              rowsBefore: map<nat, Asset>, rowsAfter: map<nat, Asset>, counterBefore: nat, counterAfter: nat,
                              v: Verdict, stored: seq<string>)
    requires id in imagesBefore
  {
    var n := Normalize(imagesBefore[id]);
    && ItemWritten(imagesBefore, imagesAfter, id, if v == Updated then stored else imagesBefore[id])
    && if !HasAnyExternal(n) then
         v == Skipped && stored == [] && rowsAfter == rowsBefore && counterAfter == counterBefore
       else
         IngestedItem(id, env, imagesBefore, rowsBefore, rowsAfter, counterBefore, counterAfter, stored) && v == VerdictFor(n, stored)
  }

  /** `after` is `before` with item `id`'s list set to `value`. */
  ghost predicate ItemWritten(before: map<string, seq<string>>, after: map<string, seq<string>>, id: string, value: seq<string>) {
    && (forall k :: k in after <==> k in before)
    && (forall k :: k in before && k != id ==> after[k] == before[k])
    && id in after && after[id] == value
  }

  /** The ingestion half of `MigrationOf`, for an item with an external image. */
  ghost predicate IngestedItem(id: string, env: Env, imagesBefore: map<string, seq<string>>, rowsBefore: map<nat, Asset>,
                               rowsAfter: map<nat, Asset>, counterBefore: nat, counterAfter: nat, stored: seq<string>)
    requires id in imagesBefore
  {
    var n := Normalize(imagesBefore[id]);
    && stored == Results(Visited(n), env, DefaultMaxBytes, counterBefore)
    && IngestState(counterBefore, if AllExternal(n) then WithoutItem(rowsBefore, id) else rowsBefore,
                   rowsAfter, counterAfter, NewAssets(id, Visited(n), env, DefaultMaxBytes, 0))
  }

  lemma MigrationAfterIngest(id: string, env: Env, imagesBefore: map<string, seq<string>>, imagesAfter: map<string, seq<string>>,
                             rowsBefore: map<nat, Asset>, rowsAfter: map<nat, Asset>, counterBefore: nat, counterAfter: nat,
                             v: Verdict, stored: seq<string>)
    requires id in imagesBefore && HasAnyExternal(Normalize(imagesBefore[id]))
    requires IngestedItem(id, env, imagesBefore, rowsBefore, rowsAfter, counterBefore, counterAfter, stored)
    requires v == VerdictFor(Normalize(imagesBefore[id]), stored)
    requires ItemWritten(imagesBefore, imagesAfter, id, if v == Updated then stored else imagesBefore[id])
    ensures MigrationOf(id, env, imagesBefore, imagesAfter, rowsBefore, rowsAfter, counterBefore, counterAfter, v, stored)
  {
  }

  // ----- the whole pass ---------------------------------------------------------------

  /** Where the backfill stands: the image lists, the asset rows and their key counter, and
      the three counters. */
  datatype PassState = PassState(images: map<string, seq<string>>, rows: map<nat, Asset>, counter: nat,
                                 updated: nat, failed: nat, skipped: nat)

  /** The keys from `lo` up to, not including, `hi`. */
  function KeyRange(lo: nat, hi: nat): (r: set<nat>)
    ensures forall k :: k in r <==> lo <= k < hi
    decreases hi - lo
  {
    if lo >= hi then {} else {lo} + KeyRange(lo + 1, hi)
  }

  /** `rows` with `created` stored under consecutive keys from `start`. */
  function AddAssets(rows: map<nat, Asset>, start: nat, created: seq<Asset>): map<nat, Asset> {
    map k | k in rows.Keys + KeyRange(start, start + |created|) ::
      if start <= k < start + |created| then created[k - start] else rows[k]
  }

  /** What ingestion returns for an item whose list is `images`, from key `counter`. */
  function StoredFor(images: seq<string>, env: Env, counter: nat): seq<string> {
    Results(Visited(Normalize(images)), env, DefaultMaxBytes, counter)
  }

  /** How an item whose list is `images` is counted when its turn comes at key `counter`. */
  function VerdictOf(images: seq<string>, env: Env, counter: nat): Verdict {
    VerdictFor(Normalize(images), StoredFor(images, env, counter))
  }

  /** The list the item is left with: the stored results when it is counted as updated, its
      old list otherwise. */
  function ListAfter(images: seq<string>, env: Env, counter: nat): seq<string> {
    if VerdictOf(images, env, counter) == Updated then StoredFor(images, env, counter) else images
  }

  /** The assets item `id` creates. */
  function CreatedFor(id: string, images: seq<string>, env: Env): seq<Asset> {
    NewAssets(id, Visited(Normalize(images)), env, DefaultMaxBytes, 0)
  }

  /** The asset rows after item `id`'s turn: untouched without an external image; otherwise
      the item's rows dropped when every image is external, and the new assets added. */
  function RowsAfter(rows: map<nat, Asset>, id: string, images: seq<string>, env: Env, counter: nat): map<nat, Asset> {
    var n := Normalize(images);
    if !HasAnyExternal(n) then rows
    else AddAssets(KeptRows(rows, id, n), counter, CreatedFor(id, images, env))
  }

  function CounterAfter(id: string, images: seq<string>, env: Env, counter: nat): nat {
    if !HasAnyExternal(Normalize(images)) then counter else counter + |CreatedFor(id, images, env)|
  }

  /** Item `id`'s turn of the loop in `main`. */
  function MigrateStep(s: PassState, id: string, env: Env): PassState {
    if id !in s.images then s
    else
      var images := s.images[id];
      var v := VerdictOf(images, env, s.counter);
      PassState(s.images[id := ListAfter(images, env, s.counter)],
                RowsAfter(s.rows, id, images, env, s.counter),
                CounterAfter(id, images, env, s.counter),
                Bump(s.updated, v, Updated), Bump(s.failed, v, Failed), Bump(s.skipped, v, Skipped))
  }

  /** The loop in `main` over `ids`, in order, from `s`. */
  function Pass(ids: seq<string>, env: Env, s: PassState): PassState
    decreases |ids|
  {
    if ids == [] then s else MigrateStep(Pass(ids[..|ids| - 1], env, s), ids[|ids| - 1], env)
  }

  /** `after` is `before` with item `id`'s list set to `value`. */
  lemma ItemWrittenIsUpdate(before: map<string, seq<string>>, after: map<string, seq<string>>, id: string, value: seq<string>)
    requires ItemWritten(before, after, id, value)
    ensures after == before[id := value]
  {
  }

  /** The rows an ingestion leaves are `AddAssets` of the rows it started from. */
  lemma IngestStateIsAdd(start: nat, before: map<nat, Asset>, rows: map<nat, Asset>, counter: nat, created: seq<Asset>)
    requires IngestState(start, before, rows, counter, created)
    requires forall k :: k in before ==> k < start
    ensures rows == AddAssets(before, start, created)
  {
    var added := AddAssets(before, start, created);
    assert forall k :: k in rows <==> k in added;
    forall k | k in rows ensures rows[k] == added[k] {
      if start <= k < start + |created| {
        assert rows[start + (k - start)] == created[k - start];
      }
    }
  }

  /** `MigrationOf`, which `MigrateItem` promises, is one step of the pass. */
  lemma MigrationIsStep(id: string, env: Env, imagesBefore: map<string, seq<string>>, imagesAfter: map<string, seq<string>>,
                        rowsBefore: map<nat, Asset>, rowsAfter: map<nat, Asset>, counterBefore: nat, counterAfter: nat,
                        v: Verdict, stored: seq<string>, updated: nat, failed: nat, skipped: nat)
    requires id in imagesBefore && forall k :: k in rowsBefore ==> k < counterBefore
    requires MigrationOf(id, env, imagesBefore, imagesAfter, rowsBefore, rowsAfter, counterBefore, counterAfter, v, stored)
    ensures MigrateStep(PassState(imagesBefore, rowsBefore, counterBefore, updated, failed, skipped), id, env)
         == PassState(imagesAfter, rowsAfter, counterAfter, Bump(updated, v, Updated), Bump(failed, v, Failed), Bump(skipped, v, Skipped))
  {
    MigrationParts(id, env, imagesBefore, imagesAfter, rowsBefore, rowsAfter, counterBefore, counterAfter, v, stored);
    ItemWrittenIsUpdate(imagesBefore, imagesAfter, id, ListAfter(imagesBefore[id], env, counterBefore));
  }

  /** `MigrationOf`, field by field. */
  lemma MigrationParts(id: string, env: Env, imagesBefore: map<string, seq<string>>, imagesAfter: map<string, seq<string>>,
                       rowsBefore: map<nat, Asset>, rowsAfter: map<nat, Asset>, counterBefore: nat, counterAfter: nat,
                       v: Verdict, stored: seq<string>)
    requires id in imagesBefore && forall k :: k in rowsBefore ==> k < counterBefore
    requires MigrationOf(id, env, imagesBefore, imagesAfter, rowsBefore, rowsAfter, counterBefore, counterAfter, v, stored)
    ensures v == VerdictOf(imagesBefore[id], env, counterBefore)
    ensures ItemWritten(imagesBefore, imagesAfter, id, ListAfter(imagesBefore[id], env, counterBefore))
    ensures rowsAfter == RowsAfter(rowsBefore, id, imagesBefore[id], env, counterBefore)
    ensures counterAfter == CounterAfter(id, imagesBefore[id], env, counterBefore)
  {
    if HasAnyExternal(Normalize(imagesBefore[id])) {
      assert IngestedItem(id, env, imagesBefore, rowsBefore, rowsAfter, counterBefore, counterAfter, stored);
      assert v == VerdictFor(Normalize(imagesBefore[id]), stored);
      IngestedParts(id, env, imagesBefore, rowsBefore, rowsAfter, counterBefore, counterAfter, stored);
    }
  }

  /** `IngestedItem`, in terms of the step functions. */
  lemma IngestedParts(id: string, env: Env, imagesBefore: map<string, seq<string>>, rowsBefore: map<nat, Asset>,
                      rowsAfter: map<nat, Asset>, counterBefore: nat, counterAfter: nat, stored: seq<string>)
    requires id in imagesBefore && HasAnyExternal(Normalize(imagesBefore[id]))
    requires forall k :: k in rowsBefore ==> k < counterBefore
    requires IngestedItem(id, env, imagesBefore, rowsBefore, rowsAfter, counterBefore, counterAfter, stored)
    ensures stored == StoredFor(imagesBefore[id], env, counterBefore)
    ensures rowsAfter == RowsAfter(rowsBefore, id, imagesBefore[id], env, counterBefore)
    ensures counterAfter == CounterAfter(id, imagesBefore[id], env, counterBefore)
  {
    var images := imagesBefore[id];
    var n := Normalize(images);
    var kept := KeptRows(rowsBefore, id, n);
    var created := CreatedFor(id, images, env);
    assert IngestState(counterBefore, kept, rowsAfter, counterAfter, created);
    KeptKeys(rowsBefore, id, n);
    IngestStateIsAdd(counterBefore, kept, rowsAfter, counterAfter, created);
  }

  /** The pass over one more item is one more step. */
  lemma PassSnoc(ids: seq<string>, n: nat, env: Env, s: PassState)
    requires n < |ids|
    ensures Pass(ids[..n + 1], env, s) == MigrateStep(Pass(ids[..n], env, s), ids[n], env)
  {
    assert ids[..n + 1][..n] == ids[..n];
  }

  /** Every asset key is below the counter, as `AssetStore.Valid` demands. */
  ghost predicate KeysBelow(s: PassState) {
    forall k :: k in s.rows ==> k < s.counter
  }

  /** Item `x` has the same asset rows in `a` and in `b`. */
  ghost predicate SameItemRows(a: map<nat, Asset>, b: map<nat, Asset>, x: string) {
    && (forall k :: k in a && a[k].inventoryId == x ==> k in b && b[k] == a[k])
    && (forall k :: k in b && b[k].inventoryId == x ==> k in a && a[k] == b[k])
  }

  /** A step keeps the keys below the counter and the set of items. */
  lemma StepKeysBelow(s: PassState, id: string, env: Env)
    requires KeysBelow(s)
    ensures KeysBelow(MigrateStep(s, id, env))
    ensures forall k :: k in MigrateStep(s, id, env).images <==> k in s.images
  {
    if id in s.images {
      RowsAfterBelow(s.rows, id, s.images[id], env, s.counter);
    }
  }

  lemma RowsAfterBelow(rows: map<nat, Asset>, id: string, images: seq<string>, env: Env, counter: nat)
    requires forall k :: k in rows ==> k < counter
    ensures forall k :: k in RowsAfter(rows, id, images, env, counter) ==> k < CounterAfter(id, images, env, counter)
  {
    var n := Normalize(images);
    if HasAnyExternal(n) {
      KeptKeys(rows, id, n);
      AddAssetsBelow(KeptRows(rows, id, n), counter, CreatedFor(id, images, env));
    }
  }

  lemma KeptKeys(rows: map<nat, Asset>, id: string, n: seq<string>)
    ensures forall k :: k in KeptRows(rows, id, n) ==> k in rows
  {
  }

  lemma AddAssetsBelow(rows: map<nat, Asset>, start: nat, created: seq<Asset>)
    requires forall k :: k in rows ==> k < start
    ensures forall k :: k in AddAssets(rows, start, created) ==> k < start + |created|
  {
  }

  /** A step for another item, or for `x` itself when it has no external image, leaves
      `x`'s list and asset rows as they were. */
  lemma StepKeepsItem(s: PassState, id: string, env: Env, x: string)
    requires KeysBelow(s) && x in s.images
    requires id == x ==> !HasAnyExternal(Normalize(s.images[x]))
    ensures MigrateStep(s, id, env).images[x] == s.images[x]
    ensures SameItemRows(s.rows, MigrateStep(s, id, env).rows, x)
  {
    if id in s.images {
      var images := s.images[id];
      assert MigrateStep(s, id, env).rows == RowsAfter(s.rows, id, images, env, s.counter);
      if id == x {
        UnmigratedStays(s.rows, id, images, env, s.counter);
      } else {
        RowsAfterKeeps(s.rows, id, images, env, s.counter, x);
      }
    }
  }

  /** An item without an external image keeps its list, and the rows stay. */
  lemma UnmigratedStays(rows: map<nat, Asset>, id: string, images: seq<string>, env: Env, counter: nat)
    requires !HasAnyExternal(Normalize(images))
    ensures ListAfter(images, env, counter) == images && RowsAfter(rows, id, images, env, counter) == rows
  {
  }

  /** Another item's turn keeps `x`'s rows. */
  lemma RowsAfterKeeps(rows: map<nat, Asset>, id: string, images: seq<string>, env: Env, counter: nat, x: string)
    requires (forall k :: k in rows ==> k < counter) && id != x
    ensures SameItemRows(rows, RowsAfter(rows, id, images, env, counter), x)
  {
    var n := Normalize(images);
    if HasAnyExternal(n) {
      var kept := KeptRows(rows, id, n);
      var created := CreatedFor(id, images, env);
      KeptKeepsOthers(rows, id, n, x);
      CreatedBelongs(id, images, env, x);
      KeepsThroughAdd(rows, kept, counter, created, x);
      RowsAfterIsAdd(rows, id, images, env, counter);
    }
  }

  lemma RowsAfterIsAdd(rows: map<nat, Asset>, id: string, images: seq<string>, env: Env, counter: nat)
    requires HasAnyExternal(Normalize(images))
    ensures RowsAfter(rows, id, images, env, counter) == AddAssets(KeptRows(rows, id, Normalize(images)), counter, CreatedFor(id, images, env))
  {
  }

  /** Dropping rows that keep `x`'s, then adding another item's assets, keeps `x`'s rows. */
  lemma KeepsThroughAdd(rows: map<nat, Asset>, kept: map<nat, Asset>, start: nat, created: seq<Asset>, x: string)
    requires (forall k :: k in rows ==> k < start) && (forall k :: k in kept ==> k in rows)
    requires SameItemRows(rows, kept, x)
    requires forall j :: 0 <= j < |created| ==> created[j].inventoryId != x
    ensures SameItemRows(rows, AddAssets(kept, start, created), x)
  {
    AddKeepsOthers(kept, start, created, x);
    SameItemRowsTrans(rows, kept, AddAssets(kept, start, created), x);
  }

  /** The rows an item's turn starts ingestion from. */
  function KeptRows(rows: map<nat, Asset>, id: string, n: seq<string>): map<nat, Asset> {
    if AllExternal(n) then WithoutItem(rows, id) else rows
  }

  lemma KeptKeepsOthers(rows: map<nat, Asset>, id: string, n: seq<string>, x: string)
    requires id != x
    ensures SameItemRows(rows, KeptRows(rows, id, n), x)
    ensures forall k :: k in KeptRows(rows, id, n) ==> k in rows
  {
    WithoutKeepsOthers(rows, id, x);
  }

  lemma CreatedBelongs(id: string, images: seq<string>, env: Env, x: string)
    requires id != x
    ensures var created := CreatedFor(id, images, env);
      forall j :: 0 <= j < |created| ==> created[j].inventoryId != x
  {
    var us := Visited(Normalize(images));
    NewAssetsOk(id, us, env, DefaultMaxBytes, 0);
    var created := NewAssets(id, us, env, DefaultMaxBytes, 0);
    assert CreatedFor(id, images, env) == created;
    forall j | 0 <= j < |created| ensures created[j].inventoryId != x {
      assert AssetOk(created[j], id, us, DefaultMaxBytes, j);
    }
  }

  lemma SameItemRowsTrans(a: map<nat, Asset>, b: map<nat, Asset>, c: map<nat, Asset>, x: string)
    requires SameItemRows(a, b, x) && SameItemRows(b, c, x)
    ensures SameItemRows(a, c, x)
  {
  }

  /** Dropping another item's rows keeps `x`'s. */
  lemma WithoutKeepsOthers(rows: map<nat, Asset>, id: string, x: string)
    requires id != x
    ensures SameItemRows(rows, WithoutItem(rows, id), x)
  {
  }

  /** Adding assets of another item under new keys keeps `x`'s rows. */
  lemma AddKeepsOthers(rows: map<nat, Asset>, start: nat, created: seq<Asset>, x: string)
    requires forall k :: k in rows ==> k < start
    requires forall j :: 0 <= j < |created| ==> created[j].inventoryId != x
    ensures SameItemRows(rows, AddAssets(rows, start, created), x)
  {
  }

  lemma {:induction false} PassKeysBelow(ids: seq<string>, env: Env, s: PassState)
    requires KeysBelow(s)
    ensures KeysBelow(Pass(ids, env, s))
    ensures forall k :: k in Pass(ids, env, s).images <==> k in s.images
    decreases |ids|
  {
    if ids != [] {
      PassKeysBelow(ids[..|ids| - 1], env, s);
      StepKeysBelow(Pass(ids[..|ids| - 1], env, s), ids[|ids| - 1], env);
    }
  }

  /** An item without an external image keeps its list and its asset rows through the whole
      backfill: no step deletes or adds a row of it. */
  lemma {:induction false} PassKeepsUnmigrated(ids: seq<string>, env: Env, s: PassState, x: string)
    requires KeysBelow(s) && x in s.images && !HasAnyExternal(Normalize(s.images[x]))
    ensures x in Pass(ids, env, s).images && Pass(ids, env, s).images[x] == s.images[x]
    ensures SameItemRows(s.rows, Pass(ids, env, s).rows, x)
    decreases |ids|
  {
    if ids != [] {
      var init := ids[..|ids| - 1];
      PassKeepsUnmigrated(init, env, s, x);
      PassKeysBelow(init, env, s);
      StepKeysBelow(Pass(init, env, s), ids[|ids| - 1], env);
      StepKeepsItem(Pass(init, env, s), ids[|ids| - 1], env, x);
    }
  }

  /** Steps for other items leave `x`'s list alone. */
  lemma {:induction false} PassUntouched(ids: seq<string>, env: Env, s: PassState, j: nat, m: nat, x: string)
    requires j <= m <= |ids| && x in Pass(ids[..j], env, s).images
    requires forall t :: j <= t < m ==> ids[t] != x
    ensures x in Pass(ids[..m], env, s).images && Pass(ids[..m], env, s).images[x] == Pass(ids[..j], env, s).images[x]
    decreases m - j
  {
    if m > j {
      PassUntouched(ids, env, s, j, m - 1, x);
      PassSnoc(ids, m - 1, env, s);
    }
  }

  /** With every item visited once, an item ends with the list its own turn gave it: the
      stored results from the counter its turn started at when it is counted as updated,
      and its old list otherwise. */
  lemma PassItemList(ids: seq<string>, env: Env, s: PassState, i: nat)
    requires Distinct(ids) && i < |ids| && ids[i] in s.images
    ensures ids[i] in Pass(ids, env, s).images
    ensures Pass(ids, env, s).images[ids[i]] == ListAfter(s.images[ids[i]], env, Pass(ids[..i], env, s).counter)
  {
    var x := ids[i];
    assert ids[..0] == [];
    PassUntouched(ids, env, s, 0, i, x);
    PassSnoc(ids, i, env, s);
    PassUntouched(ids, env, s, i + 1, |ids|, x);
    assert ids[..|ids|] == ids;
  }

  class Database {
    /** Each inventory item's image list, by item id. */
    var images: map<string, seq<string>>
    const assets: AssetStore

    ghost predicate Valid()
      reads this, assets
    {
      assets.Valid()
    }

    constructor(images: map<string, seq<string>>, assets: AssetStore)
      requires assets.Valid()
      ensures this.images == images && this.assets == assets && Valid()
    {
      this.images := images;
      this.assets := assets;
    }

    /** The body of the loop in `main` for one item. */
    method MigrateItem(id: string, env: Env) returns (v: Verdict, stored: seq<string>)
      requires Valid() && id in images
      modifies this, assets
      ensures Valid()
      ensures MigrationOf(id, env, old(images), images, old(assets.rows), assets.rows, old(assets.counter), assets.counter, v, stored)
    {
      ghost var images0, rows0, counter0 := images, assets.rows, assets.counter;
      var normalized := Normalize(images[id]);
      if !HasAnyExternal(normalized) {
        return Skipped, [];
      }
      stored := ReplaceAssets(id, normalized, env);
      assert IngestedItem(id, env, images0, rows0, assets.rows, counter0, assets.counter, stored);
      v := RecordVerdict(id, normalized, stored);
      MigrationAfterIngest(id, env, images0, images, rows0, assets.rows, counter0, assets.counter, v, stored);
    }

    /** The middle of the loop body: drop the item's assets when every image is external,
        then ingest its images. */
    method ReplaceAssets(id: string, normalized: seq<string>, env: Env) returns (stored: seq<string>)
      requires Valid()
      modifies assets
      ensures Valid()
      ensures stored == Results(Visited(normalized), env, DefaultMaxBytes, old(assets.counter))
      ensures IngestState(old(assets.counter), if AllExternal(normalized) then WithoutItem(old(assets.rows), id) else old(assets.rows),
                          assets.rows, assets.counter, NewAssets(id, Visited(normalized), env, DefaultMaxBytes, 0))
    {
      var allExternal := AllExternal(normalized);
      // The source computes this start and passes it in an option ingestion does not read.
      ghost var startSortOrder := if allExternal then 0 else NextSortOrder(ItemSortOrders(assets.rows, id));
      if allExternal {
        assets.DeleteMany(id);
      }
      stored := assets.Ingest(id, normalized, env, DefaultMaxBytes, DefaultMaxImages);
    }

    /** The tail of the loop body: count the item and write the stored list when it differs. */
    method RecordVerdict(id: string, normalized: seq<string>, stored: seq<string>) returns (v: Verdict)
      requires id in images && HasAnyExternal(normalized)
      modifies this
      ensures v == VerdictFor(normalized, stored)
      ensures ItemWritten(old(images), images, id, if v == Updated then stored else old(images)[id])
    {
      if |stored| == 0 {
        v := Skipped;
      } else if !Changed(stored, normalized) {
        v := Failed;
      } else {
        images := images[id := stored];
        v := Updated;
      }
    }

    /** `main`: every item once, in the given order. */
    method Backfill(ids: seq<string>, env: Env) returns (updated: nat, failed: nat, skipped: nat)
      requires Valid() && Distinct(ids)
      requires forall id :: id in images <==> id in ids
      modifies this, assets
      ensures Valid()
      ensures PassState(images, assets.rows, assets.counter, updated, failed, skipped)
           == Pass(ids, env, PassState(old(images), old(assets.rows), old(assets.counter), 0, 0, 0))
      ensures BackfillDone(old(images), images, ids, updated, failed, skipped)
    {
      ghost var start := images;
      ghost var s0 := PassState(images, assets.rows, assets.counter, 0, 0, 0);
      updated, failed, skipped := 0, 0, 0;
      var n := 0;
      while n < |ids|
        invariant 0 <= n <= |ids| && Valid()
        invariant BackfillState(start, images, ids, n, updated, failed, skipped)
        invariant PassState(images, assets.rows, assets.counter, updated, failed, skipped) == Pass(ids[..n], env, s0)
      {
        var id := ids[n];
        ghost var before, rows, counter := images, assets.rows, assets.counter;
        var v, stored := MigrateItem(id, env);
        MigrationImages(id, env, before, images, rows, assets.rows, counter, assets.counter, v, stored);
        MigrationIsStep(id, env, before, images, rows, assets.rows, counter, assets.counter, v, stored, updated, failed, skipped);
        PassSnoc(ids, n, env, s0);
        BackfillStep(start, before, images, ids, n, updated, failed, skipped, v);
        updated, failed, skipped := Bump(updated, v, Updated), Bump(failed, v, Failed), Bump(skipped, v, Skipped);
        n := n + 1;
      }
      BackfillFinish(start, images, ids, n, updated, failed, skipped);
      assert ids[..n] == ids;
    }
  }

  // ----- the loop's bookkeeping -------------------------------------------------------

  /** How many of `ids` have a different list in `after` than in `before`. */
  function CountChanged(ids: seq<string>, before: map<string, seq<string>>, after: map<string, seq<string>>): (c: nat)
    requires forall id :: id in ids ==> id in before && id in after
    ensures c <= |ids|
    decreases |ids|
  {
    if ids == [] then 0
    else
      var last := ids[|ids| - 1];
      CountChanged(ids[..|ids| - 1], before, after) + (if before[last] != after[last] then 1 else 0)
  }

  /** Changes outside `ids` do not change the count. */
  lemma {:induction false} CountChangedFrame(ids: seq<string>, before: map<string, seq<string>>, a: map<string, seq<string>>, b: map<string, seq<string>>)
    requires forall id :: id in ids ==> id in before && id in a && id in b && a[id] == b[id]
    ensures CountChanged(ids, before, a) == CountChanged(ids, before, b)
    decreases |ids|
  {
    if ids != [] {
      CountChangedFrame(ids[..|ids| - 1], before, a, b);
    }
  }

  /** A rewritten list: at most the default number of entries, each a normalised image of
      the item or a stored reference. */
  ghost predicate Rewritten(before: seq<string>, after: seq<string>) {
    && |after| <= DefaultMaxImages
    && forall j :: 0 <= j < |after| ==> after[j] in Normalize(before) || IsStoredInventoryImageUrl(after[j])
  }

  ghost predicate BackfillState(start: map<string, seq<string>>, images: map<string, seq<string>>, ids: seq<string>, n: nat,
                                updated: nat, failed: nat, skipped: nat)
  {
    && n <= |ids| && Distinct(ids)
    && (forall id :: id in images <==> id in start)
    && (forall id :: id in start <==> id in ids)
    && (forall j :: n <= j < |ids| ==> images[ids[j]] == start[ids[j]])
    && (forall id :: id in images && images[id] != start[id] ==> Rewritten(start[id], images[id]))
    && (forall id :: id in images && !HasAnyExternal(Normalize(start[id])) ==> images[id] == start[id])
    && updated + failed + skipped == n
    && updated == CountChanged(ids[..n], start, images)
  }

  /** What the backfill promises: the counters add up to the number of items, `updated`
      is exactly the number of items whose list changed, a changed list is a rewrite of
      the old one, and items without an external image keep their list. */
  ghost predicate BackfillDone(start: map<string, seq<string>>, images: map<string, seq<string>>, ids: seq<string>,
                               updated: nat, failed: nat, skipped: nat)
    requires forall id :: id in start <==> id in ids
  {
    && (forall id :: id in images <==> id in start)
    && updated + failed + skipped == |ids|
    && updated == CountChanged(ids, start, images)
    && (forall id :: id in images && images[id] != start[id] ==> Rewritten(start[id], images[id]))
    && (forall id :: id in images && !HasAnyExternal(Normalize(start[id])) ==> images[id] == start[id])
  }

  /** A rewritten list is one ingestion returned for the item. */
  lemma ResultsRewrite(images: seq<string>, env: Env, nextKey: nat)
    ensures Rewritten(images, Results(Visited(Normalize(images)), env, DefaultMaxBytes, nextKey))
  {
    var n := Normalize(images);
    var u := Visited(n);
    UniqueMeaning(n, DefaultMaxImages);
    VisitedInNormalized(images);
    forall j | 0 <= j < |u|
      ensures var r := Results(u, env, DefaultMaxBytes, nextKey); r[j] in n || IsStoredInventoryImageUrl(r[j])
    {
      EntryShape(u, env, nextKey, j);
    }
  }

  /** What migrating item `id` does to the image lists, pointwise. */
  ghost predicate ImagesStep(before: map<string, seq<string>>, after: map<string, seq<string>>, id: string, v: Verdict)
    requires id in before
  {
    && (forall k :: k in after <==> k in before)
    && (forall k :: k in before && k != id ==> after[k] == before[k])
    && (v == Updated <==> after[id] != before[id])
    && (after[id] != before[id] ==> Rewritten(before[id], after[id]))
    && (!HasAnyExternal(Normalize(before[id])) ==> after[id] == before[id])
  }

  lemma MigrationImages(id: string, env: Env, before: map<string, seq<string>>, after: map<string, seq<string>>,
                        rowsBefore: map<nat, Asset>, rowsAfter: map<nat, Asset>, counterBefore: nat, counterAfter: nat,
                        v: Verdict, stored: seq<string>)
    requires id in before
    requires MigrationOf(id, env, before, after, rowsBefore, rowsAfter, counterBefore, counterAfter, v, stored)
    ensures ImagesStep(before, after, id, v)
  {
    if HasAnyExternal(Normalize(before[id])) {
      UpdatedChangesImages(before[id], env, counterBefore);
      ResultsRewrite(before[id], env, counterBefore);
    }
  }

  /** The counter for verdict `w` after an item judged `v`. */
  function Bump(count: nat, v: Verdict, w: Verdict): nat {
    if v == w then count + 1 else count
  }

  lemma BackfillStep(start: map<string, seq<string>>, before: map<string, seq<string>>, after: map<string, seq<string>>,
                     ids: seq<string>, n: nat, updated: nat, failed: nat, skipped: nat, v: Verdict)
    requires n < |ids| && BackfillState(start, before, ids, n, updated, failed, skipped)
    requires ids[n] in before && ImagesStep(before, after, ids[n], v)
    ensures BackfillState(start, after, ids, n + 1, Bump(updated, v, Updated), Bump(failed, v, Failed), Bump(skipped, v, Skipped))
  {
    StepFrame(start, before, after, ids, n, updated, failed, skipped, v);
    assert before[ids[n]] == start[ids[n]];
    StepCount(start, before, after, ids, n, updated, v);
  }

  lemma StepFrame(start: map<string, seq<string>>, before: map<string, seq<string>>, after: map<string, seq<string>>,
                  ids: seq<string>, n: nat, updated: nat, failed: nat, skipped: nat, v: Verdict)
    requires n < |ids| && BackfillState(start, before, ids, n, updated, failed, skipped)
    requires ids[n] in before && ImagesStep(before, after, ids[n], v)
    ensures forall id :: id in after <==> id in start
    ensures forall j :: n + 1 <= j < |ids| ==> after[ids[j]] == start[ids[j]]
    ensures forall id :: id in after && after[id] != start[id] ==> Rewritten(start[id], after[id])
    ensures forall id :: id in after && !HasAnyExternal(Normalize(start[id])) ==> after[id] == start[id]
  {
    assert before[ids[n]] == start[ids[n]];
  }

  lemma StepCount(start: map<string, seq<string>>, before: map<string, seq<string>>, after: map<string, seq<string>>,
                  ids: seq<string>, n: nat, updated: nat, v: Verdict)
    requires n < |ids| && Distinct(ids)
    requires forall id :: id in ids ==> id in start && id in before
    requires forall k :: k in after <==> k in before
    requires forall k :: k in before && k != ids[n] ==> after[k] == before[k]
    requires (v == Updated <==> after[ids[n]] != before[ids[n]]) && before[ids[n]] == start[ids[n]]
    requires updated == CountChanged(ids[..n], start, before)
    ensures forall id :: id in ids[..n + 1] ==> id in start && id in after
    ensures CountChanged(ids[..n + 1], start, after) == Bump(updated, v, Updated)
  {
    var id := ids[n];
    var done := ids[..n];
    assert ids[..n + 1] == done + [id];
    assert forall k :: k in done ==> k in before && k in after && k != id;
    CountChangedFrame(done, start, before, after);
    CountChangedSnoc(done, id, start, after);
  }

  lemma CountChangedSnoc(ids: seq<string>, id: string, before: map<string, seq<string>>, after: map<string, seq<string>>)
    requires forall k :: k in ids + [id] ==> k in before && k in after
    ensures CountChanged(ids + [id], before, after) == CountChanged(ids, before, after) + (if before[id] != after[id] then 1 else 0)
  {
    assert (ids + [id])[..|ids|] == ids;
  }

  lemma BackfillFinish(start: map<string, seq<string>>, images: map<string, seq<string>>, ids: seq<string>, n: nat,
                       updated: nat, failed: nat, skipped: nat)
    requires BackfillState(start, images, ids, n, updated, failed, skipped) && n >= |ids|
    ensures BackfillDone(start, images, ids, updated, failed, skipped)
  {
    assert ids[..n] == ids;
  }
}
