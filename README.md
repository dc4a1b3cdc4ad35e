# Listing ingestion and normalisation for the Opulentetz watch store

This project is a Dafny model of how the store reads watch listings, normalises them and keeps its inventory consistent:

- **Importer normaliser.** The Facebook importer turns a raw listing into brand, year, reference, condition, model, price and images.
- **Catalog.** Slugs are de-duplicated, listings are upserted by external id, and a batch import keeps created/updated/skipped counters.
- **Catalog backfill.** A script canonicalises brands, conditions, models and tags.
- **Image handling.**
  - Stored image references and their URLs.
  - Magic-byte sniffing and the ingestion loop that copies remote images into the database.
  - The backfill that migrates external image URLs.
- **Small helpers.**
  - The standard product description, which the importer's parsers read back.
  - `resolveImageSrc`.
  - The Facebook-CDN image proxy.
  - Admin credentials and session tokens.
  - The admin dashboard's manual-create and JSON-import actions.

One Dafny module corresponds to each source file:

| module | file | source |
|---|---|---|
| `Slug` | `slug.dfy` | `toSlug` |
| `ListingFields` | `listing_fields.dfy` | the field parsers of `lib/importers/facebook.ts` |
| `Catalog` | `catalog.dfy` | its store operations |
| `BackfillInventory` | `backfill_inventory.dfy` | `scripts/backfill_inventory.ts` |
| `InventoryImages` | `inventory_images.dfy` | `lib/inventory-images.ts` |
| `BackfillImages` | `backfill_images.dfy` | `scripts/backfill_inventory_images.ts` |
| `Formatters` | `formatters.dfy` | `lib/formatters.ts` |
| `ImageSrc` | `image_src.dfy` | `lib/image-src.ts` |
| `ImageProxy` | `image_proxy.dfy` | `app/api/image-proxy/route.ts` |
| `AdminAuth` | `admin_auth.dfy` | `lib/admin-auth.ts` |
| `AdminActions` | `admin_actions.dfy` | `app/admindashboard/actions.ts` |

Further modules:

- `DescriptionRoundTrip` (`roundtrip.dfy`) proves that the importer reads back what the description builder writes.
- `Prelude`, `Strings` and `Search` hold the shared vocabulary:
  - `Option`, bytes and de-duplication;
  - the JavaScript string operations as they behave on these inputs (`trim`, case mapping, `split`, `join`, `replace`);
  - "first regex match" scanning.

Each regular expression is a hand-written scanner.

Where the code works by updating state, the model uses classes:

- **Imperative parts.**
  - `Catalog.Store` has a `rows` map that its methods update. `EnsureUniqueSlug` is a `while` loop, and `ImportListings` is a `while` loop with counters.
  - `BackfillInventory.Inventory` holds the per-item update loop.
  - `InventoryImages.AssetStore` has the asset rows and the ingestion loop.
  - `BackfillImages.Database` holds the migration loop.
- **Proof style.**
  - Each loop is proved against a function of its inputs.
  - The properties the source promises are proved about those functions as lemmas.

Outside effects become parameters:

- the clock (`currentYear`);
- `fetch` (an `Env`/`Upstream` value that answers ok-with-bytes-and-header, not-ok, or throw);
- URL parsing, `filenameFromUrl`, `encodeURIComponent`;
- `JSON.parse`;
- `Number()` on form fields;
- the HMAC.

## Model

| member | source | states |
|---|---|---|
| `Slug.HyphenateRuns` | lib/importers/facebook.ts:27 | replacing every run of non-`[a-z0-9]` characters by one `-` leaves only `[a-z0-9-]` with no two adjacent hyphens; the result is empty iff the input is, and starts with `-` iff the input starts with a non-alphanumeric |
| `Slug.DropLeadingHyphens` | lib/importers/facebook.ts:28 | the result is a suffix of the input that does not start with `-` |
| `Slug.DropTrailingHyphens` | lib/importers/facebook.ts:28 | the result is a prefix of the input that does not end with `-` |
| `Slug.ToSlug` | lib/importers/facebook.ts:24-28 | the slug has only `[a-z0-9-]`, no leading or trailing `-` and never `--` |
| `Slug.HyphenateFixed` | lib/importers/facebook.ts:27 | on hyphen-separated text the run replacement changes nothing |
| `Slug.SlugIsFixed` | lib/importers/facebook.ts:24-28 | every slug is its own slug |
| `Slug.ToSlugIdempotent` | lib/importers/facebook.ts:24-28 | `toSlug(toSlug(s)) == toSlug(s)` |
| `ListingFields.FirstPrefixBrand` | lib/importers/facebook.ts:38-43 | the index found is the first known brand whose upper-case form prefixes the text; when none is found, no brand prefixes it |
| `ListingFields.DetectBrand` | lib/importers/facebook.ts:30-47 | `detectBrand`: "Rolex" when the upper-cased trimmed title contains `R0LEX`, else the first vocabulary entry prefixing it (`AP` read as Audemars Piguet), else the first space-separated word, else "Rolex"; its properties are the `DetectBrand…` lemmas below |
| `ListingFields.PrefixesExclusive` | lib/importers/facebook.ts:22 | no title begins with two different vocabulary entries, so the order of the vocabulary decides nothing |
| `ListingFields.DetectBrandPrefix` | lib/importers/facebook.ts:38-43 | without `R0LEX`, a title beginning with vocabulary entry `j` gets entry `j`'s brand, a known brand name |
| `ListingFields.DetectBrandNonEmpty` | lib/importers/facebook.ts:30-47 | the brand is never empty, and a blank title gives "Rolex" |
| `ListingFields.DetectBrandOfBlank` | lib/importers/facebook.ts:45-46 | a blank title has an empty first word, so the brand is "Rolex" |
| `ListingFields.DetectBrandNamesSomething` | lib/importers/facebook.ts:30-47 | every branch returns a non-empty brand |
| `ListingFields.DetectBrandKnown` | lib/importers/facebook.ts:34-43 | when `R0LEX` occurs or a known brand prefixes the upper-cased trimmed title, the brand is one of Rolex, Omega, Audemars Piguet or Patek Philippe: Rolex for `R0LEX`, otherwise exactly the brand of the prefixing entry (Audemars Piguet for `AP`) |
| `ListingFields.DetectBrandAP` | lib/importers/facebook.ts:38-41 | a title beginning `AP` (and no earlier brand or `R0LEX`) gives "Audemars Piguet" |
| `ListingFields.DetectBrandFirstWord` | lib/importers/facebook.ts:45-46 | without `R0LEX` and without a brand prefix, the brand is the first space-separated word of the trimmed title, a non-empty, space-free prefix of it |
| `ListingFields.TitleYearFrom` | lib/importers/facebook.ts:55 | the year found is the leftmost four-digit 19xx or 20xx word from the start index, and none means no match anywhere after it |
| `ListingFields.YearPrefixRange` | lib/importers/facebook.ts:50 | a `Year:` capture is a four-digit value between 0 and 9999 |
| `ListingFields.ParseYear` | lib/importers/facebook.ts:49-61 | `parseYear`: the description's `Year:` capture, else the title's 19xx/20xx word, else the current year; pinned by the three `ParseYear…` lemmas below |
| `ListingFields.TitleYearRange` | lib/importers/facebook.ts:55 | a title match is a year from 1900 to 2099 |
| `ListingFields.ParseYearFromDescription` | lib/importers/facebook.ts:50-53 | the first `Year:` line of the description wins, with its four-digit value |
| `ListingFields.ParseYearFromTitle` | lib/importers/facebook.ts:55-58 | without a description year, the leftmost 19xx/20xx word in the title wins |
| `ListingFields.ParseYearDefault` | lib/importers/facebook.ts:60 | with neither, the supplied current year is returned |
| `ListingFields.RefRun` | lib/importers/facebook.ts:64 | the run is the longest prefix over `[A-Za-z0-9.-]` |
| `ListingFields.ParseReference` | lib/importers/facebook.ts:63-75 | `parseReference`: the description's `Ref` token, else the text inside the title's first non-empty parenthesised group, else "unlisted-reference"; its shape is `ParseReferenceShape` |
| `ListingFields.ParseReferenceShape` | lib/importers/facebook.ts:63-75 | the reference is never empty; a description `Ref` token is made of reference characters; a title reference has no `)`; otherwise it is "unlisted-reference" |
| `ListingFields.LineHead` | lib/importers/facebook.ts:78 | the capture `[^\n\r]+` is the longest line-break-free prefix |
| `ListingFields.LastNonBreak` | lib/importers/facebook.ts:78 | the last position not holding a line break, which is where the backtracking `\s*` capture starts when only whitespace follows the label |
| `ListingFields.FirstContained` | lib/importers/facebook.ts:83-85 | the name found is the first known condition contained in the lower-cased description; none means no name occurs |
| `ListingFields.ConditionCaptureShape` | lib/importers/facebook.ts:78 | the `Condition:` capture holds no line break |
| `ListingFields.ParseCondition` | lib/importers/facebook.ts:77-86 | `parseCondition`: the trimmed `Condition:` capture, else the first known condition the lower-cased description contains, else "Excellent"; its shape is `ParseConditionShape` |
| `ListingFields.ParseConditionShape` | lib/importers/facebook.ts:77-86 | a `Condition:` value comes back trimmed and on one line, not canonicalised; otherwise the result is one of Unworn/Excellent/Very Good/Good |
| `ListingFields.TidyTextIsTidy` | lib/importers/facebook.ts:101 | dropping parenthesised groups, collapsing whitespace and trimming leaves trimmed single-spaced text |
| `ListingFields.DeriveModel` | lib/importers/facebook.ts:88-102 | `deriveModel` with the brand matched literally (the corrected reading of line 91): strip the brand and following whitespace from the start, remove every occurrence of a non-zero year and, case-insensitively, of the escaped reference, drop parenthesised groups, collapse whitespace, trim, and fall back to the title when nothing is left; pinned by `DeriveModelShape` and `DeriveModelOfBrandedTitle` |
| `ListingFields.DeriveModelShape` | lib/importers/facebook.ts:88-102 | the model is the title itself or a non-empty, trimmed, single-spaced text, so it is non-empty whenever the title is |
| `ListingFields.DeriveModelAsWritten` | lib/importers/facebook.ts:88-102 | `deriveModel` as written, with the regular-expression engine as a parameter: the result is a throw exactly when the brand is non-empty and the engine rejects the unescaped pattern built from it |
| `ListingFields.DeriveModelEscaped` | lib/importers/facebook.ts:88-102 | with a literal brand match, the code as written computes `DeriveModel` and never throws |
| `ListingFields.DeriveModelAsWrittenOfPlain` | lib/importers/facebook.ts:91 | for a brand without regular-expression syntax, the code as written computes `DeriveModel` |
| `ListingFields.DeriveModelAsWrittenThrows` | lib/importers/facebook.ts:91 | a brand starting with `*`, `+` or `?` makes the code as written throw |
| `ListingFields.KnownBrandIsPlain` | lib/importers/facebook.ts:22 | every known brand name is free of regular-expression syntax, so for those titles the code as written agrees with `DeriveModel` |
| `ListingFields.RemoveParenGroupsNoParen` | lib/importers/facebook.ts:101 | text without `(` is unchanged by the group removal |
| `ListingFields.RemoveParenGroupsComplete` | lib/importers/facebook.ts:101 | afterwards no `(` has a `)` after it |
| `ListingFields.RemoveAllAbsent` | lib/importers/facebook.ts:94-98 | removing a pattern that does not occur changes nothing |
| `ListingFields.StripLeadingBrandOf` | lib/importers/facebook.ts:91 | the brand and the whitespace after it are removed from the start of the title |
| `ListingFields.StripBrandedTitle` | lib/importers/facebook.ts:89-99 | for "brand rest" with neither the year nor the reference in `rest`, the three rewrites leave `rest` |
| `ListingFields.DeriveModelOfBrandedTitle` | lib/importers/facebook.ts:88-102 | the model of "brand rest" is `rest` for tidy text without parentheses, year or reference |
| `ListingFields.DetectBrandOfMarkedTitle` | lib/importers/facebook.ts:30-47 | a title whose first word starts with a non-letter and has no `0` gets that first word as its brand |
| `ListingFields.SoldTitleCounterexample` | lib/importers/facebook.ts:88-102 | for the title "*SOLD* Rolex GMT" the brand is `*SOLD*`, the code as written throws, and the corrected model (with the reference "unlisted-reference" that `parseReference` gives this title) is "Rolex GMT" |
| `ListingFields.KeepPriceChars` | lib/importers/facebook.ts:107 | only digits and dots survive |
| `ListingFields.KeepPriceCharsAppend` | lib/importers/facebook.ts:107 | the filter distributes over concatenation |
| `ListingFields.ParsePrice` | lib/importers/facebook.ts:104-112 | `parsePrice`: a number is taken as is, a text keeps only digits and dots and is read as a decimal (0 when unparsable), and a missing price is 0; pinned by the two `ParsePrice…` lemmas |
| `ListingFields.ParsePriceOfDecoratedNumber` | lib/importers/facebook.ts:104-112 | a whole number surrounded by non-price characters (such as "$" and " CAD") parses to that number |
| `ListingFields.ParsePriceTextNonNegative` | lib/importers/facebook.ts:106-111 | a text price is never negative (an unparsable one is 0) |
| `ListingFields.NormalizeImages` | lib/importers/facebook.ts:135-138 | `normalizeImages`: no array gives no images; otherwise the string elements that are not blank, unchanged and in order; pinned by `NonBlankStringsMembers` |
| `ListingFields.NonBlankStringsMembers` | lib/importers/facebook.ts:135-138 | exactly the non-blank string elements survive, unchanged |
| `ListingFields.ParseListingsFromJson` | lib/importers/facebook.ts:204-212 | `parseListingsFromJson`: an array is the listings, an object gives its `items` array, else its `data` array, and anything else none; pinned by `WrappedListings` |
| `ListingFields.WrappedListings` | lib/importers/facebook.ts:204-212 | an object's `items` array, else its `data` array, gives the listings, with `items` preferred |
| `ListingFields.NormalizeListing` | lib/importers/facebook.ts:146-159 | the row `upsertListing` writes, with the corrected `DeriveModel`: title default "Untitled Listing", description default "", the parsed fields, status default "Available", `featured` false unless given as true, box-and-papers default true, and the source URL |
| `ListingFields.NormalizeListingAsWritten` | lib/importers/facebook.ts:140-160 | `upsertListing`'s normalisation as written: it throws exactly when the engine rejects the pattern built from the detected brand, and otherwise agrees with `NormalizeListing` on every field but the model |
| `ListingFields.NormalizeEscaped` | lib/importers/facebook.ts:140-160 | with a literal brand match, the normalisation as written is `NormalizeListing` and never throws |
| `ListingFields.NormalizeAsWrittenOfPlain` | lib/importers/facebook.ts:140-160 | for a detected brand without regular-expression syntax, the normalisation as written is `NormalizeListing` |
| `ListingFields.NormalizeThrows` | lib/importers/facebook.ts:148-151 | an entry whose detected brand starts with `*`, `+` or `?` makes the normalisation as written throw |
| `ListingFields.SoldEntryThrows` | lib/importers/facebook.ts:146-151 | an entry titled "*SOLD* Rolex GMT" makes the normalisation as written throw |
| `Catalog.CandidateInjective` | lib/importers/facebook.ts:128 | the candidates `initial`, `initial-1`, `initial-2`, … are pairwise different |
| `Catalog.TriedOneMore` | lib/importers/facebook.ts:122-130 | each collision uses up a distinct stored slug, which bounds the loop by the store's size |
| `Catalog.CountCreatedIsNewKeys` | lib/importers/facebook.ts:214-233 | the number created is the number of distinct entry keys not in the store before |
| `Catalog.Store.constructor` | lib/importers/facebook.ts:114-133 | an empty store |
| `Catalog.Store.EnsureUniqueSlug` | lib/importers/facebook.ts:114-133 | the loop ends, the chosen slug is held by no row with another external id (any row when none is given), and it is the first candidate `initial` or `initial-k` that is free, with earlier candidates all taken |
| `Catalog.Store.Put` | lib/importers/facebook.ts:161-201 | the upsert writes exactly one row under the external id, reports created iff the id was absent, and leaves every other row alone |
| `Catalog.Store.UpsertListing` | lib/importers/facebook.ts:140-202 | a missing or empty product id is skipped with the store unchanged; an entry whose normalisation throws raises with the store unchanged; otherwise the row for the id is replaced by the normalised listing with a fresh, non-colliding slug, and created iff it was absent |
| `Catalog.Store.Create` | app/admindashboard/actions.ts:89-107 | an insert whose external id or slug is already stored is refused with the target the database reports and changes nothing; any other insert succeeds and adds one row under a fresh key |
| `Catalog.Store.ImportListings` | lib/importers/facebook.ts:214-233 | the import completes iff no entry with an id throws; then `created + updated + skipped` is the number of entries, skipped counts the entries without an id, created counts the new keys, and the store holds the last entry per key with other rows unchanged; otherwise it is rejected at the first throwing entry, with the entries before it already written |
| `Catalog.Store.ImportTwice` | lib/importers/facebook.ts:214-233 | a completed import run again completes, reports nothing created, and counts every written entry as updated; a rejected import is rejected again at the same entry |
| `Catalog.Store.ImportStep` | lib/importers/facebook.ts:219-230 | one upsert and its tally preserve the import invariant |
| `Catalog.FirstThrowUnique` | lib/importers/facebook.ts:219-220 | the entry at which an import is rejected is determined: the first one that throws |
| `Catalog.RejectedHere` | lib/importers/facebook.ts:220 | a throw at entry `i` with the invariant holding rejects the import at `i`, with the earlier entries written |
| `Catalog.NoneThrowsStep` | lib/importers/facebook.ts:219-220 | an entry that does not throw extends the prefix that imported without a throw |
| `Catalog.EscapedNeverThrows` | lib/importers/facebook.ts:214-233 | with the brand matched literally no entry throws, so every import completes |
| `Catalog.SoldEntryRejectsImport` | lib/importers/facebook.ts:214-233 | a batch holding an entry with an id and the title "*SOLD* Rolex GMT" never completes |
| `BackfillInventory.UpperNameIsUpper` | scripts/backfill_inventory.ts:16-18 | each written-out upper-case brand name is `brand.toUpperCase()` |
| `BackfillInventory.CanonicalBrandsComplete` | scripts/backfill_inventory.ts:4 | the seven-brand list holds every canonical brand |
| `BackfillInventory.FirstContained` | scripts/backfill_inventory.ts:16-18 | the brand found is the first in list order whose upper-case name occurs; none means no name occurs |
| `BackfillInventory.DetectCanonicalBrand` | scripts/backfill_inventory.ts:7-21 | `detectCanonicalBrand`: the `R0LEX`/`ROLEX`, `A.P.`/`AP`, `PATEK` and `AUDEMARS` word rules in order, then the first canonical brand whose upper-case name occurs, else null; pinned by `DetectSound`, `DetectComplete` and `DetectRolexFirst` |
| `BackfillInventory.DetectSound` | scripts/backfill_inventory.ts:7-21 | a detected brand is mentioned in the normalised text: by name, as `R0LEX`/`ROLEX`, `PATEK`, or `AP`/`A.P.`/`AUDEMARS` as words |
| `BackfillInventory.DetectComplete` | scripts/backfill_inventory.ts:7-21 | detection returns null iff no brand is mentioned |
| `BackfillInventory.DetectInNone` | scripts/backfill_inventory.ts:11-20 | when every rule fails, no brand is mentioned |
| `BackfillInventory.DetectRolexFirst` | scripts/backfill_inventory.ts:11 | `R0LEX` or the word `ROLEX` gives Rolex before the AP, PATEK, AUDEMARS rules and the list scan, and Rolex is only returned for such a text or one containing `ROLEX` |
| `BackfillInventory.DetectIgnoresLayout` | scripts/backfill_inventory.ts:8 | detection depends only on the whitespace-collapsed, trimmed text |
| `BackfillInventory.SplitOnWhitespace` | scripts/backfill_inventory.ts:47 | splitting on whitespace runs gives at least one word |
| `BackfillInventory.CapitalizedWordsAreTitleCase` | scripts/backfill_inventory.ts:45-49 | capitalising each space-separated word and joining with spaces is title case |
| `BackfillInventory.TitleCaseIsTitleCased` | scripts/backfill_inventory.ts:45-49 | on lower-cased text, title case upper-cases word starts and nothing else |
| `BackfillInventory.CanonicalKeysUpper` | scripts/backfill_inventory.ts:30-41 | every map key is upper case, so the upper-cased lookup can hit each one |
| `BackfillInventory.CanonicalLabelsFixed` | scripts/backfill_inventory.ts:30-41 | every map value is tidy and maps to itself |
| `BackfillInventory.ConditionShapeTidy` | scripts/backfill_inventory.ts:24-27 | trimming and collapsing gives tidy text, empty iff the input is blank |
| `BackfillInventory.NormalizeCondition` | scripts/backfill_inventory.ts:23-50 | `normalizeCondition`: blank input unchanged, else the map value for the upper-cased collapsed text, else that text title-cased; pinned by `NormalizeConditionMeaning` |
| `BackfillInventory.NormalizeConditionMeaning` | scripts/backfill_inventory.ts:23-50 | blank input comes back unchanged; otherwise the result is non-empty, trimmed and single-spaced, is the map value when the upper-cased text is a key, and is otherwise the text title-cased |
| `BackfillInventory.NormalizeConditionIdempotent` | scripts/backfill_inventory.ts:23-50 | normalising twice equals normalising once |
| `BackfillInventory.NormalizeConditionIgnoresCaseAndLayout` | scripts/backfill_inventory.ts:24-49 | inputs equal up to case, surrounding whitespace and whitespace runs normalise alike |
| `BackfillInventory.NormalizeConditionOfKey` | scripts/backfill_inventory.ts:27-43 | every map key, in any case or spacing, normalises to its value |
| `BackfillInventory.NewUnwornExample` | scripts/backfill_inventory.ts:33 | "new", any whitespace run, "unworn" gives "Brand New Unworn" |
| `BackfillInventory.StripAliasSuffix` | scripts/backfill_inventory.ts:65-66 | stripping one alias leaves a suffix of the text |
| `BackfillInventory.StripAliasesSuffix` | scripts/backfill_inventory.ts:64-67 | stripping the aliases in turn leaves a suffix of the text |
| `BackfillInventory.StripAliasesUnprefixed` | scripts/backfill_inventory.ts:64-67 | with no alias-plus-whitespace prefix nothing is removed |
| `BackfillInventory.StripBrandPrefix` | scripts/backfill_inventory.ts:52-70 | the result is the trimmed, alias-stripped model: a trimmed suffix of `model.trim()`, and equal to it when no alias followed by whitespace prefixes it |
| `BackfillInventory.StripEachAlias` | scripts/backfill_inventory.ts:63-67 | the loop strips every alias in list order |
| `BackfillInventory.StrippedModelShape` | scripts/backfill_inventory.ts:63-69 | the stripped model is trimmed and a suffix of the trimmed model |
| `BackfillInventory.NextModel` | scripts/backfill_inventory.ts:97-102 | the next model is the brand-stripped model when a brand is detected, and the model unchanged otherwise |
| `BackfillInventory.NextTags` | scripts/backfill_inventory.ts:104-107 | when a brand is detected and its name is not a tag, the de-duplication of the tags followed by the name, else the tags unchanged; pinned by `NextTagsMeaning` |
| `BackfillInventory.NextTagsMeaning` | scripts/backfill_inventory.ts:104-107 | the next tags keep every tag, hold the detected name, add nothing else, and on repeat-free tags are the tags with the name appended |
| `BackfillInventory.RepeatedTagHidesDetected` | scripts/backfill_inventory.ts:104-113 | with a repeated tag the `Set` absorbs the added name, the length is unchanged, and the tag change alone does not trigger a write |
| `BackfillInventory.NeedsBrandFix` | scripts/backfill_inventory.ts:91-92 | `needsBrandFix`: the brand is a four-digit year, is "AP", or differs from a detected brand; `PlanWritesOnlyChanges` shows it matters only together with a changed detected brand |
| `BackfillInventory.PlanWith` | scripts/backfill_inventory.ts:109-128 | `shouldUpdate` and the spread patch; `PlanWritesOnlyChanges` proves an item is written iff its outcome differs and only changed fields are in the patch |
| `BackfillInventory.OutcomeFields` | scripts/backfill_inventory.ts:94-128 | after the pass the brand is the detected one (else unchanged), model and condition take their next values, the description is untouched, and tags change only when their count does |
| `BackfillInventory.PlanWritesOnlyChanges` | scripts/backfill_inventory.ts:109-128 | an item is written iff its outcome differs from it, and only fields that change are written |
| `BackfillInventory.BackfilledMeaning` | scripts/backfill_inventory.ts:87-128 | an item's new fields are the detected brand, the stripped model, the normalised condition and the same description, and it is written iff it changes |
| `BackfillInventory.PlanItem` | scripts/backfill_inventory.ts:88-128 | the per-item decision computes the planned update |
| `BackfillInventory.Inventory.constructor` | scripts/backfill_inventory.ts:73-82 | the pass starts from the items read |
| `BackfillInventory.Inventory.BackfillRow` | scripts/backfill_inventory.ts:87-131 | one item is replaced by its backfilled form, and it reports a write iff it was updated |
| `BackfillInventory.Inventory.Backfill` | scripts/backfill_inventory.ts:84-131 | every item ends as its backfilled form, `updated + skipped` is the number of items, and updated counts exactly the items written |
| `InventoryImages.IsStoredInventoryImageUrl` | lib/inventory-images.ts:7 | a value is stored iff it starts with `/api/inventory-images/`; `BuiltIsStored` shows every built URL is |
| `InventoryImages.ParseStoredInventoryImageId` | lib/inventory-images.ts:9-14 | the text between the prefix and the first `?`, null when unprefixed or empty; `ParseBuildRoundTrip`, `ParseUnprefixed` and `ParseMeaning` characterise it |
| `InventoryImages.BuildInventoryImageUrl` | lib/inventory-images.ts:5 | the URL is the prefix followed by the id, its length the sum of theirs |
| `InventoryImages.BuiltIsStored` | lib/inventory-images.ts:5-7 | every built URL is a stored reference |
| `InventoryImages.ParseBuildRoundTrip` | lib/inventory-images.ts:3-14 | parsing a built URL gives back a non-empty, `?`-free id |
| `InventoryImages.ParseUnprefixed` | lib/inventory-images.ts:10 | an unprefixed value parses to null |
| `InventoryImages.ParseMeaning` | lib/inventory-images.ts:9-14 | a parsed id is non-empty, `?`-free, and the value is its URL followed by nothing or `?…`; null means unprefixed, the bare prefix, or `?` right after it |
| `InventoryImages.Ascii` | lib/inventory-images.ts:31-36 | the ASCII decoding keeps the length |
| `InventoryImages.AsciiTestsAreSignatures` | lib/inventory-images.ts:30-38 | the text comparisons after ASCII decoding are the GIF and RIFF/WEBP byte signatures |
| `InventoryImages.SignaturesDisjoint` | lib/inventory-images.ts:16-40 | no buffer carries two signatures |
| `InventoryImages.DetectImageContentType` | lib/inventory-images.ts:16-40 | the magic-byte sniffer: JPEG, PNG, GIF and WEBP signatures tested in that order, else null; pinned by `DetectMeaning` |
| `InventoryImages.DetectMeaning` | lib/inventory-images.ts:16-40 | the sniffer names a kind iff the buffer carries that kind's signature, and returns null iff it carries none |
| `InventoryImages.DetectShort` | lib/inventory-images.ts:16-40 | a buffer under 3 bytes gives null |
| `InventoryImages.DetectExactSignatures` | lib/inventory-images.ts:17-38 | FF D8 FF, the PNG signature, `GIF87a`/`GIF89a`, and `RIFF`…`WEBP` are each recognised as their kind |
| `InventoryImages.ChooseContentType` | lib/inventory-images.ts:85-89 | the header media type when it starts with `image/`, else the sniffed `image/` type, else the fallback; pinned by `ChooseContentTypeMeaning` |
| `InventoryImages.Unique` | lib/inventory-images.ts:63 | `Array.from(new Set(urls.map(trim).filter(Boolean))).slice(0, maxImages)`; pinned by `UniqueMeaning` and `UniqueFirstOccurrences` |
| `InventoryImages.ChooseContentTypeMeaning` | lib/inventory-images.ts:85-89 | the stored type is the header media type when it starts `image/`, else an `image/` sniffed type, else the fallback |
| `InventoryImages.UniqueMeaning` | lib/inventory-images.ts:61-63 | the visited URLs are trimmed, non-empty, distinct, at most `maxImages`, and, below the cap, include every non-blank URL |
| `InventoryImages.UniqueFirstOccurrences` | lib/inventory-images.ts:63 | the visited URLs are the first `maxImages` distinct values of the non-blank trimmed inputs, in the order of their first occurrences, with none skipped; below the cap every one is there |
| `InventoryImages.Attempt` | lib/inventory-images.ts:71-104 | the asset one fetch creates: none for not-ok, a throw or more than `maxBytes`, else the bytes with the chosen content type; `AttemptMeaning` and `AttemptContentType` pin it |
| `InventoryImages.AttemptMeaning` | lib/inventory-images.ts:71-104 | an asset is created iff the response is ok and at most `maxBytes`, with the item id, sort order, source URL, file name, the bytes and their size |
| `InventoryImages.AttemptContentType` | lib/inventory-images.ts:85-89 | a created asset's type is an `image/` type or `application/octet-stream`, the latter only for a buffer with no image signature |
| `InventoryImages.AssetUrlRoundTrip` | lib/inventory-images.ts:106 | the reference stored for an asset parses back to its id |
| `InventoryImages.Results` | lib/inventory-images.ts:67-113 | one result per visited URL |
| `InventoryImages.NewAssetsCount` | lib/inventory-images.ts:93-107 | one asset per successful fetch |
| `InventoryImages.NewAssetsFields` | lib/inventory-images.ts:66-107 | created assets have sort orders 0, 1, 2, … consecutively, the item's id, a size equal to their data length and at most `maxBytes`, and a visited source URL |
| `InventoryImages.IngestEntries` | lib/inventory-images.ts:73-109 | each result is the original URL or the reference of the asset created for it |
| `InventoryImages.WithoutItem` | lib/inventory-images.ts:93-104 | removes exactly the item's assets and keeps the rest |
| `InventoryImages.AssetStore.constructor` | lib/inventory-images.ts:93-104 | an empty asset table |
| `InventoryImages.AssetStore.Create` | lib/inventory-images.ts:93-104 | an asset is inserted under a fresh key |
| `InventoryImages.AssetStore.DeleteMany` | scripts/backfill_inventory_images.ts:35-39 | the item's assets are deleted and nothing else |
| `InventoryImages.AssetStore.IngestOne` | lib/inventory-images.ts:68-112 | one URL is fetched, at most one asset is stored, and its result entry is pushed |
| `InventoryImages.AssetStore.Ingest` | lib/inventory-images.ts:58-116 | the results are the per-URL entries of the de-duplicated, capped list, and the table gains exactly the new assets under consecutive keys with earlier rows untouched |
| `BackfillImages.IsExternalUrl` | scripts/backfill_inventory_images.ts:5 | the trimmed value starts with `http://` or `https://` up to case; `StoredNotExternal` shows a stored reference never is |
| `BackfillImages.StoredNotExternal` | scripts/backfill_inventory_images.ts:5 | a stored reference is never an external URL |
| `BackfillImages.Normalize` | scripts/backfill_inventory_images.ts:18 | each image trimmed and the empty ones dropped, in order; pinned by `NormalizeClean` and `NormalizeIdempotent` |
| `BackfillImages.NormalizeClean` | scripts/backfill_inventory_images.ts:18 | the normalised list holds trimmed, non-empty values |
| `BackfillImages.NormalizeIdempotent` | scripts/backfill_inventory_images.ts:18 | normalising again changes nothing |
| `BackfillImages.VerdictFor` | scripts/backfill_inventory_images.ts:19-60 | skipped without an external image or with an empty result, failed when the result equals the list, updated otherwise; `Database.RecordVerdict` and `Database.Backfill` carry it into the counters |
| `BackfillImages.ChangedIff` | scripts/backfill_inventory_images.ts:48 | the length-or-position test is list inequality |
| `BackfillImages.VisitedInNormalized` | lib/inventory-images.ts:63 | ingestion only visits normalised values |
| `BackfillImages.StoredNeverEmpty` | scripts/backfill_inventory_images.ts:41-46 | an item with an external image never gets an empty result, so the `stored.length === 0` branch is dead |
| `BackfillImages.EntryShape` | lib/inventory-images.ts:73-109 | a successful fetch yields a stored, non-external reference, and a failed one the URL itself |
| `BackfillImages.ResultsClean` | scripts/backfill_inventory_images.ts:41 | the ingest results are trimmed and non-empty |
| `BackfillImages.UpdatedChangesImages` | scripts/backfill_inventory_images.ts:48-58 | a changed result differs from the item's raw list, so the write changes it |
| `BackfillImages.MigratedItemIsSkippedNextTime` | scripts/backfill_inventory_images.ts:17-24 | when every fetch succeeds, the new list is normal and has no external image, so a second run skips the item |
| `BackfillImages.NextSortOrder` | scripts/backfill_inventory_images.ts:27-33 | the computed start is above every existing sort order, 0 when there are none, and otherwise one more than the largest |
| `BackfillImages.StartSortOrderIgnored` | scripts/backfill_inventory_images.ts:41 | ingestion still starts at 0 below the computed start, so sort orders can collide |
| `BackfillImages.Database.constructor` | scripts/backfill_inventory_images.ts:8-11 | the pass starts from the items' image lists and the asset table |
| `BackfillImages.Database.MigrateItem` | scripts/backfill_inventory_images.ts:17-62 | an item without an external image is skipped untouched; otherwise its assets are deleted when all images are external, its images are ingested, and the list is written only for an updated verdict |
| `BackfillImages.Database.ReplaceAssets` | scripts/backfill_inventory_images.ts:26-41 | deletion happens iff every image is external, and then ingestion runs from the current key |
| `BackfillImages.Database.RecordVerdict` | scripts/backfill_inventory_images.ts:43-60 | skipped for an empty result, failed for an unchanged one, updated (and written) otherwise |
| `BackfillImages.Database.Backfill` | scripts/backfill_inventory_images.ts:13-62 | the final image lists, asset rows, key counter and the three counters are exactly `Pass` (the loop over the items in order, one `MigrateStep` per item) from the starting state; `updated + failed + skipped` is the number of items, updated counts exactly the changed lists, a changed list is a rewrite into normalised or stored values, and items without an external image keep their list |
| `BackfillImages.CountChangedFrame` | scripts/backfill_inventory_images.ts:60 | the updated count depends only on the listed items |
| `BackfillImages.ResultsRewrite` | scripts/backfill_inventory_images.ts:41-58 | a written list has at most 12 entries, each a normalised value or a stored reference |
| `BackfillImages.MigrationIsStep` | scripts/backfill_inventory_images.ts:17-62 | what `MigrateItem` does to one item is one `MigrateStep` of the pass |
| `BackfillImages.MigrationParts` | scripts/backfill_inventory_images.ts:17-62 | one item's migration has the verdict `VerdictOf`, writes `ListAfter` into its list, and leaves the rows and counter `RowsAfter` and `CounterAfter` |
| `BackfillImages.IngestedParts` | scripts/backfill_inventory_images.ts:35-41 | for an item with an external image, the ingestion result is `StoredFor`, and the rows are the kept rows plus the new assets under consecutive keys |
| `BackfillImages.PassSnoc` | scripts/backfill_inventory_images.ts:17 | the pass over one more item is one more step |
| `BackfillImages.StepKeysBelow` | scripts/backfill_inventory_images.ts:17-62 | a step keeps every asset key below the counter and keeps the set of items |
| `BackfillImages.PassKeysBelow` | scripts/backfill_inventory_images.ts:17-62 | the whole pass keeps every asset key below the counter and keeps the set of items |
| `BackfillImages.PassKeepsUnmigrated` | scripts/backfill_inventory_images.ts:19-24 | an item without an external image keeps its list and exactly its asset rows through the whole pass |
| `BackfillImages.PassUntouched` | scripts/backfill_inventory_images.ts:17 | steps for other items leave an item's list as it was |
| `BackfillImages.PassItemList` | scripts/backfill_inventory_images.ts:17-58 | with distinct ids, item `ids[i]` ends with `ListAfter` of its starting list at the key counter its turn starts from |
| `Formatters.FormatConditionLabel` | lib/formatters.ts:9-11 | the trimmed condition upper-cased, or the condition itself when it is blank; pinned by `FormatConditionLabelMeaning` |
| `Formatters.FormatConditionLabelMeaning` | lib/formatters.ts:9-11 | a blank condition is unchanged; otherwise the label is non-empty, trimmed, without lower-case letters and equal up to case to the trimmed input |
| `Formatters.LabelOfUpperTrimmed` | lib/formatters.ts:9-11 | an upper-case trimmed label is its own label |
| `Formatters.FormatConditionLabelIdempotent` | lib/formatters.ts:9-11 | formatting twice equals formatting once |
| `Formatters.BuildStandardProductDescription` | lib/formatters.ts:13-28 | the Year, Ref, Condition, Set and footer lines joined by newlines; `DescriptionHasFiveLines` and the read-back lemmas state it |
| `Formatters.BuildStandardProductDescriptionInline` | lib/formatters.ts:30-37 | the description with every newline replaced by the separator; `InlineDescriptionIsJoin` states it |
| `Formatters.SetLineNamesFullSet` | lib/formatters.ts:19 | the Set line reads "Complete Set w/ Box and Papers" iff `boxAndPapers` |
| `Formatters.DescriptionHasFiveLines` | lib/formatters.ts:13-28 | for newline-free inputs the description splits into exactly the Year, Ref, Condition, Set and footer lines |
| `Formatters.InlineDescriptionIsJoin` | lib/formatters.ts:30-37 | the inline text is the lines joined by the separator and holds no newline |
| `ImageSrc.ResolveImageSrc` | lib/image-src.ts:4-10 | `resolveImageSrc`: placeholder for a missing or blank value, stored references as is, `http(s)` URLs through the proxy route, anything else trimmed; pinned by `ResolveImageSrcCases` |
| `ImageSrc.ResolveImageSrcCases` | lib/image-src.ts:4-10 | missing or blank gives the placeholder; stored references and other non-http values pass through trimmed; `http(s)` values go through the proxy route |
| `ImageSrc.ResolveNeverEmptyNorExternal` | lib/image-src.ts:4-10 | the result is never empty and never an `http(s)` URL |
| `ImageSrc.ResolveTrimmed` | lib/image-src.ts:4-10 | with an encoding free of whitespace the result is trimmed |
| `ImageSrc.ResolveFixed` | lib/image-src.ts:5-9 | a trimmed, non-empty, non-http value is returned as is |
| `ImageSrc.ResolveIdempotent` | lib/image-src.ts:4-10 | resolving a resolved value changes nothing |
| `ImageProxy.SniffContentType` | app/api/image-proxy/route.ts:6-30 | the proxy's sniffer answering the MIME string; `SniffAgreesWithIngestion` shows it equals the ingestion sniffer |
| `ImageProxy.SniffAgreesWithIngestion` | app/api/image-proxy/route.ts:6-30 | the proxy's sniffer classifies every buffer as the ingestion sniffer does |
| `ImageProxy.IsAllowedImageHost` | app/api/image-proxy/route.ts:32 | the lower-cased host ends with `fbcdn.net`; `AllowedHostMeaning` and `AllowedUnderAnyPrefix` characterise it |
| `ImageProxy.AllowedHostMeaning` | app/api/image-proxy/route.ts:32 | a host is allowed iff its last nine characters equal `fbcdn.net` up to case |
| `ImageProxy.AllowedUnderAnyPrefix` | app/api/image-proxy/route.ts:32 | anything in front of an allowed host is allowed too, so look-alikes such as `notfbcdn.net` pass |
| `ImageProxy.SuffixItselfAllowed` | app/api/image-proxy/route.ts:32 | `fbcdn.net` itself is allowed |
| `ImageProxy.Get` | app/api/image-proxy/route.ts:34-91 | the proxy's `GET`: the refusals in order, then the upstream fetch with its failures, then the served image; pinned by `GetRefusals`, `GetUpstreamFailures`, `GetServesIff` and `GetImage` |
| `ImageProxy.GetRefusals` | app/api/image-proxy/route.ts:36-48 | in order: blank url 400, unparsable 400, non-https 400, host off the list 403 |
| `ImageProxy.RefusedBeforeFetch` | app/api/image-proxy/route.ts:38-48 | a refused request is refused whatever the upstream would answer |
| `ImageProxy.AdmittedFetchesTarget` | app/api/image-proxy/route.ts:53-85 | an admitted request depends only on the upstream answer for its target |
| `ImageProxy.GetUpstreamFailures` | app/api/image-proxy/route.ts:64-87 | upstream not-ok or a throw gives 502, a body over 10 MiB gives 413 |
| `ImageProxy.GetServesIff` | app/api/image-proxy/route.ts:34-91 | an image is served iff the request is admitted and the upstream answered ok with at most 10 MiB |
| `ImageProxy.ProxyContentTypeMeaning` | app/api/image-proxy/route.ts:74-77 | the content type is the ingestion's choice with `image/jpeg` as fallback, always an `image/` type |
| `ImageProxy.GetImage` | app/api/image-proxy/route.ts:74-85 | a served image is the upstream body unchanged, with Content-Length its length, the fixed cache policy and the chosen content type |
| `AdminAuth.SecretFallback` | lib/admin-auth.ts:4-11 | the allow-list comes from the configured emails, else the default; the secret defaults to the password |
| `AdminAuth.NormalisedShape` | lib/admin-auth.ts:7 | a normalised entry is trimmed and lower case, empty iff the piece is blank |
| `AdminAuth.AllowedEmails` | lib/admin-auth.ts:5-8 | the comma pieces trimmed, lower-cased and non-empty, in order; `AllowedEmailsShape` and `AllowedEmailsMeaning` characterise it |
| `AdminAuth.AllowedEmailsShape` | lib/admin-auth.ts:4-8 | every allowed email is trimmed, lower case and non-empty |
| `AdminAuth.AllowedEmailsMeaning` | lib/admin-auth.ts:5-8 | an email is allowed iff it is the normalised form of a non-blank comma-separated piece |
| `AdminAuth.ValidateCredentials` | lib/admin-auth.ts:14-16 | the lower-cased email is allowed and the password equal; `ValidateCredentialsMeaning` and `ValidateIgnoresCase` state it against the raw list |
| `AdminAuth.ValidateCredentialsMeaning` | lib/admin-auth.ts:14-16 | the password is compared exactly, and the email is accepted iff it equals a non-blank configured piece up to case and the piece's surrounding whitespace |
| `AdminAuth.ValidateIgnoresCase` | lib/admin-auth.ts:15 | emails equal up to case are accepted alike |
| `AdminAuth.SignToken` | lib/admin-auth.ts:18-21 | the token is the email, a colon and the HMAC of the email under the session secret |
| `AdminAuth.VerifyToken` | lib/admin-auth.ts:23-30 | the first two colon-separated parts must be non-empty, the second must be the HMAC of the first, and the first, lower-cased, must be allowed; pinned by `VerifyTokenMeaning` and `SignVerifyRoundTrip` |
| `AdminAuth.VerifyTokenMeaning` | lib/admin-auth.ts:18-30 | a token verifies to an email iff the email is non-empty, colon-free and allowed, its signature is usable, and the token is the signed token optionally followed by `:…` |
| `AdminAuth.SignVerifyRoundTrip` | lib/admin-auth.ts:18-30 | `verifyToken(signToken(e)) == e` for a non-empty, colon-free, allowed e |
| `AdminAuth.VerifyIgnoresExtraParts` | lib/admin-auth.ts:24 | parts after the second colon are ignored |
| `AdminAuth.ValidatedSessionVerifies` | lib/admin-auth.ts:14-30 | a session token signed for validated credentials verifies |
| `AdminAuth.VerifyTokenRefusals` | lib/admin-auth.ts:23-29 | null for a missing email or signature part, a signature mismatch, or a disallowed email; any result is an allowed email, the token's first part |
| `AdminActions.SplitImageInput` | app/admindashboard/actions.ts:74 | the pieces hold no comma or line feed |
| `AdminActions.ImageListShape` | app/admindashboard/actions.ts:72-76 | every image is trimmed, non-empty, without comma or line feed |
| `AdminActions.ImageListOfJoin` | app/admindashboard/actions.ts:72-76 | images joined with commas read back as the same list (the `JoinReadsBack` predicate) |
| `AdminActions.TrimmedOrMeaning` | app/admindashboard/actions.ts:67-69 | a blank field gives the fallback ("Excellent", "Available"), otherwise the trimmed field |
| `AdminActions.ReadForm` | app/admindashboard/actions.ts:63-80 | the draft: trimmed text fields, `Number` of year and price, "Excellent" and "Available" defaults, checkbox flags, the split image list and optional trimmed ids; `TrimmedOrMeaning`, `TrimmedOrNoneMeaning` and `ImageListShape` pin the parts |
| `AdminActions.TrimmedOrNoneMeaning` | app/admindashboard/actions.ts:78-79 | a blank field gives `undefined`, otherwise the trimmed field |
| `AdminActions.DuplicateMessage` | app/admindashboard/actions.ts:109-111 | the message reads "Duplicate value for …." |
| `AdminActions.CreateFromDraft` | app/admindashboard/actions.ts:82-116 | a blank required field fails without touching the store; a non-whole year throws, and only it does; a complete whole-year draft succeeds iff its external id is not stored, and otherwise fails with "Duplicate value for <reported target>." (or "unique field" when the database names no array); success stores the draft under a free slug from the base slug and the external id |
| `AdminActions.CreateInventoryAction` | app/admindashboard/actions.ts:60-117 | the action reads the form and answers as `CreateFromDraft` says: validation failure, a throw exactly for a non-whole year, success iff the external id is new, else the duplicate message for the reported target, with one new row on success and none otherwise |
| `AdminActions.NotTakenNotStored` | app/admindashboard/actions.ts:86-90 | a slug that `ensureUniqueSlug` accepts for an absent key holds no row at all, so the insert does not hit the slug index |
| `AdminActions.ImportJsonAction` | app/admindashboard/actions.ts:33-58 | no file, invalid JSON and no listings each fail with their own message and leave the store alone; a file that parses and holds listings never fails, and the import completes with its counters and store contract iff no entry throws, the action's promise being rejected at the first throwing entry otherwise |
| `DescriptionRoundTrip.YearReadBack` | lib/importers/facebook.ts:50 | a `Year: NNNN` first line reads back as NNNN |
| `DescriptionRoundTrip.RefReadBack` | lib/importers/facebook.ts:64 | a `Ref: <reference>` line after one without `Ref` reads back the reference |
| `DescriptionRoundTrip.ConditionReadBack` | lib/importers/facebook.ts:78-80 | a `Condition: <label>` line after two without the label reads back the label |
| `DescriptionRoundTrip.StandardYearRoundTrip` | lib/formatters.ts:22 | the importer reads a four-digit year back from the built description |
| `DescriptionRoundTrip.StandardRefRoundTrip` | lib/formatters.ts:23 | the importer reads back a non-empty reference over `[A-Za-z0-9.-]` |
| `DescriptionRoundTrip.StandardConditionRoundTrip` | lib/formatters.ts:24 | the importer reads back `formatConditionLabel(condition)` for a non-blank single-line condition |
| `DescriptionRoundTrip.StandardDescriptionRoundTrip` | lib/formatters.ts:13-28 | year, reference and condition label all read back from the built description |

## Left out

- Case mapping is ASCII only (`toUpperCase`/`toLowerCase` on other letters are not modelled). The properties about normalising conditions therefore hold for ASCII input.
- `fetch`, `AbortController` and the timeouts are not modelled (`timeoutMs`, 15000 ms, in `lib/inventory-images.ts`; `TIMEOUT_MS` in the proxy). Neither are request headers, the user agent, `redirect: "follow"` or `Buffer` conversion. Each fetch is an oracle that answers ok-with-header-and-bytes, not-ok, or throws.
- `new URL(...)` parsing, `filenameFromUrl`, `encodeURIComponent`, `JSON.parse` and the SHA-256 HMAC are function parameters; their own behaviour is not modelled.
- `Number()` and NaN are not modelled:
  - A text price is parsed as a decimal real, with "unparsable → 0".
  - In `createInventoryAction`, `Number()` is a parameter returning `None` for NaN; a non-integral year is the insert that throws.
  - `Prisma.Decimal` is not modelled, and neither is `Intl.NumberFormat` in `formatCadPrice`.
- `Catalog.Store.EnsureUniqueSlug` does not model Prisma's SQL treatment of `NOT { externalId }`: there, rows with a null external id do not match. In the model they count as different rows, so they are treated as collisions (`Catalog.SlugTakenIn`). Example: a row created from the dashboard without an external id holds "rolex-submariner-116610", and an entry with id 123 has that base slug. Under SQL's null semantics the source's query misses the row and returns the held slug, and the following write breaks the slug's unique index. The model returns "rolex-submariner-116610-1" instead. The next six lines give what this means for the members built on it.
- `Catalog.Store.UpsertListing`: when the chosen slug is held only by a row without an external id, the source's upsert breaks the slug index and throws. The model writes the row under the next free `-k` slug and has no such throw.
- `Catalog.Store.ImportListings`: `Completed? <==> NoneThrows` covers only the normalisation throw. The rejection that the slug index raises through a row without an external id is not modelled, so such a batch completes in the model, while the source rejects at that entry.
- `AdminActions.CreateFromDraft`: for a complete whole-year draft with a new external id whose base slug is held by a row without an external id, the source answers "Duplicate value for slug." (or the reported target). The model gives it a `-k` slug and succeeds, so "succeeds iff the external id is new" holds only under the model's collision rule.
- `AdminActions.CreateInventoryAction`: the same gap as `AdminActions.CreateFromDraft`, which it calls.
- `AdminActions.NotTakenNotStored`: "the slug is held by no row" relies on rows without an external id counting as collisions. Under SQL's null semantics such a row can hold the accepted slug, and the insert then breaks the slug index.
- `AdminActions.ImportJsonAction`: it inherits the `Catalog.Store.ImportListings` gap, so an upload whose entries meet the slug index through a row without an external id is `Imported` in the model, while the source rejects.
- Prisma row ids (cuids) are modelled as counter keys; asset ids are those keys rendered in decimal.
- `create` and `update` never fail in the model, except for the unique-index violations in `Catalog.Store.Create`, whose reported target is a parameter because the database driver decides it; other Prisma errors are rethrown and not modelled.
- Element types of `images` other than strings (`normalizeImages`' `typeof` test) are modelled as a JSON item kind. In the image backfill every stored image is a string.
- `BackfillInventory.NextModel`: the two `detected` branches of `nextModel` are identical in the source, so the model has one.
- `BackfillImages.StartSortOrderIgnored`: `startSortOrder` is computed and passed, but ingestion takes no such option and always starts at 0. The model keeps the computation (`NextSortOrder`) and proves it unused.
- Console output, `process.exit`, `dotenv` loading and `prisma.$disconnect` are left out, and so are the `orderBy` of the item queries and `import_facebook.ts`' argv/file I/O.
- Session cookies, `setSessionCookie`, `clearSessionCookie`, `getSessionEmail` and `requireAdmin` (lib/admin-auth.ts:32-50) are left out, as are `adminLogin`/`adminLogout`.
- The default allow-list and password from `lib/admin-auth.ts:4,10` are configuration parameters of `AdminAuth.LoadConfig` rather than constants.
- `ListingFields.DeriveModelAsWritten`: the regular-expression engine is a parameter, and `KnownEngine` states only two of its behaviours: a plain brand is stripped literally, and a brand starting with `*`, `+` or `?` makes the constructor throw. For other brands with syntax, such as `$5000`, whose `$` can never match after `^`, the model is whatever the supplied engine answers; the model does not contain a regular-expression matcher.
- `ListingFields.RawListing` and `ListingFields.NormalizeListing`: entries are typed records, so some JSON entries are not expressible. A `null` entry throws at `item.product_id` (lib/importers/facebook.ts:141). A non-string title or description throws in `trim`. A truthy non-boolean `featured` becomes `true` via `Boolean(item.featured)` (line 158), whereas the model's `featured` is an optional boolean. A fractional or huge numeric `product_id` is stringified by `toString()` as "1.5" or "1e+21"; the model's numeric ids are integers written in decimal.
- `ListingFields.ParseListingsFromJson`: the object case reads `items`, then `data`; JSON values are simplified to arrays, objects and "other".

## Findings

| source | as written | input that shows it | evidently intended | confidence | as-written member | corrected member |
|---|---|---|---|---|---|---|
| lib/importers/facebook.ts:91 | `deriveModel` builds `new RegExp("^" + brand + "\\s*", "i")` from the detected brand without escaping it, although the reference two lines below is escaped | title "*SOLD* Rolex GMT": `detectBrand` returns the first word `*SOLD*`, the pattern `^*SOLD*\s*` is invalid, the constructor throws, and `importListings` rejects after writing the earlier entries | strip the brand literally, as the reference is, giving model "Rolex GMT" | high; not executed | `ListingFields.DeriveModelAsWritten`, `ListingFields.SoldTitleCounterexample`, `Catalog.SoldEntryRejectsImport` | `ListingFields.DeriveModel`, `ListingFields.DeriveModelOfBrandedTitle`, `Catalog.EscapedNeverThrows` |
