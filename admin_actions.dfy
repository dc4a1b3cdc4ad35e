/**
 * The two admin server actions of app/admindashboard/actions.ts that change the
 * inventory: the manual create form (`createInventoryAction`) and the JSON import
 * upload (`importJsonAction`). The session check that precedes both is not modelled.
 */
module AdminActions {
  import opened Prelude
  import opened Strings
  import opened ListingFields
  import opened Catalog
  import Slug

  /** The fields of the create form, named after their form names (`brand`, `model`, …,
      `boxAndPapers`, `externalId`, `sourceUrl`, `slug`). */
  datatype FieldName =
    | BrandField | ModelField | ReferenceField | YearField | ConditionField | PriceField | StatusField
    | BoxAndPapersField | DescriptionField | ImagesField | FeaturedField | ExternalIdField | SourceUrlField
    | SlugField

  /** A submitted form: the text of each field that is present. */
  datatype Form = Form(fields: map<FieldName, string>)

  /** `(formData.get(name) ?? "").toString()`. */
  function Field(form: Form, name: FieldName): string {
    if name in form.fields then form.fields[name] else ""
  }

  /** `formData.get(name) === "on"`. */
  predicate Checked(form: Form, name: FieldName) {
    name in form.fields && form.fields[name] == "on"
  }

  /** The trimmed field, or `fallback` when that is empty (`… .trim() || fallback`). */
  function TrimmedOr(form: Form, name: FieldName, fallback: string): string {
    var v := Trim(Field(form, name));
    if v != "" then v else fallback
  }

  /** The trimmed field, or nothing when that is empty (`… .trim() || undefined`). */
  function TrimmedOrNone(form: Form, name: FieldName): Option<string> {
    var v := Trim(Field(form, name));
    if v != "" then Some(v) else None
  }

  /** The separator pattern `/\r?\n|,/` matches at the start of `s`, with this length. */
  function SeparatorAt(s: string): nat {
    if |s| >= 2 && s[0] == '\r' && s[1] == '\n' then 2
    else if s != [] && (s[0] == '\n' || s[0] == ',') then 1
    else 0
  }

  /** `s.split(/\r?\n|,/)`: the pieces between separators, where a separator is a line feed
      (with the carriage return before it, if any) or a comma. */
  function SplitImageInput(s: string): (r: seq<string>)
    ensures |r| >= 1
    ensures forall i :: 0 <= i < |r| ==> ',' !in r[i] && '\n' !in r[i]
    decreases |s|
  {
    if s == [] then [""]
    else if SeparatorAt(s) > 0 then [""] + SplitImageInput(s[SeparatorAt(s)..])
    else
      var rest := SplitImageInput(s[1..]);
      [[s[0]] + rest[0]] + rest[1..]
  }

  /** `images`: the split pieces, trimmed, with the empty ones dropped. */
  function ImageList(input: string): seq<string> {
    NonEmptyOnly(TrimEach(SplitImageInput(input)))
  }

  /** Every image is a trimmed, non-empty text without a comma or a line feed. */
  lemma ImageListShape(input: string)
    ensures forall i :: 0 <= i < |ImageList(input)| ==>
      var u := ImageList(input)[i];
      u != "" && Trimmed(u) && ',' !in u && '\n' !in u
  {
    var pieces := SplitImageInput(input);
    forall i | 0 <= i < |pieces|
      ensures Trimmed(TrimEach(pieces)[i]) && ',' !in TrimEach(pieces)[i] && '\n' !in TrimEach(pieces)[i]
    {
      TrimAvoids(pieces[i], ',');
      TrimAvoids(pieces[i], '\n');
    }
    forall w | w in ImageList(input) ensures Trimmed(w) && ',' !in w && '\n' !in w {
      assert w in TrimEach(pieces);
    }
  }

  /** A piece without separators splits off whole. */
  lemma {:induction false} SplitImageWord(w: string, rest: string)
    requires ',' !in w && '\n' !in w
    ensures SplitImageInput(w + "," + rest) == [w] + SplitImageInput(rest)
    ensures SplitImageInput(w) == [w]
    decreases |w|
  {
    if w == [] {
      assert w + "," + rest == [','] + rest;
      assert ([','] + rest)[1..] == rest;
    } else {
      assert (w + "," + rest)[1..] == w[1..] + "," + rest;
      assert SeparatorAt(w + "," + rest) == 0;
      assert SeparatorAt(w) == 0;
      SplitImageWord(w[1..], rest);
      assert [w[0]] + w[1..] == w;
    }
  }

  /** An image value the create form can carry through the comma list unchanged. */
  predicate UsableImage(u: string) {
    u != "" && Trimmed(u) && ',' !in u && '\n' !in u
  }

  /** Joining with commas and reading the list back gives the same images. */
  predicate JoinReadsBack(urls: seq<string>) {
    ImageList(Join(urls, ",")) == urls
  }

  /** A list of trimmed, non-empty URLs without commas or line feeds, written comma-separated,
      reads back as itself. */
  lemma {:induction false} ImageListOfJoin(urls: seq<string>)
    requires forall i :: 0 <= i < |urls| ==> UsableImage(urls[i])
    ensures JoinReadsBack(urls)
    decreases |urls|
  {
    if |urls| <= 1 {
      ImageListOfShort(urls);
    } else {
      var ws := urls[1..];
      ImageListOfJoin(ws);
      ImageListOfJoinStep(urls[0], ws, urls);
    }
  }

  lemma ImageListOfShort(urls: seq<string>)
    requires |urls| <= 1 && (urls != [] ==> UsableImage(urls[0]))
    ensures JoinReadsBack(urls)
  {
    if urls == [] {
      ImageListOfEmpty();
    } else {
      var w := urls[0];
      assert Join(urls, ",") == w;
      SplitImageWord(w, "");
      TrimmedKept(w, []);
    }
  }

  lemma ImageListOfJoinStep(w: string, ws: seq<string>, urls: seq<string>)
    requires |urls| >= 2 && w == urls[0] && ws == urls[1..] && UsableImage(w)
    requires JoinReadsBack(ws)
    ensures JoinReadsBack(urls)
  {
    var rest := Join(ws, ",");
    assert Join(urls, ",") == w + "," + rest;
    HeadTail(urls);
    SplitImageWord(w, rest);
    TrimmedKept(w, SplitImageInput(rest));
  }

  lemma ImageListOfEmpty()
    ensures JoinReadsBack([])
  {
    assert Join([], ",") == "";
    assert SplitImageInput("") == [""];
    assert Trim("") == "";
    assert TrimEach([""]) == [""];
  }

  /** A trimmed, non-empty first piece survives trimming and filtering unchanged. */
  lemma TrimmedKept(w: string, pieces: seq<string>)
    requires w != "" && Trimmed(w)
    ensures NonEmptyOnly(TrimEach([w] + pieces)) == [w] + NonEmptyOnly(TrimEach(pieces))
  {
    TrimOfTrimmed(w);
    TrimEachCons(w, pieces);
    NonEmptyOnlyCons(w, TrimEach(pieces));
  }

  /** The create form's fields after reading; `year` and `price` are what `Number` gives,
      nothing for NaN. */
  datatype Draft = Draft(
    brand: string,
    model: string,
    reference: string,
    year: Option<real>,
    condition: string,
    price: Option<real>,
    status: string,
    boxAndPapers: bool,
    description: string,
    images: seq<string>,
    featured: bool,
    externalId: Option<string>,
    sourceUrl: Option<string>,
    slugInput: string)

  /** Reading `createInventoryAction`'s form; `number` is JavaScript's `Number` conversion. */
  function ReadForm(form: Form, number: string -> Option<real>): Draft {
    Draft(
      Trim(Field(form, BrandField)),
      Trim(Field(form, ModelField)),
      Trim(Field(form, ReferenceField)),
      number(Field(form, YearField)),
      TrimmedOr(form, ConditionField, "Excellent"),
      number(Field(form, PriceField)),
      TrimmedOr(form, StatusField, "Available"),
      Checked(form, BoxAndPapersField),
      Trim(Field(form, DescriptionField)),
      ImageList(Field(form, ImagesField)),
      Checked(form, FeaturedField),
      TrimmedOrNone(form, ExternalIdField),
      TrimmedOrNone(form, SourceUrlField),
      Trim(Field(form, SlugField)))
  }

  /** `… .trim() || fallback`: the fallback for a blank field, the trimmed field otherwise;
      never empty when the fallback is not. */
  lemma TrimmedOrMeaning(form: Form, name: FieldName, fallback: string)
    ensures Blank(Field(form, name)) ==> TrimmedOr(form, name, fallback) == fallback
    ensures !Blank(Field(form, name)) ==> TrimmedOr(form, name, fallback) == Trim(Field(form, name)) != ""
  {
  }

  /** `… .trim() || undefined`: nothing for a blank field, the trimmed non-empty field
      otherwise. */
  lemma TrimmedOrNoneMeaning(form: Form, name: FieldName)
    ensures TrimmedOrNone(form, name).None? <==> Blank(Field(form, name))
    ensures TrimmedOrNone(form, name).Some? ==>
              TrimmedOrNone(form, name).value == Trim(Field(form, name)) != "" && Trimmed(TrimmedOrNone(form, name).value)
  {
  }

  const RequiredMessage := "Brand, model, reference, year, description, and price are required."

  /** The validation of `createInventoryAction`. */
  predicate Complete(d: Draft) {
    d.brand != "" && d.model != "" && d.reference != "" && d.description != "" && d.year.Some? && d.price.Some?
  }

  /** The year is a whole number, as the integer `year` column demands. */
  predicate WholeYear(d: Draft) {
    d.year.Some? && d.year.value.Floor as real == d.year.value
  }

  /** The slug base: the trimmed slug input, else the slug of `brand-model-reference`. */
  function SlugBaseOf(d: Draft): string {
    if d.slugInput != "" then d.slugInput else Slug.ToSlug(d.brand + "-" + d.model + "-" + d.reference)
  }

  /** The row a complete draft is stored as. */
  function DraftListing(d: Draft): Listing
    requires Complete(d)
  {
    Listing(d.brand, d.model, d.reference, d.year.value.Floor, d.condition, d.price.value, d.status,
            d.boxAndPapers, d.description, d.images, d.featured, d.sourceUrl)
  }

  /** `Duplicate value for ${target}.`, with the targets joined by ", ", or "unique field"
      when the error names none. */
  function DuplicateMessage(target: Option<seq<string>>): (r: string)
    ensures StartsWith(r, "Duplicate value for ") && EndsWith(r, ".")
  {
    var named := match target case Some(t) => Join(t, ", ") case None => "unique field";
    "Duplicate value for " + named + "."
  }

  /** What a server action answers; `Threw` is an error passed on to the caller. */
  datatype ActionResult = Succeeded(slug: string) | Failed(error: string) | Threw

  /** What `createInventoryAction` does once the form is read: an incomplete draft is
      refused with the validation message and the store is untouched; a year that is not a
      whole number is refused by the database; otherwise the row is inserted under a slug
      found by `ensureUniqueSlug`, and the only unique constraint that can then be broken is
      the external id's. `report` is the target the database names in its unique-constraint
      error. */
  method CreateFromDraft(store: Store, d: Draft, report: Option<seq<string>>) returns (r: ActionResult)
    requires store.Valid()
    modifies store
    ensures store.Valid()
    ensures !Complete(d) ==> r == Failed(RequiredMessage)
    ensures Complete(d) && !WholeYear(d) ==> r == Threw
    ensures r.Failed? || r.Threw? ==> store.rows == old(store.rows) && store.nextInternal == old(store.nextInternal)
    ensures r.Failed? && Complete(d) ==>
              && r.error == DuplicateMessage(report)
              && d.externalId.Some? && External(d.externalId.value) in old(store.rows)
    ensures r.Succeeded? ==>
              && Complete(d) && WholeYear(d)
              && r.slug !in Slugs(old(store.rows))
              && (exists n: nat :: r.slug == Candidate(InitialSlug(SlugBaseOf(d), d.externalId), n))
              && exists key :: key !in old(store.rows) && store.rows == old(store.rows)[key := Record(r.slug, DraftListing(d))]
    ensures Complete(d) && WholeYear(d) ==> (r.Succeeded? <==> !DuplicateId(old(store.rows), d))
    ensures r.Threw? <==> Complete(d) && !WholeYear(d)
    ensures CreateOutcome(old(store.rows), store.rows, d, report, r)
  {
    if !Complete(d) {
      return Failed(RequiredMessage);
    }
    if !WholeYear(d) {
      return Threw;
    }
    var slug := store.EnsureUniqueSlug(SlugBaseOf(d), d.externalId);
    NotTakenNotStored(store.rows, slug, d.externalId);
    var outcome := store.Create(d.externalId, slug, DraftListing(d), report);
    match outcome {
      case Inserted(_) =>
        r := Succeeded(slug);
      case UniqueViolation(target) =>
        r := Failed(DuplicateMessage(target));
    }
  }

  /** `createInventoryAction`: the form read as `ReadForm` describes, then stored as
      `CreateFromDraft` describes. */
  method CreateInventoryAction(store: Store, form: Form, number: string -> Option<real>, report: Option<seq<string>>)
    returns (r: ActionResult)
    requires store.Valid()
    modifies store
    ensures store.Valid()
    ensures CreateOutcome(old(store.rows), store.rows, ReadForm(form, number), report, r)
  {
    var d := ReadForm(form, number);
    r := CreateFromDraft(store, d, report);
  }

  /** An incomplete draft is refused with the validation message; a refusal or an error
      leaves the rows as they were; a success adds exactly one row, under a new key, holding
      the draft's listing and the answered slug. Only a year that is not whole throws, and a
      valid draft succeeds exactly when its external id is new, else it fails with the message
      for the target the database reports. */
  ghost predicate CreateOutcome(before: map<Key, Record>, after: map<Key, Record>, d: Draft,
                                report: Option<seq<string>>, r: ActionResult) {
    && (!Complete(d) ==> r == Failed(RequiredMessage))
    && (r.Failed? || r.Threw? ==> after == before)
    && (r.Succeeded? ==> Complete(d) && exists key :: key !in before && after == before[key := Record(r.slug, DraftListing(d))])
    && (r.Threw? <==> Complete(d) && !WholeYear(d))
    && (Complete(d) && WholeYear(d) ==> (r.Succeeded? <==> !DuplicateId(before, d)))
    && (Complete(d) && WholeYear(d) && !r.Succeeded? ==> r == Failed(DuplicateMessage(report)))
  }

  /** The draft's external id is already stored, so inserting it breaks its unique constraint. */
  predicate DuplicateId(rows: map<Key, Record>, d: Draft) {
    Present(d.externalId) && External(d.externalId.value) in rows
  }

  /** A slug no row under another key holds is not stored at all when the key itself is
      absent. */
  lemma NotTakenNotStored(rows: map<Key, Record>, slug: string, externalId: Option<string>)
    requires !SlugTakenIn(rows, slug, externalId)
    ensures !(Present(externalId) && External(externalId.value) in rows) ==> slug !in Slugs(rows)
  {
  }

  /** What `importJsonAction` answers; `ImportRejected` is the action's promise rejected by
      the exception entry `at` raised during the import. */
  datatype ImportAnswer = ImportFailed(error: string) | Imported(summary: ImportSummary) | ImportRejected(at: nat)

  const NoFileMessage := "Please attach a JSON file."
  const InvalidJsonMessage := "Invalid JSON file."
  const NoListingsMessage := "No listings found in JSON."

  /** `importJsonAction`: the upload is refused, in this order, when it is not a file, when it
      is not JSON and when it holds no listings, and the store is then untouched; otherwise
      the listings are imported, and the action answers the counters, or rejects with the
      import. `parse` is `JSON.parse` on the file's text and `strip` the engine evaluating
      the brand pattern. */
  method ImportJsonAction(store: Store, file: Option<string>, parse: string -> Option<JsonDoc>, currentYear: int, strip: PatternStrip)
    returns (answer: ImportAnswer)
    requires store.Valid()
    modifies store
    ensures store.Valid()
    ensures file.None? ==> answer == ImportFailed(NoFileMessage)
    ensures file.Some? && parse(file.value).None? ==> answer == ImportFailed(InvalidJsonMessage)
    ensures file.Some? && parse(file.value).Some? && ParseListingsFromJson(parse(file.value).value) == [] ==>
              answer == ImportFailed(NoListingsMessage)
    ensures answer.ImportFailed? ==> store.rows == old(store.rows)
    ensures file.Some? && parse(file.value).Some? && ParseListingsFromJson(parse(file.value).value) != [] ==>
              && !answer.ImportFailed?
              && (answer.Imported? <==> NoneThrows(ParseListingsFromJson(parse(file.value).value), Normalizer(currentYear, strip)))
    ensures answer.Imported? ==>
              var entries := ParseListingsFromJson(parse(file.value).value);
              && file.Some? && parse(file.value).Some? && entries != []
              && NoneThrows(entries, Normalizer(currentYear, strip))
              && answer.summary.created + answer.summary.updated + answer.summary.skipped == |entries|
              && answer.summary.skipped == CountSkipped(entries)
              && answer.summary.created == |EntryKeys(entries) - old(store.rows).Keys|
              && ImportedPrefix(old(store.rows), store.rows, entries, Normalizer(currentYear, strip))
    ensures answer.ImportRejected? ==>
              && file.Some? && parse(file.value).Some?
              && RejectedAt(old(store.rows), store.rows, ParseListingsFromJson(parse(file.value).value), answer.at,
                            Normalizer(currentYear, strip))
  {
    if file.None? {
      return ImportFailed(NoFileMessage);
    }
    var parsed := parse(file.value);
    if parsed.None? {
      return ImportFailed(InvalidJsonMessage);
    }
    var entries := ParseListingsFromJson(parsed.value);
    if |entries| == 0 {
      return ImportFailed(NoListingsMessage);
    }
    var outcome := store.ImportListings(entries, currentYear, strip);
    match outcome {
      case Completed(summary) =>
        answer := Imported(summary);
      case Rejected(at) =>
        answer := ImportRejected(at);
    }
  }
}
