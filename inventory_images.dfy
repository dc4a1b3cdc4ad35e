/**
 * lib/inventory-images.ts: references to stored image assets
 * (`/api/inventory-images/<id>`), the magic-byte sniffer, and the ingestion loop that
 * fetches each distinct URL once and stores what it can as an asset row.
 *
 * The asset table is the class `AssetStore`; the database's generated row id is
 * modelled as a counter, and an asset's public id is that number written in decimal.
 * The network fetch and `filenameFromUrl` are parameters (`Env`).
 */
module InventoryImages {
  import opened Prelude
  import opened Strings

  // ----- asset references -------------------------------------------------------------

  // String literals are split with `+` so that the verifier does not unfold long literals
  // character by character when it compares them.
  const RoutePrefix := "/api/inventory-" + "images/"

  /** `buildInventoryImageUrl`. */
  function BuildInventoryImageUrl(id: string): (r: string)
    ensures |r| == |RoutePrefix| + |id|
  {
    RoutePrefix + id
  }

  /** `isStoredInventoryImageUrl`: the value opens with the route prefix. */
  predicate IsStoredInventoryImageUrl(value: string) {
    StartsWith(value, RoutePrefix)
  }

  /** `parseStoredInventoryImageId`: the part after the prefix up to the first `?`,
      or nothing when the value is not a stored reference or that part is empty. */
  function ParseStoredInventoryImageId(value: string): Option<string> {
    if !IsStoredInventoryImageUrl(value) then None
    else
      var id := Split(value[|RoutePrefix|..], '?')[0];
      if id == [] then None else Some(id)
  }

  /** Every built reference is recognised as stored. */
  lemma BuiltIsStored(id: string)
    ensures IsStoredInventoryImageUrl(BuildInventoryImageUrl(id))
  {
    assert BuildInventoryImageUrl(id)[..|RoutePrefix|] == RoutePrefix;
  }

  /** Parsing a built reference gives back its id when the id is non-empty and holds no `?`. */
  lemma ParseBuildRoundTrip(id: string)
    requires id != [] && '?' !in id
    ensures ParseStoredInventoryImageId(BuildInventoryImageUrl(id)) == Some(id)
  {
    var v := BuildInventoryImageUrl(id);
    BuiltIsStored(id);
    assert v[|RoutePrefix|..] == id;
    var head := Split(id, '?')[0];
    assert head == id[..|head|];
    assert head == id;
  }

  /** A value without the prefix never parses. */
  lemma ParseUnprefixed(value: string)
    requires !IsStoredInventoryImageUrl(value)
    ensures ParseStoredInventoryImageId(value) == None
  {
  }

  /** A parsed id is non-empty and `?`-free, and the value is its reference, possibly
      followed by a query string. */
  lemma ParseMeaning(value: string)
    ensures match ParseStoredInventoryImageId(value)
      case Some(id) =>
        && id != [] && '?' !in id
        && StartsWith(value, BuildInventoryImageUrl(id))
        && (|value| == |BuildInventoryImageUrl(id)| || value[|BuildInventoryImageUrl(id)|] == '?')
      case None =>
        !IsStoredInventoryImageUrl(value) || value == RoutePrefix || value[|RoutePrefix|] == '?'
  {
    if IsStoredInventoryImageUrl(value) {
      var rest := value[|RoutePrefix|..];
      var id := Split(rest, '?')[0];
      assert value == RoutePrefix + rest;
      if id != [] {
        assert value[..|RoutePrefix| + |id|] == RoutePrefix + id;
      } else if rest != [] {
        assert rest[0] == '?';
      }
    }
  }

  // ----- content sniffing -------------------------------------------------------------

  datatype ImageKind = Jpeg | Png | Gif | Webp

  function MimeType(k: ImageKind): string {
    match k
    case Jpeg => "image/jpeg"
    case Png => "image/png"
    case Gif => "image/gif"
    case Webp => "image/webp"
  }

  /** `buffer.toString("ascii")`: Node clears the high bit of every byte before decoding. */
  function Ascii(bs: seq<byte>): (r: string)
    ensures |r| == |bs|
  {
    seq(|bs|, i requires 0 <= i < |bs| => ((bs[i] as int) % 128) as char)
  }

  /** `detectImageContentType`: JPEG, PNG, GIF and WebP, checked in that order. */
  function DetectImageContentType(buffer: seq<byte>): Option<ImageKind> {
    if |buffer| >= 3 && buffer[0] == 0xff && buffer[1] == 0xd8 && buffer[2] == 0xff then Some(Jpeg)
    else if |buffer| >= 8 && buffer[0] == 0x89 && buffer[1] == 0x50 && buffer[2] == 0x4e && buffer[3] == 0x47
      && buffer[4] == 0x0d && buffer[5] == 0x0a && buffer[6] == 0x1a && buffer[7] == 0x0a then Some(Png)
    else if |buffer| >= 6 && (Ascii(buffer[..6]) == "GIF87a" || Ascii(buffer[..6]) == "GIF89a") then Some(Gif)
    else if |buffer| >= 12 && Ascii(buffer[..4]) == "RIFF" && Ascii(buffer[8..12]) == "WEBP" then Some(Webp)
    else None
  }

  // The signatures as byte strings: the JPEG start-of-image marker followed by the first
  // byte of the next marker (ITU-T T.81, Table B.1), the PNG signature (PNG specification,
  // section 5.2), the GIF header (GIF89a specification, section 17) and the RIFF/WEBP
  // container header (RFC 9649, section 2.4).
  const JpegMagic: seq<byte> := [0xFF, 0xD8, 0xFF]
  const PngMagic: seq<byte> := [0x89, 0x50, 0x4E, 0x47, 0x0D, 0x0A, 0x1A, 0x0A]
  const Gif87Magic: seq<byte> := [0x47, 0x49, 0x46, 0x38, 0x37, 0x61]
  const Gif89Magic: seq<byte> := [0x47, 0x49, 0x46, 0x38, 0x39, 0x61]
  const RiffMagic: seq<byte> := [0x52, 0x49, 0x46, 0x46]
  const WebpMagic: seq<byte> := [0x57, 0x45, 0x42, 0x50]

  /** The bytes at `off` are exactly `magic`. */
  predicate ExactAt(bs: seq<byte>, off: nat, magic: seq<byte>) {
    off + |magic| <= |bs| && bs[off..off + |magic|] == magic
  }

  /** The bytes at `off` are `magic` once their high bits are cleared. */
  predicate AsciiAt(bs: seq<byte>, off: nat, magic: seq<byte>) {
    off + |magic| <= |bs| && forall i :: 0 <= i < |magic| ==> (bs[off + i] as int) % 128 == magic[i] as int
  }

  /** The signature of each kind, stated on bytes. */
  predicate Signature(k: ImageKind, bs: seq<byte>) {
    match k
    case Jpeg => ExactAt(bs, 0, JpegMagic)
    case Png => ExactAt(bs, 0, PngMagic)
    case Gif => AsciiAt(bs, 0, Gif87Magic) || AsciiAt(bs, 0, Gif89Magic)
    case Webp => AsciiAt(bs, 0, RiffMagic) && AsciiAt(bs, 8, WebpMagic)
  }

  /** Comparing the ASCII decoding of a slice with a text is comparing the masked bytes
      with the text's codes. */
  lemma AsciiCompare(bs: seq<byte>, off: nat, magic: seq<byte>, text: string)
    requires off + |magic| <= |bs| && |text| == |magic|
    requires forall i :: 0 <= i < |text| ==> text[i] as int == magic[i] as int
    ensures Ascii(bs[off..off + |magic|]) == text <==> AsciiAt(bs, off, magic)
  {
    var a := Ascii(bs[off..off + |magic|]);
    assert forall i :: 0 <= i < |magic| ==> a[i] as int == (bs[off + i] as int) % 128;
    if AsciiAt(bs, off, magic) {
      assert forall i :: 0 <= i < |magic| ==> a[i] == text[i];
    }
  }

  lemma GifTexts()
    ensures forall i :: 0 <= i < 6 ==> "GIF87a"[i] as int == Gif87Magic[i] as int
    ensures forall i :: 0 <= i < 6 ==> "GIF89a"[i] as int == Gif89Magic[i] as int
  {
  }

  lemma WebpTexts()
    ensures forall i :: 0 <= i < 4 ==> "RIFF"[i] as int == RiffMagic[i] as int
    ensures forall i :: 0 <= i < 4 ==> "WEBP"[i] as int == WebpMagic[i] as int
  {
  }

  /** The GIF and WebP tests of the sniffer are the byte signatures. */
  lemma AsciiTestsAreSignatures(bs: seq<byte>)
    ensures |bs| >= 6 ==> ((Ascii(bs[..6]) == "GIF87a" || Ascii(bs[..6]) == "GIF89a") <==> Signature(Gif, bs))
    ensures |bs| >= 12 ==> ((Ascii(bs[..4]) == "RIFF" && Ascii(bs[8..12]) == "WEBP") <==> Signature(Webp, bs))
    ensures |bs| < 6 ==> !Signature(Gif, bs)
    ensures |bs| < 12 ==> !Signature(Webp, bs)
  {
    GifTexts();
    WebpTexts();
    if |bs| >= 6 {
      AsciiCompare(bs, 0, Gif87Magic, "GIF87a");
      AsciiCompare(bs, 0, Gif89Magic, "GIF89a");
      assert bs[0..6] == bs[..6];
    }
    if |bs| >= 12 {
      AsciiCompare(bs, 0, RiffMagic, "RIFF");
      AsciiCompare(bs, 8, WebpMagic, "WEBP");
      assert bs[0..4] == bs[..4];
    }
  }

  /** The four signatures exclude each other: their first bytes differ even with the high
      bit cleared, so the order of the checks never changes the answer. */
  lemma SignaturesDisjoint(k1: ImageKind, k2: ImageKind, bs: seq<byte>)
    requires Signature(k1, bs) && Signature(k2, bs)
    ensures k1 == k2
  {
    SignatureFirstByte(k1, bs);
    SignatureFirstByte(k2, bs);
  }

  /** The first signature byte with its high bit cleared. */
  function LeadCode(k: ImageKind): int {
    match k
    case Jpeg => 0x7F
    case Png => 0x09
    case Gif => 0x47
    case Webp => 0x52
  }

  lemma SignatureFirstByte(k: ImageKind, bs: seq<byte>)
    requires Signature(k, bs)
    ensures |bs| > 0 && (bs[0] as int) % 128 == LeadCode(k)
  {
    match k
    case Jpeg => assert bs[0] == bs[0..|JpegMagic|][0];
    case Png => assert bs[0] == bs[0..|PngMagic|][0];
    case Gif =>
      if AsciiAt(bs, 0, Gif87Magic) {
        assert (bs[0 + 0] as int) % 128 == Gif87Magic[0] as int;
      } else {
        assert (bs[0 + 0] as int) % 128 == Gif89Magic[0] as int;
      }
    case Webp => assert (bs[0 + 0] as int) % 128 == RiffMagic[0] as int;
  }

  /** The sniffer names a kind exactly when the buffer carries that kind's signature. */
  lemma DetectMeaning(bs: seq<byte>)
    ensures forall k :: DetectImageContentType(bs) == Some(k) <==> Signature(k, bs)
    ensures DetectImageContentType(bs) == None <==> forall k :: !Signature(k, bs)
  {
    AsciiTestsAreSignatures(bs);
    assert |bs| >= 3 ==> bs[0..3] == [bs[0], bs[1], bs[2]];
    assert |bs| >= 8 ==> bs[0..8] == [bs[0], bs[1], bs[2], bs[3], bs[4], bs[5], bs[6], bs[7]];
    match DetectImageContentType(bs)
    case Some(d) =>
      assert Signature(d, bs);
      forall k | Signature(k, bs) ensures k == d { SignaturesDisjoint(k, d, bs); }
    case None =>
  }

  /** Buffers shorter than three bytes are never recognised. */
  lemma DetectShort(bs: seq<byte>)
    requires |bs| < 3
    ensures DetectImageContentType(bs) == None
  {
  }

  /** Every exact signature is recognised, GIF and WebP included. */
  lemma DetectExactSignatures(bs: seq<byte>)
    ensures ExactAt(bs, 0, JpegMagic) ==> DetectImageContentType(bs) == Some(Jpeg)
    ensures ExactAt(bs, 0, PngMagic) ==> DetectImageContentType(bs) == Some(Png)
    ensures ExactAt(bs, 0, Gif87Magic) || ExactAt(bs, 0, Gif89Magic) ==> DetectImageContentType(bs) == Some(Gif)
    ensures ExactAt(bs, 0, RiffMagic) && ExactAt(bs, 8, WebpMagic) ==> DetectImageContentType(bs) == Some(Webp)
  {
    DetectMeaning(bs);
    ExactIsAscii(bs, 0, Gif87Magic);
    ExactIsAscii(bs, 0, Gif89Magic);
    ExactIsAscii(bs, 0, RiffMagic);
    ExactIsAscii(bs, 8, WebpMagic);
  }

  lemma ExactIsAscii(bs: seq<byte>, off: nat, magic: seq<byte>)
    requires forall i :: 0 <= i < |magic| ==> magic[i] < 128
    ensures ExactAt(bs, off, magic) ==> AsciiAt(bs, off, magic)
  {
    if ExactAt(bs, off, magic) {
      var window := bs[off..off + |magic|];
      assert forall i :: 0 <= i < |magic| ==> bs[off + i] == window[i];
    }
  }

  // ----- choosing the stored content type ---------------------------------------------

  /** `headers.get("content-type")?.split(";")[0]?.trim() ?? null`. */
  function HeaderMediaType(header: Option<string>): Option<string> {
    match header
    case None => None
    case Some(h) => Some(Trim(Split(h, ';')[0]))
  }

  /** The header's media type when it is an `image/` type, else the sniffed type, else the
      fallback (`application/octet-stream` here, `image/jpeg` in the image proxy). */
  function ChooseContentType(header: Option<string>, sniffed: Option<ImageKind>, fallback: string): (r: string) {
    var h := HeaderMediaType(header);
    if h.Some? && h.value != [] && StartsWith(h.value, "image/") then h.value
    else if sniffed.Some? then MimeType(sniffed.value)
    else fallback
  }

  /** An `image/` media type from the header wins; otherwise the sniffed type; only when both
      are missing does the fallback appear. The result is an `image/` type or the fallback. */
  lemma ChooseContentTypeMeaning(header: Option<string>, sniffed: Option<ImageKind>, fallback: string)
    ensures var r := ChooseContentType(header, sniffed, fallback);
      && (StartsWith(r, "image/") || r == fallback)
      && (HeaderMediaType(header).Some? && StartsWith(HeaderMediaType(header).value, "image/") ==>
            r == HeaderMediaType(header).value)
      && (sniffed.Some? ==> StartsWith(r, "image/"))
  {
    var h := HeaderMediaType(header);
    if h.Some? && StartsWith(h.value, "image/") {
      HeaderImageType(h.value);
    } else if sniffed.Some? {
      MimeTypeIsImage(sniffed.value);
    }
  }

  lemma MimeTypeIsImage(k: ImageKind)
    ensures StartsWith(MimeType(k), "image/")
  {
    match k
    case Jpeg => assert MimeType(k)[..6] == "image/";
    case Png => assert MimeType(k)[..6] == "image/";
    case Gif => assert MimeType(k)[..6] == "image/";
    case Webp => assert MimeType(k)[..6] == "image/";
  }

  lemma HeaderImageType(h: string)
    ensures StartsWith(h, "image/") ==> h != []
  {
  }

  // Split for the same reason as `RoutePrefix`.
  const OctetStream := "application/" + "octet-stream"

  // ----- ingestion --------------------------------------------------------------------

  /** What a fetch ends in: a successful response with its body and `content-type` header,
      a response that is not ok, or an exception (network error, abort on timeout). */
  datatype Response = Ok(body: seq<byte>, contentType: Option<string>) | NotOk | Thrown

  /** The effects ingestion cannot see into: the fetch of a URL and `filenameFromUrl`. */
  datatype Env = Env(fetch: string -> Response, fileNameOf: string -> Option<string>)

  /** A row of the asset table. */
  datatype Asset = Asset(
    inventoryId: string, sortOrder: nat, fileName: Option<string>, contentType: string,
    size: nat, data: seq<byte>, sourceUrl: string)

  const DefaultMaxBytes: nat := 10 * 1024 * 1024
  const DefaultMaxImages: nat := 12

  /** `.slice(0, n)`. */
  function Take<T>(xs: seq<T>, n: nat): (r: seq<T>) {
    if n < |xs| then xs[..n] else xs
  }

  /** The URLs ingestion visits: trimmed, non-empty, each once in first-occurrence order,
      at most `maxImages` of them. */
  function Unique(urls: seq<string>, maxImages: nat): seq<string> {
    Take(Dedupe(NonEmptyOnly(TrimEach(urls))), maxImages)
  }

  /** The visited URLs are distinct, trimmed and non-empty trimmed inputs, at most
      `maxImages` of them; below the cap every non-blank input is visited. */
  lemma UniqueMeaning(urls: seq<string>, maxImages: nat)
    ensures var u := Unique(urls, maxImages);
      && |u| <= maxImages && Distinct(u)
      && (forall i :: 0 <= i < |u| ==> u[i] != [] && Trimmed(u[i]) && u[i] in TrimEach(urls))
      && (|Dedupe(NonEmptyOnly(TrimEach(urls)))| <= maxImages ==>
            forall j :: 0 <= j < |urls| && !Blank(urls[j]) ==> Trim(urls[j]) in u)
  {
    var ts := TrimEach(urls);
    var d := Dedupe(NonEmptyOnly(ts));
    DedupeMeaning(NonEmptyOnly(ts));
    var u := Unique(urls, maxImages);
    assert forall i :: 0 <= i < |u| ==> u[i] in d;
    forall i | 0 <= i < |u| ensures u[i] != [] && Trimmed(u[i]) && u[i] in ts {
      assert u[i] in NonEmptyOnly(ts);
      var j :| 0 <= j < |ts| && ts[j] == u[i];
    }
    forall j | 0 <= j < |urls| && !Blank(urls[j]) && |d| <= maxImages ensures Trim(urls[j]) in u {
      assert ts[j] == Trim(urls[j]);
    }
  }
  /** The visited URLs are the first `maxImages` distinct ones among the non-blank trimmed
      inputs, in the order they first occur there, with none skipped. */
  lemma UniqueFirstOccurrences(urls: seq<string>, maxImages: nat)
    ensures var u, ne := Unique(urls, maxImages), NonEmptyOnly(TrimEach(urls));
      && (forall i :: 0 <= i < |u| ==> u[i] in ne)
      && (forall i, j :: 0 <= i < j < |u| ==> FirstIndex(ne, u[i]) < FirstIndex(ne, u[j]))
      && (forall i, q :: 0 <= i < |u| && 0 <= q < FirstIndex(ne, u[i]) ==> ne[q] in u[..i])
      && (|Dedupe(ne)| <= maxImages ==> forall w :: w in ne ==> w in u)
  {
    var ne := NonEmptyOnly(TrimEach(urls));
    var d := Dedupe(ne);
    var u := Unique(urls, maxImages);
    DedupeFirstOccurrences(ne);
    DedupeMeaning(ne);
    if maxImages < |d| {
      FirstOccurrencesPrefix(ne, d, maxImages);
    }
    assert FirstOccurrences(ne, u);
  }


  /** Whether a response yields a stored asset: ok, and no larger than the bound. */
  predicate Succeeds(response: Response, maxBytes: nat) {
    response.Ok? && |response.body| <= maxBytes
  }

  /** The asset one fetch produces, if any. */
  function Attempt(inventoryId: string, url: string, sortOrder: nat, response: Response,
                   fileName: Option<string>, maxBytes: nat): (r: Option<Asset>)
  {
    match response
    case NotOk => None
    case Thrown => None
    case Ok(body, header) =>
      if |body| > maxBytes then None
      else Some(Asset(inventoryId, sortOrder, fileName,
                      ChooseContentType(header, DetectImageContentType(body), OctetStream),
                      |body|, body, url))
  }

  /** An attempt stores exactly when the response succeeds, and the asset records the
      inventory item, the sort order, the source URL, the body and its size. */
  lemma AttemptMeaning(inventoryId: string, url: string, sortOrder: nat, response: Response,
                       fileName: Option<string>, maxBytes: nat)
    ensures var r := Attempt(inventoryId, url, sortOrder, response, fileName, maxBytes);
      && (r.Some? <==> Succeeds(response, maxBytes))
      && (r.Some? ==>
            && r.value.inventoryId == inventoryId && r.value.sortOrder == sortOrder
            && r.value.sourceUrl == url && r.value.fileName == fileName
            && r.value.data == response.body && r.value.size == |r.value.data| <= maxBytes)
  {
  }

  /** A stored asset's content type is an `image/` type or `application/octet-stream`, and
      it is the octet-stream fallback only when the bytes carry no known signature. */
  lemma AttemptContentType(inventoryId: string, url: string, sortOrder: nat, response: Response,
                           fileName: Option<string>, maxBytes: nat)
    requires Succeeds(response, maxBytes)
    ensures var a := Attempt(inventoryId, url, sortOrder, response, fileName, maxBytes).value;
      && (StartsWith(a.contentType, "image/") || a.contentType == OctetStream)
      && (!StartsWith(a.contentType, "image/") ==> forall k :: !Signature(k, response.body))
  {
    ChooseContentTypeMeaning(response.contentType, DetectImageContentType(response.body), OctetStream);
    DetectMeaning(response.body);
  }

  /** The public id of the asset row with key `k`. */
  function AssetId(k: nat): string {
    NatToString(k)
  }

  /** Every stored reference parses back to its asset's id. */
  lemma AssetUrlRoundTrip(k: nat)
    ensures IsStoredInventoryImageUrl(BuildInventoryImageUrl(AssetId(k)))
    ensures ParseStoredInventoryImageId(BuildInventoryImageUrl(AssetId(k))) == Some(AssetId(k))
  {
    var id := AssetId(k);
    assert forall i :: 0 <= i < |id| ==> id[i] != '?';
    BuiltIsStored(id);
    ParseBuildRoundTrip(id);
  }

  /** The result list of ingesting `us` when the next new row gets key `nextKey`: the
      stored reference for each URL that succeeds, the URL itself for the others. */
  function Results(us: seq<string>, env: Env, maxBytes: nat, nextKey: nat): (r: seq<string>)
    ensures |r| == |us|
    decreases |us|
  {
    if us == [] then []
    else if Succeeds(env.fetch(us[0]), maxBytes) then [BuildInventoryImageUrl(AssetId(nextKey))] + Results(us[1..], env, maxBytes, nextKey + 1)
    else [us[0]] + Results(us[1..], env, maxBytes, nextKey)
  }

  /** The assets ingesting `us` creates, in order, the first with sort order `sortOrder`. */
  function NewAssets(inventoryId: string, us: seq<string>, env: Env, maxBytes: nat, sortOrder: nat): seq<Asset>
    decreases |us|
  {
    if us == [] then []
    else
      match Attempt(inventoryId, us[0], sortOrder, env.fetch(us[0]), env.fileNameOf(us[0]), maxBytes)
      case None => NewAssets(inventoryId, us[1..], env, maxBytes, sortOrder)
      case Some(a) => [a] + NewAssets(inventoryId, us[1..], env, maxBytes, sortOrder + 1)
  }

  /** One step of `Results`. */
  lemma ResultsStep(us: seq<string>, env: Env, maxBytes: nat, nextKey: nat)
    requires us != []
    ensures var ok := Succeeds(env.fetch(us[0]), maxBytes);
      Results(us, env, maxBytes, nextKey)
      == [if ok then BuildInventoryImageUrl(AssetId(nextKey)) else us[0]] + Results(us[1..], env, maxBytes, if ok then nextKey + 1 else nextKey)
  {
  }

  /** One step of `NewAssets`. */
  lemma NewAssetsCons(inventoryId: string, us: seq<string>, env: Env, maxBytes: nat, sortOrder: nat)
    requires us != []
    ensures var ok := Succeeds(env.fetch(us[0]), maxBytes);
      NewAssets(inventoryId, us, env, maxBytes, sortOrder)
      == (if ok then [Attempt(inventoryId, us[0], sortOrder, env.fetch(us[0]), env.fileNameOf(us[0]), maxBytes).value] else [])
         + NewAssets(inventoryId, us[1..], env, maxBytes, if ok then sortOrder + 1 else sortOrder)
  {
    AttemptMeaning(inventoryId, us[0], sortOrder, env.fetch(us[0]), env.fileNameOf(us[0]), maxBytes);
  }

  /** How many of `us` succeed. */
  function CountStored(us: seq<string>, env: Env, maxBytes: nat): (n: nat)
    ensures n <= |us|
    decreases |us|
  {
    if us == [] then 0
    else (if Succeeds(env.fetch(us[0]), maxBytes) then 1 else 0) + CountStored(us[1..], env, maxBytes)
  }

  /** One asset per successful URL. */
  lemma {:induction false} NewAssetsCount(inventoryId: string, us: seq<string>, env: Env, maxBytes: nat, sortOrder: nat)
    ensures |NewAssets(inventoryId, us, env, maxBytes, sortOrder)| == CountStored(us, env, maxBytes)
    decreases |us|
  {
    if us != [] {
      var ok := Succeeds(env.fetch(us[0]), maxBytes);
      NewAssetsCons(inventoryId, us, env, maxBytes, sortOrder);
      NewAssetsCount(inventoryId, us[1..], env, maxBytes, if ok then sortOrder + 1 else sortOrder);
    }
  }

  /** One created asset: the given sort order, the item, the size bound, a visited URL. */
  predicate AssetOk(a: Asset, inventoryId: string, us: seq<string>, maxBytes: nat, sortOrder: nat) {
    && a.sortOrder == sortOrder
    && a.inventoryId == inventoryId
    && a.size == |a.data| <= maxBytes
    && a.sourceUrl in us
  }

  /** Every created asset is `AssetOk`, with sort orders counting up from `sortOrder`. */
  predicate AssetsOk(created: seq<Asset>, inventoryId: string, us: seq<string>, maxBytes: nat, sortOrder: nat) {
    forall j :: 0 <= j < |created| ==> AssetOk(created[j], inventoryId, us, maxBytes, sortOrder + j)
  }

  /** The new assets carry consecutive sort orders from `sortOrder`, belong to the item,
      respect the size bound and come from the visited URLs. */
  lemma NewAssetsFields(inventoryId: string, us: seq<string>, env: Env, maxBytes: nat, sortOrder: nat)
    ensures var created := NewAssets(inventoryId, us, env, maxBytes, sortOrder);
      forall j :: 0 <= j < |created| ==>
        && created[j].sortOrder == sortOrder + j
        && created[j].inventoryId == inventoryId
        && created[j].size == |created[j].data| <= maxBytes
        && created[j].sourceUrl in us
  {
    NewAssetsOk(inventoryId, us, env, maxBytes, sortOrder);
  }

  lemma {:induction false} NewAssetsOk(inventoryId: string, us: seq<string>, env: Env, maxBytes: nat, sortOrder: nat)
    ensures AssetsOk(NewAssets(inventoryId, us, env, maxBytes, sortOrder), inventoryId, us, maxBytes, sortOrder)
    decreases |us|
  {
    if us != [] {
      var u := us[0];
      var ok := Succeeds(env.fetch(u), maxBytes);
      var so := if ok then sortOrder + 1 else sortOrder;
      NewAssetsCons(inventoryId, us, env, maxBytes, sortOrder);
      NewAssetsOk(inventoryId, us[1..], env, maxBytes, so);
      var rest := NewAssets(inventoryId, us[1..], env, maxBytes, so);
      var created := NewAssets(inventoryId, us, env, maxBytes, sortOrder);
      AssetsOkWiden(rest, inventoryId, us[1..], us, maxBytes, so);
      if ok {
        var a := Attempt(inventoryId, u, sortOrder, env.fetch(u), env.fileNameOf(u), maxBytes).value;
        AttemptMeaning(inventoryId, u, sortOrder, env.fetch(u), env.fileNameOf(u), maxBytes);
        AssetsOkCons(a, rest, created, inventoryId, us, maxBytes, sortOrder);
      }
    }
  }

  lemma AssetsOkWiden(created: seq<Asset>, inventoryId: string, fewer: seq<string>, us: seq<string>,
                      maxBytes: nat, sortOrder: nat)
    requires AssetsOk(created, inventoryId, fewer, maxBytes, sortOrder)
    requires |fewer| < |us| && fewer == us[|us| - |fewer|..]
    ensures AssetsOk(created, inventoryId, us, maxBytes, sortOrder)
  {
    forall j | 0 <= j < |created| ensures AssetOk(created[j], inventoryId, us, maxBytes, sortOrder + j) {
      var x := created[j].sourceUrl;
      assert x in fewer;
      var k :| 0 <= k < |fewer| && fewer[k] == x;
      assert us[|us| - |fewer| + k] == x;
    }
  }

  lemma AssetsOkCons(a: Asset, rest: seq<Asset>, created: seq<Asset>, inventoryId: string, us: seq<string>,
                     maxBytes: nat, sortOrder: nat)
    requires created == [a] + rest
    requires AssetOk(a, inventoryId, us, maxBytes, sortOrder)
    requires AssetsOk(rest, inventoryId, us, maxBytes, sortOrder + 1)
    ensures AssetsOk(created, inventoryId, us, maxBytes, sortOrder)
  {
    forall j | 0 <= j < |created| ensures AssetOk(created[j], inventoryId, us, maxBytes, sortOrder + j) {
      if j > 0 {
        assert created[j] == rest[j - 1];
      }
    }
  }

  lemma CountStoredPrefix(us: seq<string>, env: Env, maxBytes: nat, i: nat)
    requires 1 <= i <= |us|
    ensures CountStored(us[..i], env, maxBytes)
            == (if Succeeds(env.fetch(us[0]), maxBytes) then 1 else 0) + CountStored(us[1..][..i - 1], env, maxBytes)
  {
    assert us[..i][1..] == us[1..][..i - 1];
  }

  /** The entry the source pushes for position `i` of `us`. */
  function EntryFor(us: seq<string>, env: Env, maxBytes: nat, nextKey: nat, i: nat): string
    requires i < |us|
  {
    if Succeeds(env.fetch(us[i]), maxBytes) then BuildInventoryImageUrl(AssetId(nextKey + CountStored(us[..i], env, maxBytes))) else us[i]
  }

  /** The pushes for the rest of the list, described from position 1 of the whole list. */
  lemma EntriesShift(us: seq<string>, env: Env, maxBytes: nat, nextKey: nat, r: seq<string>)
    requires us != [] && |r| == |us|
    requires var nk := if Succeeds(env.fetch(us[0]), maxBytes) then nextKey + 1 else nextKey;
      forall i :: 0 <= i < |us| - 1 ==> r[1..][i] == EntryFor(us[1..], env, maxBytes, nk, i)
    ensures forall i :: 1 <= i < |us| ==> r[i] == EntryFor(us, env, maxBytes, nextKey, i)
  {
    forall i | 1 <= i < |us| ensures r[i] == EntryFor(us, env, maxBytes, nextKey, i) {
      CountStoredPrefix(us, env, maxBytes, i);
      assert r[i] == r[1..][i - 1] && us[i] == us[1..][i - 1];
    }
  }

  lemma ResultsCons(us: seq<string>, env: Env, maxBytes: nat, nextKey: nat)
    requires us != []
    ensures var r := Results(us, env, maxBytes, nextKey);
      var nk := if Succeeds(env.fetch(us[0]), maxBytes) then nextKey + 1 else nextKey;
      r[1..] == Results(us[1..], env, maxBytes, nk) && r[0] == EntryFor(us, env, maxBytes, nextKey, 0)
  {
    assert CountStored(us[..0], env, maxBytes) == 0;
  }

  /** The entry for a URL is the stored reference of a new row when its fetch succeeds,
      the key counting only earlier successes, and the URL itself otherwise. */
  lemma {:induction false} ResultsEntries(us: seq<string>, env: Env, maxBytes: nat, nextKey: nat)
    ensures var r := Results(us, env, maxBytes, nextKey);
      forall i :: 0 <= i < |us| ==> r[i] == EntryFor(us, env, maxBytes, nextKey, i)
    decreases |us|
  {
    if us != [] {
      var nk := if Succeeds(env.fetch(us[0]), maxBytes) then nextKey + 1 else nextKey;
      ResultsEntries(us[1..], env, maxBytes, nk);
      ResultsCons(us, env, maxBytes, nextKey);
      EntriesShift(us, env, maxBytes, nextKey, Results(us, env, maxBytes, nextKey));
    }
  }

  // ----- the asset table --------------------------------------------------------------

  /** The asset table after some pushes of the ingestion loop: the rows that were there
      are untouched and the new ones sit under consecutive keys from `start`. */
  ghost predicate IngestState(start: nat, before: map<nat, Asset>, rows: map<nat, Asset>, counter: nat, created: seq<Asset>) {
    && counter == start + |created|
    && (forall k :: k in rows <==> k in before || start <= k < counter)
    && (forall k :: k in before ==> rows[k] == before[k])
    && (forall j :: 0 <= j < |created| ==> rows[start + j] == created[j])
  }

  lemma IngestStateStep(start: nat, before: map<nat, Asset>, rows: map<nat, Asset>, rows': map<nat, Asset>,
                        counter: nat, created: seq<Asset>, stored: Option<Asset>)
    requires IngestState(start, before, rows, counter, created) && start <= counter
    requires forall k :: k in before ==> k < start
    requires stored.Some? ==> rows' == rows[counter := stored.value]
    requires stored.None? ==> rows' == rows
    ensures stored.Some? ==> IngestState(start, before, rows', counter + 1, created + [stored.value])
    ensures stored.None? ==> IngestState(start, before, rows', counter, created)
  {
  }

  /** What one pass of the loop does: the asset of `Attempt`, stored under the next key
      when there is one, and the matching result entry. */
  ghost predicate Pushed(inventoryId: string, url: string, env: Env, maxBytes: nat, sortOrder: nat,
                         rows: map<nat, Asset>, rows': map<nat, Asset>, counter: nat, counter': nat,
                         entry: string, stored: Option<Asset>)
  {
    && stored == Attempt(inventoryId, url, sortOrder, env.fetch(url), env.fileNameOf(url), maxBytes)
    && (stored.Some? <==> Succeeds(env.fetch(url), maxBytes))
    && entry == (if stored.Some? then BuildInventoryImageUrl(AssetId(counter)) else url)
    && (stored.Some? ==> counter' == counter + 1 && rows' == rows[counter := stored.value])
    && (stored.None? ==> counter' == counter && rows' == rows)
  }

  /** The invariant of the ingestion loop after `i` pushes. */
  ghost predicate LoopState(inventoryId: string, unique: seq<string>, env: Env, maxBytes: nat, start: nat,
                            before: map<nat, Asset>, rows: map<nat, Asset>, counter: nat, i: nat,
                            results: seq<string>, created: seq<Asset>, sortOrder: nat)
  {
    && i <= |unique| && sortOrder == |created| && (forall k :: k in before ==> k < start)
    && IngestState(start, before, rows, counter, created)
    && Results(unique, env, maxBytes, start) == results + Results(unique[i..], env, maxBytes, counter)
    && NewAssets(inventoryId, unique, env, maxBytes, 0) == created + NewAssets(inventoryId, unique[i..], env, maxBytes, sortOrder)
  }

  lemma LoopStep(inventoryId: string, unique: seq<string>, env: Env, maxBytes: nat, start: nat,
                 before: map<nat, Asset>, rows: map<nat, Asset>, rows': map<nat, Asset>, counter: nat, counter': nat,
                 i: nat, results: seq<string>, created: seq<Asset>, sortOrder: nat, entry: string, stored: Option<Asset>)
    requires LoopState(inventoryId, unique, env, maxBytes, start, before, rows, counter, i, results, created, sortOrder)
    requires i < |unique|
    requires Pushed(inventoryId, unique[i], env, maxBytes, sortOrder, rows, rows', counter, counter', entry, stored)
    ensures LoopState(inventoryId, unique, env, maxBytes, start, before, rows', counter', i + 1, results + [entry],
                      if stored.Some? then created + [stored.value] else created,
                      if stored.Some? then sortOrder + 1 else sortOrder)
  {
    var nk := if stored.Some? then counter + 1 else counter;
    var so := if stored.Some? then sortOrder + 1 else sortOrder;
    var created' := if stored.Some? then created + [stored.value] else created;
    ResultsPushed(unique, env, maxBytes, i, counter, nk, results, entry, stored.Some?);
    AssetsPushed(inventoryId, unique, env, maxBytes, i, sortOrder, created, stored);
    IngestStateStep(start, before, rows, rows', counter, created, stored);
  }

  lemma ResultsPushed(unique: seq<string>, env: Env, maxBytes: nat, i: nat, counter: nat, nk: nat,
                      results: seq<string>, entry: string, ok: bool)
    requires i < |unique| && ok == Succeeds(env.fetch(unique[i]), maxBytes)
    requires nk == if ok then counter + 1 else counter
    requires entry == if ok then BuildInventoryImageUrl(AssetId(counter)) else unique[i]
    ensures results + Results(unique[i..], env, maxBytes, counter) == (results + [entry]) + Results(unique[i + 1..], env, maxBytes, nk)
  {
    var tail := unique[i..];
    assert tail[0] == unique[i] && tail[1..] == unique[i + 1..];
    ResultsStep(tail, env, maxBytes, counter);
    Appended(results, entry, Results(tail, env, maxBytes, counter), Results(unique[i + 1..], env, maxBytes, nk));
  }

  lemma AssetsPushed(inventoryId: string, unique: seq<string>, env: Env, maxBytes: nat, i: nat, sortOrder: nat,
                     created: seq<Asset>, stored: Option<Asset>)
    requires i < |unique|
    requires stored == Attempt(inventoryId, unique[i], sortOrder, env.fetch(unique[i]), env.fileNameOf(unique[i]), maxBytes)
    requires stored.Some? <==> Succeeds(env.fetch(unique[i]), maxBytes)
    ensures created + NewAssets(inventoryId, unique[i..], env, maxBytes, sortOrder)
            == (if stored.Some? then created + [stored.value] else created)
               + NewAssets(inventoryId, unique[i + 1..], env, maxBytes, if stored.Some? then sortOrder + 1 else sortOrder)
  {
    var tail := unique[i..];
    assert tail[0] == unique[i] && tail[1..] == unique[i + 1..];
    NewAssetsCons(inventoryId, tail, env, maxBytes, sortOrder);
    if stored.Some? {
      Appended(created, stored.value, NewAssets(inventoryId, tail, env, maxBytes, sortOrder),
               NewAssets(inventoryId, unique[i + 1..], env, maxBytes, sortOrder + 1));
    }
  }

  lemma LoopDone(inventoryId: string, unique: seq<string>, env: Env, maxBytes: nat, start: nat,
                 before: map<nat, Asset>, rows: map<nat, Asset>, counter: nat, i: nat,
                 results: seq<string>, created: seq<Asset>, sortOrder: nat)
    requires LoopState(inventoryId, unique, env, maxBytes, start, before, rows, counter, i, results, created, sortOrder)
    requires i >= |unique|
    ensures results == Results(unique, env, maxBytes, start)
    ensures created == NewAssets(inventoryId, unique, env, maxBytes, 0)
    ensures IngestState(start, before, rows, counter, created)
  {
    assert unique[i..] == [];
  }

  lemma Appended<T>(done: seq<T>, x: T, todo: seq<T>, rest: seq<T>)
    requires todo == [x] + rest
    ensures done + todo == (done + [x]) + rest
  {
  }

  /** The rows that do not belong to the item. */
  function WithoutItem(rows: map<nat, Asset>, inventoryId: string): (r: map<nat, Asset>)
    ensures forall k :: k in r <==> k in rows && rows[k].inventoryId != inventoryId
    ensures forall k :: k in r ==> r[k] == rows[k]
  {
    map k | k in rows && rows[k].inventoryId != inventoryId :: rows[k]
  }

  class AssetStore {
    /** Asset rows by key. */
    var rows: map<nat, Asset>
    /** The key the next row gets. */
    var counter: nat

    ghost predicate Valid()
      reads this
    {
      forall k :: k in rows ==> k < counter
    }

    constructor()
      ensures rows == map[] && counter == 0 && Valid()
    {
      rows := map[];
      counter := 0;
    }

    /** `prisma.inventoryImage.create`: the row gets a fresh key. */
    method Create(a: Asset) returns (key: nat)
      requires Valid()
      modifies this
      ensures Valid()
      ensures key == old(counter) && key !in old(rows) && counter == old(counter) + 1
      ensures rows == old(rows)[key := a]
    {
      key := counter;
      rows := rows[key := a];
      counter := counter + 1;
    }

    /** `prisma.inventoryImage.deleteMany({ where: { inventoryId } })`: every row of the
        item goes, every other row stays. */
    method DeleteMany(inventoryId: string)
      requires Valid()
      modifies this
      ensures Valid() && counter == old(counter)
      ensures rows == WithoutItem(old(rows), inventoryId)
    {
      rows := WithoutItem(rows, inventoryId);
    }

    /** `ingestInventoryImagesFromUrls`: one result per visited URL, in order; the stored
        assets are appended under fresh keys and no existing row changes. */
    method Ingest(inventoryId: string, urls: seq<string>, env: Env, maxBytes: nat, maxImages: nat)
      returns (results: seq<string>)
      requires Valid()
      modifies this
      ensures Valid()
      ensures results == Results(Unique(urls, maxImages), env, maxBytes, old(counter))
      ensures IngestState(old(counter), old(rows), rows, counter, NewAssets(inventoryId, Unique(urls, maxImages), env, maxBytes, 0))
    {
      var unique := Unique(urls, maxImages);
      ghost var start := counter;
      ghost var created: seq<Asset> := [];
      results := [];
      var sortOrder: nat := 0;
      var i := 0;
      assert unique[0..] == unique;
      while i < |unique|
        invariant 0 <= i <= |unique| && Valid()
        invariant LoopState(inventoryId, unique, env, maxBytes, start, old(rows), rows, counter, i, results, created, sortOrder)
      {
        ghost var before, key := rows, counter;
        var entry, stored := IngestOne(inventoryId, unique[i], env, maxBytes, sortOrder);
        LoopStep(inventoryId, unique, env, maxBytes, start, old(rows), before, rows, key, counter, i, results, created, sortOrder, entry, stored);
        results := results + [entry];
        if stored.Some? {
          created := created + [stored.value];
          sortOrder := sortOrder + 1;
        }
        i := i + 1;
      }
      LoopDone(inventoryId, unique, env, maxBytes, start, old(rows), rows, counter, i, results, created, sortOrder);
    }

    /** One pass of the loop: fetch, check, and store the asset when the fetch succeeds. */
    method IngestOne(inventoryId: string, url: string, env: Env, maxBytes: nat, sortOrder: nat)
      returns (entry: string, stored: Option<Asset>)
      requires Valid()
      modifies this
      ensures Valid()
      ensures Pushed(inventoryId, url, env, maxBytes, sortOrder, old(rows), rows, old(counter), counter, entry, stored)
    {
      var response := env.fetch(url);
      if response.NotOk? || response.Thrown? || |response.body| > maxBytes {
        entry, stored := url, None;
      } else {
        var body := response.body;
        var contentType := ChooseContentType(response.contentType, DetectImageContentType(body), OctetStream);
        var asset := Asset(inventoryId, sortOrder, env.fileNameOf(url), contentType, |body|, body, url);
        var key := Create(asset);
        entry, stored := BuildInventoryImageUrl(AssetId(key)), Some(asset);
      }
    }
  }

  /** Every ingestion result is the visited URL itself or the reference of a new asset,
      and that reference parses back to the id of the row created for it. */
  lemma IngestEntries(u: seq<string>, env: Env, maxBytes: nat, nextKey: nat)
    ensures var r := Results(u, env, maxBytes, nextKey);
      forall i :: 0 <= i < |u| ==>
        r[i] == u[i] || ParseStoredInventoryImageId(r[i]) == Some(AssetId(nextKey + CountStored(u[..i], env, maxBytes)))
  {
    ResultsEntries(u, env, maxBytes, nextKey);
    var r := Results(u, env, maxBytes, nextKey);
    forall i | 0 <= i < |u|
      ensures r[i] == u[i] || ParseStoredInventoryImageId(r[i]) == Some(AssetId(nextKey + CountStored(u[..i], env, maxBytes)))
    {
      EntryParses(u, env, maxBytes, nextKey, i);
    }
  }

  lemma EntryParses(u: seq<string>, env: Env, maxBytes: nat, nextKey: nat, i: nat)
    requires i < |u|
    ensures var e := EntryFor(u, env, maxBytes, nextKey, i);
      e == u[i] || ParseStoredInventoryImageId(e) == Some(AssetId(nextKey + CountStored(u[..i], env, maxBytes)))
  {
    AssetUrlRoundTrip(nextKey + CountStored(u[..i], env, maxBytes));
  }
}
