/**
 * app/api/image-proxy/route.ts: the proxy that serves Facebook CDN images through the site.
 * A request is refused, in a fixed order, before anything is fetched; an admitted request is
 * answered from one upstream fetch.
 *
 * `new URL(...)` and `fetch` are parameters: `parse` returns the parsed target or `None` where
 * the URL constructor throws, and `fetch` returns what the upstream request produced (a
 * throw while fetching or while reading the body is `Threw`).
 */
module ImageProxy {
  import opened Prelude
  import opened Strings
  import opened InventoryImages

  /** `MAX_BYTES`: ten mebibytes. */
  const MaxBytes: nat := 10 * 1024 * 1024

  /** The content type sent when neither the header nor the sniffer names an image type. */
  const FallbackType := "image/jpeg"

  // String literals are split with `+` so that the verifier does not unfold long literals
  // character by character when it compares them.
  const CacheControl := "public, max-age=86400, " + "s-maxage=86400, " + "stale-while-revalidate=604800"

  const AllowedSuffix := "fbcdn.net"

  const MissingUrl := "Missing url"
  const InvalidUrl := "Invalid url"
  const HttpsOnly := "Only https " + "URLs are allowed"
  const HostRefused := "Host not allowed"
  const UpstreamFailed := "Upstream fetch failed"
  const TooLarge := "Image too large"

  // ----- the proxy's sniffer -----------------------------------------------------------

  /** The proxy's own `detectImageContentType`, which answers with the MIME string. */
  function SniffContentType(buffer: seq<byte>): Option<string> {
    if |buffer| >= 3 && buffer[0] == 0xff && buffer[1] == 0xd8 && buffer[2] == 0xff then Some("image/jpeg")
    else if |buffer| >= 8 && buffer[0] == 0x89 && buffer[1] == 0x50 && buffer[2] == 0x4e && buffer[3] == 0x47
      && buffer[4] == 0x0d && buffer[5] == 0x0a && buffer[6] == 0x1a && buffer[7] == 0x0a then Some("image/png")
    else if |buffer| >= 6 && (Ascii(buffer[..6]) == "GIF87a" || Ascii(buffer[..6]) == "GIF89a") then Some("image/gif")
    else if |buffer| >= 12 && Ascii(buffer[..4]) == "RIFF" && Ascii(buffer[8..12]) == "WEBP" then Some("image/webp")
    else None
  }

  /** The proxy classifies every buffer exactly as the ingestion sniffer does. */
  lemma SniffAgreesWithIngestion(buffer: seq<byte>)
    ensures SniffContentType(buffer) ==
      match DetectImageContentType(buffer)
      case Some(k) => Some(MimeType(k))
      case None => None
  {
  }

  // ----- the host allow-list -----------------------------------------------------------

  /** `isAllowedImageHost`: the lower-cased host name ends in `fbcdn.net`. */
  predicate IsAllowedImageHost(hostname: string) {
    EndsWith(Lower(hostname), AllowedSuffix)
  }

  lemma LowerSuffix(h: string, k: nat)
    requires k <= |h|
    ensures Lower(h)[k..] == Lower(h[k..])
  {
  }

  lemma LowerAllowedSuffix()
    ensures Lower(AllowedSuffix) == AllowedSuffix
  {
  }

  /** The test is a case-insensitive comparison of the last nine characters with `fbcdn.net`,
      and nothing else about the host is looked at. */
  lemma AllowedHostMeaning(hostname: string)
    ensures IsAllowedImageHost(hostname) <==>
      |hostname| >= |AllowedSuffix| && EqualsIgnoreCase(hostname[|hostname| - |AllowedSuffix|..], AllowedSuffix)
  {
    LowerAllowedSuffix();
    if |hostname| >= |AllowedSuffix| {
      LowerSuffix(hostname, |hostname| - |AllowedSuffix|);
    }
  }

  /** Anything put in front of an allowed host is allowed too: there is no dot boundary, so
      a look-alike such as `notfbcdn.net` passes. */
  lemma AllowedUnderAnyPrefix(prefix: string, hostname: string)
    requires IsAllowedImageHost(hostname)
    ensures IsAllowedImageHost(prefix + hostname)
  {
    var h := prefix + hostname;
    var k := |h| - |AllowedSuffix|;
    assert h[k..] == hostname[|hostname| - |AllowedSuffix|..];
    LowerSuffix(h, k);
    LowerSuffix(hostname, |hostname| - |AllowedSuffix|);
  }

  lemma SuffixItselfAllowed()
    ensures IsAllowedImageHost(AllowedSuffix)
  {
    LowerAllowedSuffix();
  }

  // ----- the request handler -----------------------------------------------------------

  /** The parts of a parsed `URL` that the handler reads. */
  datatype Target = Target(protocol: string, hostname: string, href: string)

  /** What the upstream request produced. */
  datatype Upstream =
    | Threw
    | NotOk
    | Ok(contentType: Option<string>, body: seq<byte>)

  datatype ProxyResponse =
    | Refused(status: nat, message: string)
    | Image(contentType: string, contentLength: string, cacheControl: string, body: seq<byte>)

  /** The proxy's content-type choice: an `image/` header media type, else the sniffed type,
      else `image/jpeg`. */
  function ProxyContentType(header: Option<string>, body: seq<byte>): string {
    var h := HeaderMediaType(header);
    if h.Some? && h.value != [] && StartsWith(h.value, "image/") then h.value
    else SniffContentType(body).GetOr(FallbackType)
  }

  /** `GET`, with `url` the query parameter (`None` when it is absent). */
  function Get(url: Option<string>, parse: string -> Option<Target>, fetch: string -> Upstream): ProxyResponse {
    var raw := Trim(url.GetOr(""));
    if raw == [] then Refused(400, MissingUrl)
    else
      match parse(raw)
      case None => Refused(400, InvalidUrl)
      case Some(target) =>
        if target.protocol != "https:" then Refused(400, HttpsOnly)
        else if !IsAllowedImageHost(target.hostname) then Refused(403, HostRefused)
        else
          match fetch(target.href)
          case Threw => Refused(502, UpstreamFailed)
          case NotOk => Refused(502, UpstreamFailed)
          case Ok(header, body) =>
            if |body| > MaxBytes then Refused(413, TooLarge)
            else Image(ProxyContentType(header, body), NatToString(|body|), CacheControl, body)
  }

  /** The request passes every check made before the fetch. */
  predicate Admitted(url: Option<string>, parse: string -> Option<Target>) {
    var raw := Trim(url.GetOr(""));
    raw != [] && parse(raw).Some? && parse(raw).value.protocol == "https:"
      && IsAllowedImageHost(parse(raw).value.hostname)
  }

  /** The refusals, in order: a missing or blank url, one the URL parser rejects, a scheme
      other than https, and a host off the allow-list. */
  lemma GetRefusals(url: Option<string>, parse: string -> Option<Target>, fetch: string -> Upstream)
    ensures var raw := Trim(url.GetOr(""));
      var r := Get(url, parse, fetch);
      && (raw == [] ==> r == Refused(400, MissingUrl))
      && (raw != [] && parse(raw).None? ==> r == Refused(400, InvalidUrl))
      && (raw != [] && parse(raw).Some? && parse(raw).value.protocol != "https:" ==>
            r == Refused(400, HttpsOnly))
      && ((raw != [] && parse(raw).Some? && parse(raw).value.protocol == "https:"
             && !IsAllowedImageHost(parse(raw).value.hostname)) ==> r == Refused(403, HostRefused))
      && (!Admitted(url, parse) ==> r.Refused? && (r.status == 400 || r.status == 403))
  {
  }

  /** A refused request is refused whatever the upstream would have answered: every refusal
      comes before the fetch. */
  lemma RefusedBeforeFetch(url: Option<string>, parse: string -> Option<Target>,
                           fetch1: string -> Upstream, fetch2: string -> Upstream)
    requires !Admitted(url, parse)
    ensures Get(url, parse, fetch1) == Get(url, parse, fetch2)
  {
  }

  /** An admitted request depends on nothing but the one upstream answer for the target. */
  lemma AdmittedFetchesTarget(url: Option<string>, parse: string -> Option<Target>,
                              fetch1: string -> Upstream, fetch2: string -> Upstream)
    requires Admitted(url, parse)
    requires var t := parse(Trim(url.GetOr(""))).value; fetch1(t.href) == fetch2(t.href)
    ensures Get(url, parse, fetch1) == Get(url, parse, fetch2)
  {
  }

  /** An upstream failure or throw is a 502 and an oversize body a 413. */
  lemma GetUpstreamFailures(url: Option<string>, parse: string -> Option<Target>, fetch: string -> Upstream)
    requires Admitted(url, parse)
    ensures var up := fetch(parse(Trim(url.GetOr(""))).value.href);
      var r := Get(url, parse, fetch);
      && (up.Threw? || up.NotOk? ==> r == Refused(502, UpstreamFailed))
      && (up.Ok? && |up.body| > MaxBytes ==> r == Refused(413, TooLarge))
  {
  }

  /** An image is served exactly when the request is admitted and the upstream answered ok
      with at most ten mebibytes. */
  lemma GetServesIff(url: Option<string>, parse: string -> Option<Target>, fetch: string -> Upstream)
    ensures Get(url, parse, fetch).Image? <==>
      Admitted(url, parse)
      && var up := fetch(parse(Trim(url.GetOr(""))).value.href);
         up.Ok? && |up.body| <= MaxBytes
  {
  }

  lemma FallbackIsImage()
    ensures StartsWith(FallbackType, "image/")
  {
    assert FallbackType[..6] == "image/";
  }

  /** The proxy's choice is the ingestion's choice with `image/jpeg` as the fallback, and it is
      always an `image/` type. */
  lemma ProxyContentTypeMeaning(header: Option<string>, body: seq<byte>)
    ensures ProxyContentType(header, body) == ChooseContentType(header, DetectImageContentType(body), FallbackType)
    ensures StartsWith(ProxyContentType(header, body), "image/")
  {
    SniffAgreesWithIngestion(body);
    ChooseContentTypeMeaning(header, DetectImageContentType(body), FallbackType);
    FallbackIsImage();
  }

  /** A served image is the upstream body unchanged, at most ten mebibytes long, with its
      length as Content-Length, the fixed cache policy, and an `image/` content type chosen
      from the header, else the sniffer, else `image/jpeg`. */
  lemma GetImage(url: Option<string>, parse: string -> Option<Target>, fetch: string -> Upstream)
    requires Get(url, parse, fetch).Image?
    ensures var up := fetch(parse(Trim(url.GetOr(""))).value.href);
      var r := Get(url, parse, fetch);
      && up.Ok? && r.body == up.body && |r.body| <= MaxBytes
      && r.contentLength == NatToString(|up.body|)
      && r.cacheControl == CacheControl
      && r.contentType == ChooseContentType(up.contentType, DetectImageContentType(up.body), FallbackType)
      && StartsWith(r.contentType, "image/")
  {
    var up := fetch(parse(Trim(url.GetOr(""))).value.href);
    ProxyContentTypeMeaning(up.contentType, up.body);
  }
}
