/**
 * lib/image-src.ts: the `src` the storefront puts on an `<img>`. Stored asset references
 * are served as they are, external URLs go through the image proxy, and a missing or
 * blank value shows the placeholder.
 *
 * `encodeURIComponent` is a parameter: the model only relies on what a lemma says it
 * assumes of it.
 */
module ImageSrc {
  import opened Prelude
  import opened Strings
  import opened InventoryImages

  // String literals are split with `+` so that the verifier does not unfold long literals
  // character by character when it compares them.
  const Placeholder := "/placeholder" + ".svg"
  const ProxyRoute := "/api/image-" + "proxy"
  const ProxyQuery := ProxyRoute + "?url="

  /** `resolveImageSrc`; `None` stands for `null` and `undefined`. */
  function ResolveImageSrc(src: Option<string>, encode: string -> string): string {
    var value := Trim(src.GetOr(""));
    if value == [] then Placeholder
    else if StartsWith(value, RoutePrefix) then value
    else if HasHttpScheme(value) then ProxyQuery + encode(value)
    else value
  }

  /** The three ways the result comes about: the placeholder for a missing or blank value,
      the proxy route for an `http(s)` value that is not a stored reference, and the
      trimmed value itself otherwise. */
  lemma ResolveImageSrcCases(src: Option<string>, encode: string -> string)
    ensures var value := Trim(src.GetOr(""));
      var r := ResolveImageSrc(src, encode);
      && (value == [] ==> r == Placeholder)
      && (value != [] && !IsStoredInventoryImageUrl(value) && HasHttpScheme(value) ==> r == ProxyQuery + encode(value))
      && (value != [] && (IsStoredInventoryImageUrl(value) || !HasHttpScheme(value)) ==> r == value)
  {
  }

  /** The result is never empty and never an `http(s)` URL: every value it can take opens
      with `/` or is a trimmed non-`http(s)` value. */
  lemma ResolveNeverEmptyNorExternal(src: Option<string>, encode: string -> string)
    ensures ResolveImageSrc(src, encode) != []
    ensures !HasHttpScheme(ResolveImageSrc(src, encode))
  {
    var value := Trim(src.GetOr(""));
    if value == [] {
      PlaceholderShape();
    } else if StartsWith(value, RoutePrefix) {
      StoredShape(value);
    } else if HasHttpScheme(value) {
      ProxyQueryShape(encode(value));
    }
  }

  /** With an encoding that emits no whitespace, the result is trimmed. */
  lemma ResolveTrimmed(src: Option<string>, encode: string -> string)
    requires NoSpaces(encode(Trim(src.GetOr(""))))
    ensures Trimmed(ResolveImageSrc(src, encode))
  {
    var value := Trim(src.GetOr(""));
    if value == [] {
      PlaceholderShape();
    } else if !StartsWith(value, RoutePrefix) && HasHttpScheme(value) {
      ProxyQueryTrimmed(encode(value));
    }
  }

  lemma PlaceholderShape()
    ensures Placeholder != [] && Trimmed(Placeholder) && !HasHttpScheme(Placeholder)
  {
    var p := Placeholder;
    assert p[0] == '/' && p[|p| - 1] == 'g';
    SlashHasNoScheme(p);
  }

  lemma StoredShape(v: string)
    requires StartsWith(v, RoutePrefix)
    ensures v != [] && !HasHttpScheme(v)
  {
    assert v[..|RoutePrefix|] == RoutePrefix;
    assert v[0] == RoutePrefix[0] == '/';
    SlashHasNoScheme(v);
  }

  lemma ProxyQueryShape(tail: string)
    ensures ProxyQuery + tail != [] && !HasHttpScheme(ProxyQuery + tail)
  {
    var r := ProxyQuery + tail;
    assert r[0] == '/';
    SlashHasNoScheme(r);
  }

  /** A trimmed, non-empty value without an `http(s)` scheme resolves to itself. */
  lemma ResolveFixed(s: string, encode: string -> string)
    requires s != [] && Trimmed(s) && !HasHttpScheme(s)
    ensures ResolveImageSrc(Some(s), encode) == s
  {
    TrimOfTrimmed(s);
  }

  lemma ProxyQueryTrimmed(tail: string)
    requires NoSpaces(tail)
    ensures Trimmed(ProxyQuery + tail)
  {
    var r := ProxyQuery + tail;
    assert r[0] == '/';
    if tail == [] {
      assert r[|r| - 1] == '=';
    } else {
      assert r[|r| - 1] == tail[|tail| - 1];
    }
  }

  /** Resolving a resolved `src` again changes nothing, provided the encoding never emits
      whitespace (`encodeURIComponent` escapes every whitespace character). */
  lemma ResolveIdempotent(src: Option<string>, encode: string -> string)
    requires forall v :: NoSpaces(encode(v))
    ensures ResolveImageSrc(Some(ResolveImageSrc(src, encode)), encode) == ResolveImageSrc(src, encode)
  {
    ResolveNeverEmptyNorExternal(src, encode);
    ResolveTrimmed(src, encode);
    ResolveFixed(ResolveImageSrc(src, encode), encode);
  }
}
