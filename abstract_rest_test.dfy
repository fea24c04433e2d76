/**
 * The request-header defaulting, the header factories, the ETag
 * unquoting and the Location/ETag response checks of the openEHR REST
 * conformance tests' common base class AbstractRestTest.
 */
module AbstractRestTest {
  import opened Wrappers
  import opened JavaText
  import opened SpringHttpHeaders

  /** `MediaType.APPLICATION_JSON` */
  const ApplicationJson: MediaType := "application/json"

  const PreferHeader: string := "Prefer"
  const PreferKey: string := "prefer"
  const ReturnRepresentation: string := "return=representation"

  // ---------------------------------------------------------------------
  // exchange: defaulting of the request headers
  // ---------------------------------------------------------------------

  /** The caller's headers (null is `None`) after `Accept` has been defaulted to JSON. */
  function WithDefaultAccept(given: Option<map<string, seq<string>>>): map<string, seq<string>> {
    match given
    case None => map[AcceptKey := [MediaTypeList([ApplicationJson])]]
    case Some(m) => if AcceptKey in m then m else m[AcceptKey := [MediaTypeList([ApplicationJson])]]
  }

  /**
   * The headers `exchange` sends: no headers become `Accept: application/json`;
   * an `Accept` header the caller gave is kept, a missing one is set to
   * JSON; a content type the caller gave is kept, otherwise the default is
   * set, or, when the default is null, any empty Content-Type is removed.
   */
  function RequestHeaders(given: Option<map<string, seq<string>>>, defaultContentType: Option<MediaType>)
    : (r: map<string, seq<string>>)
    requires given.Some? ==> Folded(given.value)
    ensures Folded(r)
    ensures AcceptKey in r
    ensures given.Some? && AcceptKey in given.value ==> r[AcceptKey] == given.value[AcceptKey]
    ensures given.None? || AcceptKey !in given.value ==> r[AcceptKey] == [ApplicationJson]
    ensures given.Some? && ContentTypeOf(given.value).Some? ==>
      ContentTypeKey in r && r[ContentTypeKey] == given.value[ContentTypeKey]
    ensures ContentTypeOf(r) ==
      if given.Some? && ContentTypeOf(given.value).Some? then ContentTypeOf(given.value) else defaultContentType
    ensures (given.None? || ContentTypeOf(given.value).None?) && defaultContentType.Some? ==>
      ContentTypeKey in r && r[ContentTypeKey] == [defaultContentType.value]
    ensures (given.None? || ContentTypeOf(given.value).None?) && defaultContentType.None? ==>
      ContentTypeKey !in r
    ensures forall k :: k != AcceptKey && k != ContentTypeKey ==>
      (k in r <==> given.Some? && k in given.value) && (k in r ==> r[k] == given.value[k])
  {
    FoldedKeys();
    var withAccept := WithDefaultAccept(given);
    if ContentTypeOf(withAccept).Some? then withAccept
    else match defaultContentType
      case Some(t) => withAccept[ContentTypeKey := [t]]
      case None => withAccept - {ContentTypeKey}
  }

  /**
   * The header handling of `exchange`: the caller's HttpHeaders object is
   * completed in place; without one a new object is created.
   */
  method PrepareExchangeHeaders(headers: HttpHeaders?, defaultContentType: Option<MediaType>)
    returns (h: HttpHeaders)
    requires headers != null ==> headers.Valid()
    modifies headers
    ensures h.Valid()
    ensures headers == null ==> fresh(h) && h.entries == RequestHeaders(None, defaultContentType)
    ensures headers != null ==>
      h == headers && h.entries == RequestHeaders(Some(old(headers.entries)), defaultContentType)
  {
    if headers == null {
      h := CreateAcceptHeaders([ApplicationJson]);
    } else {
      h := headers;
      AcceptKeyOfName();
      if !h.ContainsKey(AcceptHeader) {
        h.SetAccept([ApplicationJson]);
      }
    }
    if h.ContentType().None? {
      h.SetContentType(defaultContentType);
    }
  }

  /** Defaulting the headers a second time changes nothing. */
  lemma RequestHeadersIdempotent(given: Option<map<string, seq<string>>>, defaultContentType: Option<MediaType>)
    requires given.Some? ==> Folded(given.value)
    ensures RequestHeaders(Some(RequestHeaders(given, defaultContentType)), defaultContentType)
         == RequestHeaders(given, defaultContentType)
  {
    var r := RequestHeaders(given, defaultContentType);
    if ContentTypeOf(r).None? {
      assert defaultContentType.None?;
      assert ContentTypeKey !in r;
      assert r - {ContentTypeKey} == r;
    }
  }

  /**
   * Without headers, the common overload (default content type JSON) sends
   * both Accept and Content-Type as JSON; only with a null default is
   * Accept the single header.
   */
  lemma NullHeadersDefaults()
    ensures RequestHeaders(None, Some(ApplicationJson)) ==
      map[AcceptKey := [ApplicationJson], ContentTypeKey := [ApplicationJson]]
    ensures RequestHeaders(None, None) == map[AcceptKey := [ApplicationJson]]
  {
  }

  // ---------------------------------------------------------------------
  // Header factories
  // ---------------------------------------------------------------------

  /** `createAcceptHeaders(types...)`: new headers holding only Accept. */
  method CreateAcceptHeaders(types: seq<MediaType>) returns (h: HttpHeaders)
    ensures fresh(h) && h.Valid()
    ensures h.entries == map[AcceptKey := [MediaTypeList(types)]]
  {
    h := new HttpHeaders();
    h.SetAccept(types);
  }

  /** `createContentTypeHeaders(contentType, accept...)` */
  method CreateContentTypeHeadersAccepting(contentType: Option<MediaType>, accept: seq<MediaType>)
    returns (h: HttpHeaders)
    ensures fresh(h) && h.Valid()
    ensures contentType.Some? ==>
      h.entries == map[AcceptKey := [MediaTypeList(accept)], ContentTypeKey := [contentType.value]]
    ensures contentType.None? ==> h.entries == map[AcceptKey := [MediaTypeList(accept)]]
  {
    h := CreateAcceptHeaders(accept);
    h.SetContentType(contentType);
  }

  /** `createContentTypeHeaders(contentType)`: Accept defaults to JSON. */
  method CreateContentTypeHeaders(contentType: Option<MediaType>) returns (h: HttpHeaders)
    ensures fresh(h) && h.Valid()
    ensures contentType.Some? ==>
      h.entries == map[AcceptKey := [ApplicationJson], ContentTypeKey := [contentType.value]]
    ensures contentType.None? ==> h.entries == map[AcceptKey := [ApplicationJson]]
    ensures ContentTypeOf(h.entries) == contentType
  {
    h := CreateContentTypeHeadersAccepting(contentType, [ApplicationJson]);
  }

  /** The headers `fullRepresentationHeaders` builds. */
  const FullRepresentation: map<string, seq<string>> :=
    map[PreferKey := [ReturnRepresentation],
        AcceptKey := [ApplicationJson],
        ContentTypeKey := [ApplicationJson]]

  /** `fullRepresentationHeaders()`: asks for the full representation, in JSON both ways. */
  method FullRepresentationHeaders() returns (h: HttpHeaders)
    ensures fresh(h) && h.Valid()
    ensures h.entries == FullRepresentation
  {
    PreferKeyOfName();
    AcceptKeyOfName();
    ContentTypeKeyOfName();
    h := new HttpHeaders();
    h.Set(PreferHeader, ReturnRepresentation);
    h.Set(AcceptHeader, ApplicationJson);
    h.Set(ContentTypeHeader, ApplicationJson);
  }

  /** `exchange` sends the full-representation headers exactly as built, whatever the default. */
  lemma ExchangeKeepsFullRepresentation(defaultContentType: Option<MediaType>)
    ensures RequestHeaders(Some(FullRepresentation), defaultContentType) == FullRepresentation
    ensures ContentTypeOf(FullRepresentation) == Some(ApplicationJson)
  {
  }

  lemma PreferKeyOfName()
    ensures HeaderKey(PreferHeader) == PreferKey
  {
    var k := HeaderKey(PreferHeader);
    assert forall i :: 0 <= i < |k| ==> k[i] == PreferKey[i];
  }

  /** The Accept, Content-Type and Prefer keys are folded names themselves. */
  lemma FoldedKeys()
    ensures HeaderKey(AcceptKey) == AcceptKey
    ensures HeaderKey(ContentTypeKey) == ContentTypeKey
    ensures HeaderKey(PreferKey) == PreferKey
  {
    AcceptKeyOfName();
    HeaderKeyIdempotent(AcceptHeader);
    ContentTypeKeyOfName();
    HeaderKeyIdempotent(ContentTypeHeader);
    PreferKeyOfName();
    HeaderKeyIdempotent(PreferHeader);
  }

  // ---------------------------------------------------------------------
  // getHeaderETag
  // ---------------------------------------------------------------------

  /** The weak-validator marker that `HEADER_ETAG_PATTERN` removes together with its quote. */
  const WeakQuote: string := "W/\""

  /**
   * `HEADER_ETAG_PATTERN.matcher(eTag).replaceAll("")` with the pattern
   * `W/"|"`: a left-to-right scan that deletes `W/"` and `"`, trying the
   * first alternative before the second at every position.
   */
  function StripETag(s: string): (r: string)
    ensures |r| <= |s|
    ensures '"' !in r
    ensures '"' !in s ==> r == s
  {
    if s == "" then ""
    else if StartsWith(s, WeakQuote) then
      assert s[2] in s;
      StripETag(s[|WeakQuote|..])
    else if s[0] == '"' then StripETag(s[1..])
    else [s[0]] + StripETag(s[1..])
  }

  /** `getHeaderETag`: the response's ETag without quotes and weak marker; null when there is none. */
  function HeaderETag(etag: Option<string>): (r: Option<string>)
    ensures r.None? <==> etag.None?
    ensures r.Some? ==> '"' !in r.value && |r.value| <= |etag.value|
  {
    match etag
    case None => None
    case Some(s) => Some(StripETag(s))
  }

  lemma HeaderETagIdempotent(etag: Option<string>)
    ensures HeaderETag(HeaderETag(etag)) == HeaderETag(etag)
  {
  }

  /** The quoted body of an entity tag, followed by the closing quote, loses only the quote. */
  lemma {:induction false} StripETagClosingQuote(x: string)
    requires '"' !in x && !EndsWith(x, "W/")
    ensures StripETag(x + "\"") == x
    decreases |x|
  {
    var s := x + "\"";
    if x == "" {
      assert s[1..] == "";
    } else {
      ClosedBodyNotWeak(x);
      TailOfETagBody(x);
      StripETagClosingQuote(x[1..]);
      StripETagKeepsFirst(x, x[1..] + "\"");
    }
  }

  lemma StripETagKeepsFirst(x: string, rest: string)
    requires x != "" && '"' !in x && rest == x[1..] + "\""
    requires !StartsWith(x + "\"", WeakQuote) && StripETag(rest) == x[1..]
    ensures StripETag(x + "\"") == x
  {
    var s := x + "\"";
    assert s[1..] == rest;
    assert s[0] == x[0] && x[0] != '"' by { assert x[0] in x; }
    assert [x[0]] + x[1..] == x;
  }

  /** A quote-free text followed by the closing quote starts with `W/"` only when the text is `W/`. */
  lemma ClosedBodyNotWeak(x: string)
    requires x != "" && '"' !in x && !EndsWith(x, "W/")
    ensures !StartsWith(x + "\"", WeakQuote)
  {
    var s := x + "\"";
    if |x| >= 3 {
      assert s[..3][2] == x[2];
      assert x[2] in x;
    } else if |x| == 2 {
      assert s[..3][..2] == x;
      assert x[|x| - 2..] == x;
    }
  }

  lemma TailOfETagBody(x: string)
    requires x != "" && '"' !in x && !EndsWith(x, "W/")
    ensures '"' !in x[1..] && !EndsWith(x[1..], "W/")
  {
    if |x[1..]| >= 2 {
      assert x[1..][|x[1..]| - 2..] == x[|x| - 2..];
    }
    forall c | c in x[1..] ensures c != '"' {
      assert c in x;
    }
  }

  /**
   * A strong ETag `"x"` and a weak ETag `W/"x"` both give back `x`, when
   * `x` holds no quote and does not end with `W/`.
   */
  lemma HeaderETagOfEntityTag(x: string)
    requires '"' !in x && !EndsWith(x, "W/")
    ensures HeaderETag(Some("\"" + x + "\"")) == Some(x)
    ensures HeaderETag(Some(WeakQuote + x + "\"")) == Some(x)
  {
    StripETagClosingQuote(x);
    var strong := "\"" + x + "\"";
    assert !StartsWith(strong, WeakQuote) by { assert strong[0] != WeakQuote[0]; }
    assert strong[1..] == x + "\"";
    var weak := WeakQuote + x + "\"";
    assert weak[..|WeakQuote|] == WeakQuote;
    assert weak[|WeakQuote|..] == x + "\"";
  }

  /** An opaque tag that ends with `W/` loses that too: `"aW/"` gives `a`. */
  lemma StripETagSwallowsTrailingWeakMarker()
    ensures HeaderETag(Some("\"aW/\"")) == Some("a")
  {
    var s := "\"aW/\"";
    assert !StartsWith(s, WeakQuote) by { assert s[0] != WeakQuote[0]; }
    assert s[1..] == "aW/\"";
    assert !StartsWith("aW/\"", WeakQuote) by { assert "aW/\""[0] != WeakQuote[0]; }
    assert "aW/\""[1..] == WeakQuote;
    assert StartsWith(WeakQuote, WeakQuote);
    assert WeakQuote[|WeakQuote|..] == "";
    assert StripETag(WeakQuote) == "";
    assert StripETag("aW/\"") == "a";
  }

  // ---------------------------------------------------------------------
  // validateLocationAndETag
  // ---------------------------------------------------------------------

  /** The assertion of `validateLocationAndETag` that fails first. */
  datatype ValidationFailure =
    | LocationMissing            // Location expected but absent
    | LocationPresent            // Location not allowed but present
    | ETagMissing                // ETag expected but absent
    | ETagNotQuoted              // ETag does not start and end with a quote
    | LastModifiedNotPositive    // 2xx response without a positive Last-Modified
    | ETagIndexOutOfBounds       // a one-character ETag cannot be unquoted
    | LocationDoesNotEndWithETag // Location does not end with the unquoted ETag
    | ETagPresent                // ETag not allowed but present

  /** `HttpStatus.is2xxSuccessful()` */
  predicate Is2xxSuccessful(status: int) {
    200 <= status <= 299
  }

  predicate Quoted(etag: string) {
    StartsWith(etag, "\"") && EndsWith(etag, "\"")
  }

  /** `eTagString.substring(1, eTagString.length() - 1)` */
  function Unquoted(etag: string): (r: string)
    requires |etag| >= 2
    ensures |r| == |etag| - 2 && etag == etag[..1] + r + etag[|etag| - 1..]
  {
    etag[1..|etag| - 1]
  }

  /**
   * The checks of `validateLocationAndETag` that need no network: the
   * Location header is there exactly when it is allowed; an allowed ETag
   * is there and quoted, a 2xx response carries a positive Last-Modified
   * (-1 when absent), and with a Location the Location ends with the
   * unquoted ETag; a disallowed ETag is absent.
   */
  function ValidateLocationAndETag(
    location: Option<string>, etag: Option<string>, lastModified: int, status: int,
    etagAndLastModifiedAllowed: bool, locationAllowed: bool): (r: Outcome<ValidationFailure>)
    ensures r.Pass? <==>
      && (locationAllowed <==> location.Some?)
      && (etagAndLastModifiedAllowed ==>
            && etag.Some? && Quoted(etag.value)
            && (Is2xxSuccessful(status) ==> lastModified > 0)
            && (locationAllowed ==> |etag.value| >= 2 && EndsWith(location.value, Unquoted(etag.value))))
      && (!etagAndLastModifiedAllowed ==> etag.None?)
    ensures r == Fail(ETagIndexOutOfBounds) <==>
      && locationAllowed && location.Some? && etagAndLastModifiedAllowed && etag == Some("\"")
      && (Is2xxSuccessful(status) ==> lastModified > 0)
  {
    if locationAllowed && location.None? then Fail(LocationMissing)
    else if !locationAllowed && location.Some? then Fail(LocationPresent)
    else if etagAndLastModifiedAllowed then
      if etag.None? then Fail(ETagMissing)
      else if !StartsWith(etag.value, "\"") || !EndsWith(etag.value, "\"") then Fail(ETagNotQuoted)
      else if Is2xxSuccessful(status) && lastModified <= 0 then Fail(LastModifiedNotPositive)
      else if locationAllowed then
        if |etag.value| < 2 then Fail(ETagIndexOutOfBounds)
        else if !EndsWith(location.value, Unquoted(etag.value)) then Fail(LocationDoesNotEndWithETag)
        else Pass
      else Pass
    else if etag.Some? then Fail(ETagPresent)
    else Pass
  }

  /** Last-Modified is looked at only for 2xx responses. */
  lemma LastModifiedOnlyFor2xx(
    location: Option<string>, etag: Option<string>, lastModified: int, otherLastModified: int, status: int,
    etagAndLastModifiedAllowed: bool, locationAllowed: bool)
    requires !Is2xxSuccessful(status)
    ensures ValidateLocationAndETag(location, etag, lastModified, status, etagAndLastModifiedAllowed, locationAllowed)
         == ValidateLocationAndETag(location, etag, otherLastModified, status, etagAndLastModifiedAllowed, locationAllowed)
  {
  }

  /**
   * A response whose Location ends with the version id and whose strong
   * ETag quotes it passes, whatever the id; `getHeaderETag` gives back
   * that id when it holds no quote and does not end with `W/`.
   */
  lemma VersionedLocationPasses(base: string, versionId: string, lastModified: int, status: int)
    requires Is2xxSuccessful(status) ==> lastModified > 0
    ensures ValidateLocationAndETag(Some(base + versionId), Some("\"" + versionId + "\""), lastModified, status, true, true) == Pass
    ensures '"' !in versionId && !EndsWith(versionId, "W/") ==>
      HeaderETag(Some("\"" + versionId + "\"")) == Some(versionId)
  {
    var etag := "\"" + versionId + "\"";
    assert etag[..1] == "\"" && etag[|etag| - 1..] == "\"";
    assert Unquoted(etag) == versionId;
    var location := base + versionId;
    assert location[|location| - |versionId|..] == versionId;
    if '"' !in versionId && !EndsWith(versionId, "W/") {
      HeaderETagOfEntityTag(versionId);
    }
  }

  /** When a validated strong ETag holds no inner quote, the Location ends with what `getHeaderETag` returns. */
  lemma ValidatedETagMatchesHeaderETag(location: Option<string>, etag: Option<string>, lastModified: int, status: int)
    requires ValidateLocationAndETag(location, etag, lastModified, status, true, true).Pass?
    requires '"' !in Unquoted(etag.value) && !EndsWith(Unquoted(etag.value), "W/")
    ensures HeaderETag(etag).Some? && EndsWith(location.value, HeaderETag(etag).value)
  {
    var x := Unquoted(etag.value);
    assert etag.value == "\"" + x + "\"";
    HeaderETagOfEntityTag(x);
  }
}
