# openEHR EHR URI format and REST-test header helpers, in Dafny

This project models two self-contained pieces of logic from the openEHR REST
conformance tests and proves properties about them.

1. **`OpenEhrUriFormat`** (`open_ehr_uri_format.dfy`) formats and parses EHR
   URIs of the form `ehr:/<ehrId>[/<structureType>[/<uid>]]`.
   - `format` appends to a builder under nested null checks, so it is a
     method.
   - `parse` is a pure chain of `startsWith`, `replaceAll`, `split`, a
     validating `peek` and conditional expressions.
   - The Java string operations it relies on are written out as functions in
     `java_text.dfy`. `replaceAll` of a literal is a left-to-right,
     non-overlapping deletion. `String.split("/")` returns `[s]` when there is
     no separator and otherwise drops trailing empty strings.
   - The enumeration `OpenEhrStructureType` is abstract. It is a type
     parameter `T` plus a value holding `getUriType` and `fromUriType`. Each
     lookup returns a type, returns null or throws, and nothing is assumed
     about which strings it accepts. Round-trip lemmas state the inverse
     relation as an explicit precondition.
2. **`AbstractRestTest`** (`abstract_rest_test.dfy`) covers the header logic
   of the test base class:
   - how `exchange` defaults the Accept and Content-Type request headers;
   - the header factories `createAcceptHeaders`, `createContentTypeHeaders`
     and `fullRepresentationHeaders`. The last sets
     `Prefer: return=representation`, from section 4.2 of RFC 7240.
   - `getHeaderETag`, which deletes every `W/"` and every `"`, the weak
     marker and quotes of the entity-tag syntax in section 2.3 of RFC 7232;
   - the checks of `validateLocationAndETag` that need no network.

   The parts of Spring's `HttpHeaders` these rely on are in
   `spring_http_headers.dfy`:
   - a class whose `entries` map case-folded header names to value lists;
   - `set`, which replaces the value list;
   - `setAccept`, which joins the media types with `, `;
   - `getContentType`, which is null when the first value is missing or
     empty;
   - `setContentType(null)`, which removes the header.

   `exchange` and the factories change an `HttpHeaders` object in place, so
   they are methods. Each is specified by a pure function or constant and
   proved against it.

`wrappers.dfy` holds the `Option`, `Result` and `Outcome` datatypes. They
stand for a nullable reference, a call that returns or throws, and an
assertion sequence that passes or fails.

## Model

Paths are relative to the repository root. `OpenEhrUriFormat.java` is
`src/main/java/org/openehr/data/OpenEhrUriFormat.java`. `AbstractRestTest.java`
is `openehr-rest-tests/src/test/java/org/openehr/rest/AbstractRestTest.java`.

| member | source | states |
|---|---|---|
| OpenEhrUriFormat.Format | src/main/java/org/openehr/data/OpenEhrUriFormat.java:36-55 | `format(null)` is null. Otherwise the result is the prefix `ehr:/`, then the EHR id, the type's uri string and the uid, joined by `/`. The type appears only when present, the uid only when both are present. |
| OpenEhrUriFormat.FormatParts | src/main/java/org/openehr/data/OpenEhrUriFormat.java:32-34 | The three-argument `format` gives the text of the uri built from its arguments. |
| OpenEhrUriFormat.Segments | src/main/java/org/openehr/data/OpenEhrUriFormat.java:41-54 | `format` writes one to three segments. The EHR id is first, a second exactly when there is a type, a third exactly when there are a type and a uid. |
| OpenEhrUriFormat.FormattedLayout | src/main/java/org/openehr/data/OpenEhrUriFormat.java:41-54 | The output starts with `ehr:/` + ehrId. It is exactly that without a type, adds `/<uriType>` with a type, and adds `/<uid>` only with both. |
| OpenEhrUriFormat.FormatDropsUidWithoutType | src/main/java/org/openehr/data/OpenEhrUriFormat.java:44-52 | A uid given with a null type is silently dropped; the output is `ehr:/` + ehrId. |
| OpenEhrUriFormat.Decode | src/main/java/org/openehr/data/OpenEhrUriFormat.java:67-81 | An empty part fails with "Empty part" before any count check. Success iff there are 1 to 3 non-empty parts and the type lookup does not throw. Part 0 is the EHR id. Part 1, if present, goes through `fromUriType` (a null answer gives no type). Part 2, if present, is the uid. |
| OpenEhrUriFormat.Parse | src/main/java/org/openehr/data/OpenEhrUriFormat.java:57-82 | `parse(null)` is null, and only null input gives null. Input not starting with `ehr:/` fails with "Illegal prefix". A parsed EHR id and uid are non-empty and hold no `/`. |
| OpenEhrUriFormat.ParseFormatRoundTrip | src/main/java/org/openehr/data/OpenEhrUriFormat.java:36-82 | `parse(format(u)) == u` under these conditions: the segments are non-empty and `/`-free; no uid without a type; `fromUriType` inverts `getUriType`; no segment before another ends with `ehr:`. |
| OpenEhrUriFormat.FormatAfterParse | src/main/java/org/openehr/data/OpenEhrUriFormat.java:36-82 | `format(parse(s))` is `ehr:/` followed by `s` after `replaceAll`'s single left-to-right deletion of `ehr:/`, with trailing `/` trimmed. Without an embedded `ehr:/` it is `s` without trailing slashes. Holds when, if there is a second part, `fromUriType` finds a type for it and `getUriType` spells that type back as the same part. |
| OpenEhrUriFormat.ParseRejectsEmptySegment | src/main/java/org/openehr/data/OpenEhrUriFormat.java:67-71 | An empty leading or interior segment fails with "Empty part" when something other than `/` follows it and no `ehr:/` occurs after the leading prefix. |
| OpenEhrUriFormat.ParseRejectsTooManySegments | src/main/java/org/openehr/data/OpenEhrUriFormat.java:73-75 | Four or more valid segments fail with "Illegal number of parts" when no `ehr:/` occurs after the leading prefix. |
| OpenEhrUriFormat.ParseRejectsOnlySeparators | src/main/java/org/openehr/data/OpenEhrUriFormat.java:67-75 | A path made only of `/` leaves zero parts and fails with "Illegal number of parts". |
| OpenEhrUriFormat.ParseToleratesTrailingSlash | src/main/java/org/openehr/data/OpenEhrUriFormat.java:67 | For text starting with `ehr:/`, adding a trailing `/` does not change the result. There are two exceptions: the text ends with `ehr:`, so the slash completes a prefix; or nothing is left after `replaceAll`'s single left-to-right deletion of `ehr:/`. |
| OpenEhrUriFormat.ParseIgnoresEmbeddedPrefix | src/main/java/org/openehr/data/OpenEhrUriFormat.java:67 | An `ehr:/` right after a separator is deleted before splitting, so `parse("ehr:/a/ehr:/b") == parse("ehr:/a/b")` in general. |
| OpenEhrUriFormat.ParseExamplesRejected | src/main/java/org/openehr/data/OpenEhrUriFormat.java:63-75 | `EHR:/a` fails on the prefix. `ehr:/` fails with an empty part. `ehr://` fails on the number of parts. |
| OpenEhrUriFormat.ParseExamplesEmptySegment | src/main/java/org/openehr/data/OpenEhrUriFormat.java:67-71 | `ehr://x` and `ehr:/a//b` fail with an empty part. |
| OpenEhrUriFormat.ParseExamplesAccepted | src/main/java/org/openehr/data/OpenEhrUriFormat.java:67-81 | `ehr:/a/` parses to EHR id `a` with no type or uid. |
| OpenEhrUriFormat.ParseExamplesEmbeddedPrefix | src/main/java/org/openehr/data/OpenEhrUriFormat.java:67 | `ehr:/a/ehr:/b` parses like `ehr:/a/b`. |
| OpenEhrUriFormat.ParseExamplesTrailingSlashes | src/main/java/org/openehr/data/OpenEhrUriFormat.java:67 | `ehr:/a/b//` parses like `ehr:/a/b`. |
| OpenEhrUriFormat.ParseExamplesEmbeddedTrailingSlash | src/main/java/org/openehr/data/OpenEhrUriFormat.java:67 | `ehr:/a/ehr:/b/` parses like `ehr:/a/ehr:/b`. |
| OpenEhrUriFormat.ParseLosesSegmentAfterStem | src/main/java/org/openehr/data/OpenEhrUriFormat.java:67 | As written: for EHR id `ehr:` with type `t`, `parse(format(u))` gives EHR id `uriType(t)` and no type (see Findings). |
| OpenEhrUriFormat.ParseLeadingPrefixOnly | src/main/java/org/openehr/data/OpenEhrUriFormat.java:57-82 | Corrected parser that strips only the leading prefix. Null gives null, only null gives null, and a missing prefix fails. |
| OpenEhrUriFormat.ParseLeadingPrefixOnlyRoundTrip | src/main/java/org/openehr/data/OpenEhrUriFormat.java:36-82 | The corrected parser gives back every formattable uri, with no condition on `ehr:` endings. |
| OpenEhrUriFormat.ParsersAgreeWithoutEmbeddedPrefix | src/main/java/org/openehr/data/OpenEhrUriFormat.java:67 | Without an `ehr:/` after the leading one, the as-written and the corrected parser give the same result. |
| JavaText.Split | src/main/java/org/openehr/data/OpenEhrUriFormat.java:67 | `split("/")`: no piece holds `/`, and text without `/` gives itself as the only piece. |
| JavaText.SplitJoin | src/main/java/org/openehr/data/OpenEhrUriFormat.java:67 | Splitting non-empty `/`-free parts joined by `/` gives the parts back. |
| JavaText.JoinSplit | src/main/java/org/openehr/data/OpenEhrUriFormat.java:67 | When the split has no empty piece, joining the pieces gives the text without its trailing separators. |
| JavaText.SplitTrailingSeparator | src/main/java/org/openehr/data/OpenEhrUriFormat.java:67 | A trailing separator does not change the split of non-empty text. |
| JavaText.SplitKeepsInteriorEmpty | src/main/java/org/openehr/data/OpenEhrUriFormat.java:67 | An empty piece before a non-separator is kept, whether leading or interior. |
| JavaText.SplitOnlySeparators | src/main/java/org/openehr/data/OpenEhrUriFormat.java:67 | Text made only of separators splits into no pieces. |
| JavaText.RemoveAll | src/main/java/org/openehr/data/OpenEhrUriFormat.java:67 | `replaceAll(URI_PREFIX, "")` as a left-to-right scan deleting each non-overlapping `ehr:/`; it never lengthens the text. |
| JavaText.RemoveAllShortensIffOccurs | src/main/java/org/openehr/data/OpenEhrUriFormat.java:67 | `replaceAll` shortens the text exactly when the pattern occurs in it. |
| JavaText.RemoveAllWithoutOccurrence | src/main/java/org/openehr/data/OpenEhrUriFormat.java:67 | `replaceAll` leaves text without an occurrence unchanged. |
| JavaText.RemoveAllAppend | src/main/java/org/openehr/data/OpenEhrUriFormat.java:67 | `replaceAll` works piecewise across a boundary no occurrence crosses. |
| AbstractRestTest.RequestHeaders | openehr-rest-tests/src/test/java/org/openehr/rest/AbstractRestTest.java:222-229 | A caller's Accept is kept, and a missing one becomes `[application/json]`. A caller's content type is kept. Otherwise Content-Type is exactly `[default]`, or absent when the default is null. Every other header is unchanged. Keys stay case-folded. |
| AbstractRestTest.PrepareExchangeHeaders | openehr-rest-tests/src/test/java/org/openehr/rest/AbstractRestTest.java:213-232 | Null headers: a new object holding the defaulted headers. Otherwise the caller's object is updated in place to the defaulted headers. The `containsKey(ACCEPT)` test is case-insensitive because the object's keys are kept folded. |
| AbstractRestTest.RequestHeadersIdempotent | openehr-rest-tests/src/test/java/org/openehr/rest/AbstractRestTest.java:222-229 | Defaulting already-defaulted headers changes nothing. |
| AbstractRestTest.NullHeadersDefaults | openehr-rest-tests/src/test/java/org/openehr/rest/AbstractRestTest.java:222-229 | With null headers, the common overload (default `application/json`, line 210) sends Accept and Content-Type, both JSON. Only a null default leaves exactly Accept. |
| AbstractRestTest.CreateAcceptHeaders | openehr-rest-tests/src/test/java/org/openehr/rest/AbstractRestTest.java:234-238 | New headers holding only Accept, the media types joined by `, `. |
| AbstractRestTest.CreateContentTypeHeadersAccepting | openehr-rest-tests/src/test/java/org/openehr/rest/AbstractRestTest.java:244-248 | New headers holding exactly Accept and the content type. A null content type leaves only Accept. |
| AbstractRestTest.CreateContentTypeHeaders | openehr-rest-tests/src/test/java/org/openehr/rest/AbstractRestTest.java:240-242 | Exactly Accept `application/json` and the given content type. A null content type leaves only Accept. |
| AbstractRestTest.FullRepresentationHeaders | openehr-rest-tests/src/test/java/org/openehr/rest/AbstractRestTest.java:311-317 | Exactly `Prefer: return=representation`, Accept `application/json` and Content-Type `application/json`. |
| AbstractRestTest.ExchangeKeepsFullRepresentation | openehr-rest-tests/src/test/java/org/openehr/rest/AbstractRestTest.java:222-229 | `exchange` sends the full-representation headers unchanged, whatever the default content type. |
| AbstractRestTest.StripETag | openehr-rest-tests/src/test/java/org/openehr/rest/AbstractRestTest.java:68 | Deleting `W/"` and `"` leaves no quote, never lengthens the text, and leaves quote-free text unchanged. |
| AbstractRestTest.HeaderETag | openehr-rest-tests/src/test/java/org/openehr/rest/AbstractRestTest.java:368-371 | `getHeaderETag` is null iff the ETag is null. Otherwise the result holds no quote and is no longer than the ETag. |
| AbstractRestTest.HeaderETagIdempotent | openehr-rest-tests/src/test/java/org/openehr/rest/AbstractRestTest.java:368-371 | Stripping twice equals stripping once. |
| AbstractRestTest.HeaderETagOfEntityTag | openehr-rest-tests/src/test/java/org/openehr/rest/AbstractRestTest.java:368-371 | `"x"` and `W/"x"` both give `x` when `x` holds no quote and does not end with `W/`. |
| AbstractRestTest.StripETagSwallowsTrailingWeakMarker | openehr-rest-tests/src/test/java/org/openehr/rest/AbstractRestTest.java:68 | The scan also deletes a `W/"` formed by an opaque tag ending in `W/` and the closing quote: `"aW/"` gives `a`. |
| AbstractRestTest.ValidateLocationAndETag | openehr-rest-tests/src/test/java/org/openehr/rest/AbstractRestTest.java:266-309 | Passes iff all of: Location is present exactly when allowed; when ETag and Last-Modified are allowed, the ETag is present and starts and ends with `"`, a 2xx status has Last-Modified > 0, and, with Location also allowed, the ETag has two or more characters and Location ends with it minus its outer characters; when they are not allowed, the ETag is absent. The one-character ETag `"` fails at the substring step exactly when everything before it passed. |
| AbstractRestTest.Unquoted | openehr-rest-tests/src/test/java/org/openehr/rest/AbstractRestTest.java:304 | `substring(1, length() - 1)`: the ETag is its first character, the result and its last character, in that order. |
| AbstractRestTest.LastModifiedOnlyFor2xx | openehr-rest-tests/src/test/java/org/openehr/rest/AbstractRestTest.java:299-302 | For a status outside 2xx, the Last-Modified value does not affect the outcome. |
| AbstractRestTest.VersionedLocationPasses | openehr-rest-tests/src/test/java/org/openehr/rest/AbstractRestTest.java:294-305 | Location `<base><id>` with ETag `"<id>"` passes for every id (given Last-Modified for 2xx). `getHeaderETag` gives back `<id>` when the id holds no `"` and does not end with `W/`. |
| AbstractRestTest.ValidatedETagMatchesHeaderETag | openehr-rest-tests/src/test/java/org/openehr/rest/AbstractRestTest.java:303-305 | After validation passes, Location ends with what `getHeaderETag` returns when the opaque tag holds no quote and does not end with `W/`. |
| SpringHttpHeaders.HttpHeaders.constructor | openehr-rest-tests/src/test/java/org/openehr/rest/AbstractRestTest.java:235 | `new HttpHeaders()` is empty and satisfies the folded-keys invariant. |
| SpringHttpHeaders.HttpHeaders.ContainsKey | openehr-rest-tests/src/test/java/org/openehr/rest/AbstractRestTest.java:224 | `containsKey(name)` holds iff some stored header has the same name up to case. |
| SpringHttpHeaders.HttpHeaders.Set | openehr-rest-tests/src/test/java/org/openehr/rest/AbstractRestTest.java:313-315 | `set(name, value)` replaces that header's values with exactly `[value]`, under the folded name. Nothing else changes and the keys stay folded. |
| SpringHttpHeaders.HttpHeaders.SetAccept | openehr-rest-tests/src/test/java/org/openehr/rest/AbstractRestTest.java:225 | `setAccept(types)` sets Accept to the single value listing the types joined by `, `. |
| SpringHttpHeaders.HttpHeaders.SetContentType | openehr-rest-tests/src/test/java/org/openehr/rest/AbstractRestTest.java:228 | `setContentType(t)` sets Content-Type to exactly `[t]`; a null type removes the header. Afterwards `getContentType()` returns `t`. |
| SpringHttpHeaders.ContentTypeOfAfterSet | openehr-rest-tests/src/test/java/org/openehr/rest/AbstractRestTest.java:227-228 | `getContentType()` reads back what `setContentType` wrote, null included, and setting any other header does not change it. |
| SpringHttpHeaders.HeaderKeyIdempotent | openehr-rest-tests/src/test/java/org/openehr/rest/AbstractRestTest.java:224 | Folding a header name twice is the same as folding it once, so stored keys look themselves up. |

## Left out

- In `validateLocationAndETag` (lines 270-290), the DNS lookups and the re-fetch of the Location use the network. The port and path comparisons against the configured target URI and the URL decoding depend on URI parsing and configuration outside this model. The model treats all of them as passing. The Location and ETag headers, Last-Modified and the status code are parameters.
- `restTemplate.exchange`, `setUp`, `postComposition`, `uploadTemplate`, `uploadNamedQuery`, `getResponse` and `deleteResponse` are network I/O and are not modelled. So are the `FolderBuilder` helpers, random and UUID generation, and resource-file loading.
- `OpenEhrQueryRestTest` and `BasicAuthConfiguration` are not part of this model. Their behaviour lives in an external server or in Spring configuration.
- `OpenEhrUri` and `OpenEhrStructureType` are not part of this model. `OpenEhrStructureType` is abstract, and `ehrId` is a non-null string, as the three-argument `format` declares it `@Nonnull`. A null EHR id, which would print as `null`, is not modelled.
- `AbstractRestTest.ValidateLocationAndETag` treats Location and ETag as the header strings. URI syntax errors from `getLocation` and date parsing behind `getLastModified` (-1 when absent) are not modelled.
- `SpringHttpHeaders.HttpHeaders` folds ASCII letters only, and does not keep the original spelling of a header name. Spring's `new HttpHeaders()` uses a case-insensitive map lower-casing with `Locale.ENGLISH`, which folds more than ASCII.
- `SpringHttpHeaders.MediaType` is the non-empty text of a media type. Media-type parsing and Spring's wildcard assertions in `setContentType` are not modelled.
- Java regular expressions are not modelled as an engine. `replaceAll("ehr:/", "")` and the pattern `W/"|"` are written as explicit left-to-right scans with the same matches.

## Findings

| source | as written | input that shows it | evidently intended | confidence | as-written member | corrected member |
|---|---|---|---|---|---|---|
| src/main/java/org/openehr/data/OpenEhrUriFormat.java:67 | `replaceAll(URI_PREFIX, "")` deletes each `ehr:/` its left-to-right scan meets, including one that `format` spells across a separator | EHR id `ehr:` with type `t` and no uid: `format` gives `ehr:/ehr:/<uriType(t)>`, and `parse` returns EHR id `<uriType(t)>` with no type | strip only the leading prefix, so `parse(format(u)) == u` for every formattable uri | low (an EHR id ending in `ehr:` is unusual); not executed | OpenEhrUriFormat.ParseLosesSegmentAfterStem | OpenEhrUriFormat.ParseLeadingPrefixOnlyRoundTrip |
