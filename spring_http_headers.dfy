/**
 * The part of Spring's HttpHeaders that the REST tests rely on: a map
 * from case-insensitive header names to lists of values, with the
 * `Accept` and `Content-Type` accessors.
 */
module SpringHttpHeaders {
  import opened Wrappers

  /** A media type in its textual form, such as `application/json`; never empty. */
  type MediaType = s: string | s != "" witness "*/*"

  const AcceptHeader: string := "Accept"
  const ContentTypeHeader: string := "Content-Type"

  function LowerAscii(c: char): (d: char)
    ensures 'A' <= c <= 'Z' ==> 'a' <= d <= 'z' && d as int - c as int == 'a' as int - 'A' as int
    ensures !('A' <= c <= 'Z') ==> d == c
  {
    if 'A' <= c <= 'Z' then (c as int - 'A' as int + 'a' as int) as char else c
  }

  /** The key a header name is stored under: names differing only in ASCII case share it. */
  function HeaderKey(name: string): (key: string)
    ensures |key| == |name|
    ensures forall i :: 0 <= i < |key| ==> !('A' <= key[i] <= 'Z')
    ensures forall i :: 0 <= i < |name| && !('A' <= name[i] <= 'Z') ==> key[i] == name[i]
  {
    seq(|name|, i requires 0 <= i < |name| => LowerAscii(name[i]))
  }

  /** Folding a name that is already folded changes nothing. */
  lemma HeaderKeyIdempotent(name: string)
    ensures HeaderKey(HeaderKey(name)) == HeaderKey(name)
  {
    var k := HeaderKey(name);
    assert forall i :: 0 <= i < |k| ==> HeaderKey(k)[i] == k[i];
  }

  /** Every key of the map is a folded header name, as in a case-insensitive map. */
  ghost predicate Folded(entries: map<string, seq<string>>) {
    forall k :: k in entries ==> HeaderKey(k) == k
  }

  /** The keys the Accept and Content-Type headers are stored under. */
  const AcceptKey: string := "accept"
  const ContentTypeKey: string := "content-type"

  lemma AcceptKeyOfName()
    ensures HeaderKey(AcceptHeader) == AcceptKey
  {
    var k := HeaderKey(AcceptHeader);
    assert forall i :: 0 <= i < |k| ==> k[i] == AcceptKey[i];
  }

  lemma ContentTypeKeyOfName()
    ensures HeaderKey(ContentTypeHeader) == ContentTypeKey
  {
    var k := HeaderKey(ContentTypeHeader);
    forall i | 0 <= i < |k| ensures k[i] == ContentTypeKey[i] {
      assert k[i] == LowerAscii(ContentTypeHeader[i]);
    }
  }

  /** `MediaType.toString(Collection)`: the types joined by `, `; no types give the empty string. */
  function MediaTypeList(types: seq<MediaType>): (text: string)
    ensures |types| == 1 ==> text == types[0]
    ensures types == [] <==> text == ""
  {
    if types == [] then ""
    else if |types| == 1 then types[0]
    else types[0] + ", " + MediaTypeList(types[1..])
  }

  /** `getContentType()`: the first Content-Type value, or null when there is none or it is empty. */
  function ContentTypeOf(entries: map<string, seq<string>>): Option<MediaType>
  {
    if ContentTypeKey in entries && entries[ContentTypeKey] != [] && entries[ContentTypeKey][0] != ""
    then Some(entries[ContentTypeKey][0])
    else None
  }

  /**
   * `getContentType()` reads back what `setContentType` wrote, including
   * null, and setting any other header leaves it as it was.
   */
  lemma ContentTypeOfAfterSet(entries: map<string, seq<string>>, t: Option<MediaType>, key: string, values: seq<string>)
    ensures ContentTypeOf(if t.Some? then entries[ContentTypeKey := [t.value]] else entries - {ContentTypeKey}) == t
    ensures key != ContentTypeKey ==> ContentTypeOf(entries[key := values]) == ContentTypeOf(entries)
  {
  }

  class HttpHeaders {
    /** The header values, under the lower-cased header names. */
    var entries: map<string, seq<string>>

    /** Names differing only in case are stored under one key. */
    ghost predicate Valid()
      reads this
    {
      Folded(entries)
    }

    constructor()
      ensures Valid()
      ensures entries == map[]
    {
      entries := map[];
    }

    /** `containsKey(name)`: some stored header has this name, ignoring case. */
    predicate ContainsKey(name: string)
      requires Valid()
      reads this
      ensures ContainsKey(name) <==> exists k :: k in entries && HeaderKey(k) == HeaderKey(name)
    {
      HeaderKey(name) in entries
    }

    function ContentType(): Option<MediaType>
      reads this
    {
      ContentTypeOf(entries)
    }

    /** `set(name, value)`: the header now has exactly that one value. */
    method Set(name: string, value: string)
      requires Valid()
      modifies this
      ensures Valid()
      ensures entries == old(entries)[HeaderKey(name) := [value]]
    {
      HeaderKeyIdempotent(name);
      entries := entries[HeaderKey(name) := [value]];
    }

    /** `setAccept(types)` */
    method SetAccept(types: seq<MediaType>)
      requires Valid()
      modifies this
      ensures Valid()
      ensures entries == old(entries)[AcceptKey := [MediaTypeList(types)]]
    {
      AcceptKeyOfName();
      Set(AcceptHeader, MediaTypeList(types));
    }

    /** `setContentType(type)`; a null type removes the header. */
    method SetContentType(t: Option<MediaType>)
      requires Valid()
      modifies this
      ensures Valid()
      ensures t.Some? ==> entries == old(entries)[ContentTypeKey := [t.value]]
      ensures t.None? ==> entries == old(entries) - {ContentTypeKey}
      ensures ContentTypeOf(entries) == t
    {
      if t.Some? {
        ContentTypeKeyOfName();
        Set(ContentTypeHeader, t.value);
      } else {
        entries := entries - {ContentTypeKey};
      }
    }
  }
}
