/**
 * OpenEhrUriFormat: the serialiser and parser of openEHR EHR URIs
 * `ehr:/<ehrId>[/<structureType>[/<uid>]]`.
 *
 * The enumeration OpenEhrStructureType is not part of this model; it is
 * kept abstract as a type parameter `T` with its two conversions.
 */
module OpenEhrUriFormat {
  import opened Wrappers
  import opened JavaText

  /** `URI_PREFIX` */
  const UriPrefix: string := "ehr:/"

  const Separator: char := '/'

  /**
   * The prefix without its slash. A segment ending with it that is
   * followed by a separator spells the prefix again.
   */
  const PrefixStem: string := "ehr:"

  /** What `OpenEhrStructureType.fromUriType` does with a string: returns a type, returns null, or throws. */
  datatype TypeLookup<T> = Found(structureType: T) | NotFound | Rejected

  /** OpenEhrStructureType's `getUriType` and its static `fromUriType`. */
  datatype StructureTypes<!T> = StructureTypes(uriType: T -> string, fromUriType: string -> TypeLookup<T>)

  /** OpenEhrUri: an EHR id and, optionally, a top-level structure type and a top-level uid. */
  datatype OpenEhrUri<T> = OpenEhrUri(ehrId: string, structureType: Option<T>, uid: Option<string>)

  /** The IllegalArgumentExceptions `parse` throws, and an exception thrown by `fromUriType`. */
  datatype ParseError = IllegalPrefix | EmptyPart | IllegalNumberOfParts | StructureTypeRejected

  predicate ValidSegment(s: string) {
    s != "" && Separator !in s
  }

  // ---------------------------------------------------------------------
  // format
  // ---------------------------------------------------------------------

  /** The path segments `format` writes after the prefix; a uid without a type is not written. */
  function Segments<T>(types: StructureTypes<T>, u: OpenEhrUri<T>): (segments: seq<string>)
    ensures 1 <= |segments| <= 3 && segments[0] == u.ehrId
    ensures |segments| >= 2 <==> u.structureType.Some?
    ensures |segments| == 3 <==> u.structureType.Some? && u.uid.Some?
  {
    [u.ehrId] +
      match u.structureType
      case None => []
      case Some(t) => [types.uriType(t)] + (if u.uid.Some? then [u.uid.value] else [])
  }

  /** The text `format` builds: the prefix, then the segments joined by the separator. */
  function Formatted<T>(types: StructureTypes<T>, u: OpenEhrUri<T>): string {
    UriPrefix + Join(Segments(types, u), Separator)
  }

  /** `format(OpenEhrUri)`: appends to a builder under nested null checks; null gives null. */
  method Format<T>(types: StructureTypes<T>, uri: Option<OpenEhrUri<T>>) returns (s: Option<string>)
    ensures uri.None? ==> s.None?
    ensures uri.Some? ==> s == Some(Formatted(types, uri.value))
  {
    if uri.None? {
      return None;
    }
    var u := uri.value;
    FormattedLayout(types, u);
    var builder := UriPrefix + u.ehrId;
    if u.structureType.Some? {
      builder := builder + [Separator] + types.uriType(u.structureType.value);
      if u.uid.Some? {
        builder := builder + [Separator] + u.uid.value;
      }
    }
    return Some(builder);
  }

  /** `format(ehrId, topLevelStructureType, topLevelUid)`: formats the uri built from the three. */
  method FormatParts<T>(types: StructureTypes<T>, ehrId: string, structureType: Option<T>, uid: Option<string>)
    returns (s: string)
    ensures s == Formatted(types, OpenEhrUri(ehrId, structureType, uid))
  {
    var r := Format(types, Some(OpenEhrUri(ehrId, structureType, uid)));
    s := r.value;
  }

  /**
   * The output starts with the prefix and the EHR id; `/<uriType>` follows
   * exactly when there is a type, and `/<uid>` only when there are both.
   */
  lemma FormattedLayout<T>(types: StructureTypes<T>, u: OpenEhrUri<T>)
    ensures StartsWith(Formatted(types, u), UriPrefix + u.ehrId)
    ensures u.structureType.None? ==> Formatted(types, u) == UriPrefix + u.ehrId
    ensures u.structureType.Some? && u.uid.None? ==>
      Formatted(types, u) == UriPrefix + u.ehrId + [Separator] + types.uriType(u.structureType.value)
    ensures u.structureType.Some? && u.uid.Some? ==>
      Formatted(types, u) ==
        UriPrefix + u.ehrId + [Separator] + types.uriType(u.structureType.value) + [Separator] + u.uid.value
  {
    var e := u.ehrId;
    var segments := Segments(types, u);
    match u.structureType {
      case None =>
        assert segments == [e];
      case Some(t) =>
        var x := types.uriType(t);
        if u.uid.Some? {
          var id := u.uid.value;
          assert segments == [e, x, id];
          assert segments[1..] == [x, id];
          assert segments[1..][1..] == [id];
          assert Join([x, id], Separator) == x + [Separator] + id;
          assert Join(segments, Separator) == e + [Separator] + (x + [Separator] + id);
        } else {
          assert segments == [e, x];
          assert segments[1..] == [x];
          assert Join(segments, Separator) == e + [Separator] + x;
        }
    }
    var rest := Formatted(types, u)[|UriPrefix + e|..];
    assert Formatted(types, u) == UriPrefix + e + rest;
    assert Formatted(types, u)[..|UriPrefix + e|] == UriPrefix + e;
  }

  /** A uid given without a structure type is silently dropped. */
  lemma FormatDropsUidWithoutType<T>(types: StructureTypes<T>, ehrId: string, uid: Option<string>)
    ensures Formatted(types, OpenEhrUri(ehrId, None, uid)) == Formatted(types, OpenEhrUri(ehrId, None, None))
    ensures Formatted(types, OpenEhrUri(ehrId, None, uid)) == UriPrefix + ehrId
  {
    FormattedLayout(types, OpenEhrUri(ehrId, None, uid));
  }

  // ---------------------------------------------------------------------
  // parse
  // ---------------------------------------------------------------------

  /**
   * The part of `parse` after the split: every part is checked to be
   * non-empty before the number of parts is checked; the second part, if
   * any, goes through `fromUriType` and the third, if any, is the uid.
   */
  function Decode<T>(types: StructureTypes<T>, parts: seq<string>): (r: Result<OpenEhrUri<T>, ParseError>)
    ensures "" in parts ==> r == Failure(EmptyPart)
    ensures r.Success? <==>
      "" !in parts && 1 <= |parts| <= 3 && (|parts| >= 2 ==> !types.fromUriType(parts[1]).Rejected?)
    ensures r.Success? ==>
      && r.value.ehrId == parts[0]
      && (if |parts| == 3 then r.value.uid == Some(parts[2]) else r.value.uid.None?)
      && (if |parts| >= 2 && types.fromUriType(parts[1]).Found?
          then r.value.structureType == Some(types.fromUriType(parts[1]).structureType)
          else r.value.structureType.None?)
  {
    if "" in parts then Failure(EmptyPart)
    else if |parts| < 1 || |parts| > 3 then Failure(IllegalNumberOfParts)
    else
      var uid := if |parts| > 2 then Some(parts[2]) else None;
      if |parts| > 1 then
        match types.fromUriType(parts[1])
        case Found(t) => Success(OpenEhrUri(parts[0], Some(t), uid))
        case NotFound => Success(OpenEhrUri(parts[0], None, uid))
        case Rejected => Failure(StructureTypeRejected)
      else Success(OpenEhrUri(parts[0], None, uid))
  }

  function AsNullable<T>(r: Result<OpenEhrUri<T>, ParseError>): Result<Option<OpenEhrUri<T>>, ParseError> {
    match r
    case Success(u) => Success(Some(u))
    case Failure(e) => Failure(e)
  }

  /**
   * `parse(String)`: null gives null; the text must start with the prefix;
   * then every occurrence of the prefix is deleted (`replaceAll`) and the
   * rest is split at `/` with Java's `split`, which discards trailing
   * empty strings.
   */
  function Parse<T>(types: StructureTypes<T>, value: Option<string>): (r: Result<Option<OpenEhrUri<T>>, ParseError>)
    ensures value.None? <==> r == Success(None)
    ensures value.Some? && !StartsWith(value.value, UriPrefix) ==> r == Failure(IllegalPrefix)
    ensures r.Success? && r.value.Some? ==>
      && value.Some? && StartsWith(value.value, UriPrefix)
      && ValidSegment(r.value.value.ehrId)
      && (r.value.value.uid.Some? ==> ValidSegment(r.value.value.uid.value))
  {
    match value
    case None => Success(None)
    case Some(s) =>
      if !StartsWith(s, UriPrefix) then Failure(IllegalPrefix)
      else
        var parts := Split(RemoveAll(s, UriPrefix), Separator);
        assert |parts| >= 3 ==> parts[2] in parts;
        AsNullable(Decode(types, parts))
  }

  /** `parse` as evidently intended: only the leading prefix is removed. */
  function ParseLeadingPrefixOnly<T>(types: StructureTypes<T>, value: Option<string>)
    : (r: Result<Option<OpenEhrUri<T>>, ParseError>)
    ensures value.None? <==> r == Success(None)
    ensures value.Some? && !StartsWith(value.value, UriPrefix) ==> r == Failure(IllegalPrefix)
  {
    match value
    case None => Success(None)
    case Some(s) =>
      if !StartsWith(s, UriPrefix) then Failure(IllegalPrefix)
      else AsNullable(Decode(types, Split(s[|UriPrefix|..], Separator)))
  }

  // ---------------------------------------------------------------------
  // Facts about the prefix
  // ---------------------------------------------------------------------

  /** An occurrence of the prefix starts with `e` and ends with the separator. */
  lemma OccurrenceShape(s: string)
    ensures forall i :: OccursAt(s, UriPrefix, i) ==> s[i] == 'e' && s[i + 4] == Separator
  {
    forall i | OccursAt(s, UriPrefix, i)
      ensures s[i] == 'e' && s[i + 4] == Separator
    {
      assert s[i..i + 5][0] == s[i] && s[i..i + 5][4] == s[i + 4];
    }
  }

  lemma NoSeparatorNoPrefix(s: string)
    requires Separator !in s
    ensures !Occurs(s, UriPrefix)
  {
    forall i | 0 <= i
      ensures !OccursAt(s, UriPrefix, i)
    {
      if i + |UriPrefix| <= |s| {
        assert s[i..i + |UriPrefix|][4] == s[i + 4];
        assert s[i + 4] in s;
      }
    }
  }

  /** The scan deletes the leading prefix and carries on after it. */
  lemma RemoveAllLeadingPrefix(x: string)
    ensures RemoveAll(UriPrefix + x, UriPrefix) == RemoveAll(x, UriPrefix)
  {
    assert (UriPrefix + x)[..|UriPrefix|] == UriPrefix;
    assert (UriPrefix + x)[|UriPrefix|..] == x;
  }

  /** No occurrence of the prefix crosses the end of a text that is empty or ends with the separator. */
  lemma AfterSeparatorNoStraddle(x: string, z: string)
    requires x == "" || x[|x| - 1] == Separator
    ensures NoStraddle(x, z, UriPrefix)
  {
    forall i | 0 <= i < |x| < i + |UriPrefix|
      ensures !OccursAt(x + z, UriPrefix, i)
    {
      if i + |UriPrefix| <= |x + z| {
        var k := |x| - 1 - i;
        assert (x + z)[i..i + |UriPrefix|][k] == Separator;
        assert UriPrefix[k] != Separator;
      }
    }
  }

  /** No occurrence crosses the end of a text into one more separator unless the text ends with the stem. */
  lemma StemlessEndNoStraddle(x: string)
    requires !EndsWith(x, PrefixStem)
    ensures NoStraddle(x, [Separator], UriPrefix)
  {
    forall i | 0 <= i < |x| < i + |UriPrefix|
      ensures !OccursAt(x + [Separator], UriPrefix, i)
    {
      if i + |UriPrefix| <= |x| + 1 {
        assert (x + [Separator])[i..i + |UriPrefix|][..4] == x[|x| - 4..];
        assert UriPrefix[..4] == PrefixStem;
      }
    }
  }

  /** A separator-free segment that does not end with the stem, a separator, then prefix-free text. */
  lemma JoinedPairAvoidsPrefix(a: string, b: string)
    requires Separator !in a && !EndsWith(a, PrefixStem) && !Occurs(b, UriPrefix)
    ensures !Occurs(a + [Separator] + b, UriPrefix)
  {
    var s := a + [Separator] + b;
    var n := |a|;
    forall i | 0 <= i
      ensures !OccursAt(s, UriPrefix, i)
    {
      if i + 5 > |s| {
      } else if i + 4 < n {
        assert s[i..i + 5][4] == a[i + 4];
        assert a[i + 4] in a;
      } else if i + 4 == n {
        assert s[i..i + 5][..4] == a[n - 4..];
        assert UriPrefix[..4] == PrefixStem;
      } else if i <= n {
        assert s[i..i + 5][n - i] == Separator;
        assert UriPrefix[n - i] != Separator;
      } else {
        assert s[i..i + 5] == b[i - n - 1..i - n + 4];
        assert !OccursAt(b, UriPrefix, i - n - 1);
      }
    }
  }

  /** The joined segments hold no prefix when none but the last ends with the stem. */
  lemma {:induction false} JoinAvoidsPrefix(segments: seq<string>)
    requires |segments| >= 1
    requires forall i :: 0 <= i < |segments| ==> Separator !in segments[i]
    requires forall i :: 0 <= i < |segments| - 1 ==> !EndsWith(segments[i], PrefixStem)
    ensures !Occurs(Join(segments, Separator), UriPrefix)
    decreases |segments|
  {
    if |segments| == 1 {
      NoSeparatorNoPrefix(segments[0]);
    } else {
      JoinAvoidsPrefix(segments[1..]);
      JoinedPairAvoidsPrefix(segments[0], Join(segments[1..], Separator));
    }
  }

  // ---------------------------------------------------------------------
  // Round trip
  // ---------------------------------------------------------------------

  /**
   * What a uri needs for `parse` to give it back from its formatted text:
   * non-empty, separator-free EHR id, uri type and uid, no uid without a
   * type, and `fromUriType` inverting `getUriType` on the type.
   */
  ghost predicate Formattable<T>(types: StructureTypes<T>, u: OpenEhrUri<T>) {
    && ValidSegment(u.ehrId)
    && (u.uid.Some? ==> u.structureType.Some? && ValidSegment(u.uid.value))
    && (u.structureType.Some? ==>
          && ValidSegment(types.uriType(u.structureType.value))
          && types.fromUriType(types.uriType(u.structureType.value)) == Found(u.structureType.value))
  }

  lemma DecodeSegments<T>(types: StructureTypes<T>, u: OpenEhrUri<T>)
    requires Formattable(types, u)
    ensures forall i :: 0 <= i < |Segments(types, u)| ==> ValidSegment(Segments(types, u)[i])
    ensures Decode(types, Segments(types, u)) == Success(u)
  {
  }

  /**
   * `parse(format(u)) == u` for a formattable uri whose segments, except
   * the last, do not end with `ehr:`.
   */
  lemma ParseFormatRoundTrip<T>(types: StructureTypes<T>, u: OpenEhrUri<T>)
    requires Formattable(types, u)
    requires u.structureType.Some? ==> !EndsWith(u.ehrId, PrefixStem)
    requires u.uid.Some? ==> !EndsWith(types.uriType(u.structureType.value), PrefixStem)
    ensures Parse(types, Some(Formatted(types, u))) == Success(Some(u))
  {
    var segments := Segments(types, u);
    DecodeSegments(types, u);
    JoinAvoidsPrefix(segments);
    var joined := Join(segments, Separator);
    RemoveAllLeadingPrefix(joined);
    RemoveAllWithoutOccurrence(joined, UriPrefix);
    SplitJoin(segments, Separator);
  }

  /** The corrected parser gives back every formattable uri. */
  lemma ParseLeadingPrefixOnlyRoundTrip<T>(types: StructureTypes<T>, u: OpenEhrUri<T>)
    requires Formattable(types, u)
    ensures ParseLeadingPrefixOnly(types, Some(Formatted(types, u))) == Success(Some(u))
  {
    var segments := Segments(types, u);
    DecodeSegments(types, u);
    var joined := Join(segments, Separator);
    assert (UriPrefix + joined)[|UriPrefix|..] == joined;
    SplitJoin(segments, Separator);
  }

  /** Without an `ehr:/` after the leading one, the two parsers agree. */
  lemma ParsersAgreeWithoutEmbeddedPrefix<T>(types: StructureTypes<T>, s: string)
    requires StartsWith(s, UriPrefix) && !Occurs(s[|UriPrefix|..], UriPrefix)
    ensures Parse(types, Some(s)) == ParseLeadingPrefixOnly(types, Some(s))
  {
    assert s == UriPrefix + s[|UriPrefix|..];
    RemoveAllLeadingPrefix(s[|UriPrefix|..]);
    RemoveAllWithoutOccurrence(s[|UriPrefix|..], UriPrefix);
  }

  /**
   * As written, `parse` also deletes the `ehr:/` that `format` spells
   * when the EHR id is `ehr:`: the type's uri string becomes the EHR id and
   * the type is lost.
   */
  lemma ParseLosesSegmentAfterStem<T>(types: StructureTypes<T>, t: T)
    requires ValidSegment(types.uriType(t)) && types.fromUriType(types.uriType(t)) == Found(t)
    ensures Formattable(types, OpenEhrUri(PrefixStem, Some(t), None))
    ensures Parse(types, Some(Formatted(types, OpenEhrUri(PrefixStem, Some(t), None))))
         == Success(Some(OpenEhrUri(types.uriType(t), None, None)))
  {
    var x := types.uriType(t);
    var u := OpenEhrUri(PrefixStem, Some(t), None);
    FormattedLayout(types, u);
    assert Formatted(types, u) == UriPrefix + (UriPrefix + x);
    RemoveAllLeadingPrefix(UriPrefix + x);
    RemoveAllLeadingPrefix(x);
    NoSeparatorNoPrefix(x);
    RemoveAllWithoutOccurrence(x, UriPrefix);
  }

  /**
   * `parse` then `format` gives the prefix and the text left after the
   * prefixes are deleted, without its trailing slashes; when no prefix
   * is embedded, that is the input without its trailing slashes. Only the
   * type segment that `parse` looks up has to be found and spelled back
   * the same way.
   */
  lemma FormatAfterParse<T>(types: StructureTypes<T>, s: string, u: OpenEhrUri<T>)
    requires Parse(types, Some(s)) == Success(Some(u))
    requires var parts := Split(RemoveAll(s, UriPrefix), Separator);
      |parts| >= 2 ==>
        types.fromUriType(parts[1]).Found? && types.uriType(types.fromUriType(parts[1]).structureType) == parts[1]
    ensures Formatted(types, u) == UriPrefix + TrimEnd(RemoveAll(s, UriPrefix), Separator)
    ensures !Occurs(s[|UriPrefix|..], UriPrefix) ==> Formatted(types, u) == TrimEnd(s, Separator)
  {
    var rest := RemoveAll(s, UriPrefix);
    var parts := Split(rest, Separator);
    assert Decode(types, parts) == Success(u);
    var segments := Segments(types, u);
    assert |segments| == |parts|;
    assert forall i :: 0 <= i < |parts| ==> segments[i] == parts[i];
    SameElements(segments, parts);
    JoinSplit(rest, Separator);
    if !Occurs(s[|UriPrefix|..], UriPrefix) {
      assert s == UriPrefix + s[|UriPrefix|..];
      RemoveAllLeadingPrefix(s[|UriPrefix|..]);
      RemoveAllWithoutOccurrence(s[|UriPrefix|..], UriPrefix);
      assert parts[0] in parts;
      TrimEndBehindPrefix(s[|UriPrefix|..]);
    }
  }

  lemma SameElements<X>(p: seq<X>, q: seq<X>)
    requires |p| == |q| && forall i :: 0 <= i < |p| ==> p[i] == q[i]
    ensures p == q
  {
  }

  lemma {:induction false} TrimEndBehindPrefix(y: string)
    requires TrimEnd(y, Separator) != ""
    ensures TrimEnd(UriPrefix + y, Separator) == UriPrefix + TrimEnd(y, Separator)
    decreases |y|
  {
    if y[|y| - 1] == Separator {
      assert (UriPrefix + y)[..|UriPrefix + y| - 1] == UriPrefix + y[..|y| - 1];
      TrimEndBehindPrefix(y[..|y| - 1]);
    }
  }

  // ---------------------------------------------------------------------
  // What parse accepts and rejects
  // ---------------------------------------------------------------------

  /**
   * An empty segment that opens the path or follows a separator is
   * rejected when something other than separators comes after it.
   */
  lemma ParseRejectsEmptySegment<T>(types: StructureTypes<T>, a: string, b: string, j: nat)
    requires a == "" || a[|a| - 1] == Separator
    requires j < |b| && b[j] != Separator
    requires !Occurs(a + [Separator] + b, UriPrefix)
    ensures Parse(types, Some(UriPrefix + a + [Separator] + b)) == Failure(EmptyPart)
  {
    var x := a + [Separator] + b;
    assert UriPrefix + a + [Separator] + b == UriPrefix + x;
    RemoveAllLeadingPrefix(x);
    RemoveAllWithoutOccurrence(x, UriPrefix);
    SplitKeepsInteriorEmpty(a, b, Separator, j);
  }

  /** More than three segments are rejected. */
  lemma ParseRejectsTooManySegments<T>(types: StructureTypes<T>, segments: seq<string>)
    requires |segments| > 3
    requires forall i :: 0 <= i < |segments| ==> ValidSegment(segments[i])
    requires !Occurs(Join(segments, Separator), UriPrefix)
    ensures Parse(types, Some(UriPrefix + Join(segments, Separator))) == Failure(IllegalNumberOfParts)
  {
    var joined := Join(segments, Separator);
    RemoveAllLeadingPrefix(joined);
    RemoveAllWithoutOccurrence(joined, UriPrefix);
    SplitJoin(segments, Separator);
  }

  /** A path made only of separators leaves no segment at all. */
  lemma ParseRejectsOnlySeparators<T>(types: StructureTypes<T>, x: string)
    requires x != ""
    requires forall i :: 0 <= i < |x| ==> x[i] == Separator
    ensures Parse(types, Some(UriPrefix + x)) == Failure(IllegalNumberOfParts)
  {
    OccurrenceShape(x);
    RemoveAllLeadingPrefix(x);
    RemoveAllWithoutOccurrence(x, UriPrefix);
    SplitOnlySeparators(x, Separator);
  }

  /**
   * A trailing slash is tolerated, unless it completes an `ehr:/` or
   * nothing is left after `replaceAll`'s left-to-right deletion of `ehr:/`.
   */
  lemma ParseToleratesTrailingSlash<T>(types: StructureTypes<T>, s: string)
    requires StartsWith(s, UriPrefix)
    requires !EndsWith(s, PrefixStem)
    requires RemoveAll(s, UriPrefix) != ""
    ensures Parse(types, Some(s + [Separator])) == Parse(types, Some(s))
  {
    var x := s[|UriPrefix|..];
    assert s == UriPrefix + x;
    assert s + [Separator] == UriPrefix + (x + [Separator]);
    assert StartsWith(s + [Separator], UriPrefix);
    if |x| >= 4 {
      assert x[|x| - 4..] == s[|s| - 4..];
    }
    StemlessEndNoStraddle(x);
    RemoveAllLeadingPrefix(x);
    RemoveAllLeadingPrefix(x + [Separator]);
    RemoveAllAppend(x, [Separator], UriPrefix);
    assert RemoveAll([Separator], UriPrefix) == [Separator];
    SplitTrailingSeparator(RemoveAll(x, UriPrefix), Separator);
  }

  /** An `ehr:/` right after a separator is invisible to `parse`. */
  lemma ParseIgnoresEmbeddedPrefix<T>(types: StructureTypes<T>, x: string, y: string)
    requires x == "" || x[|x| - 1] == Separator
    ensures Parse(types, Some(UriPrefix + x + UriPrefix + y)) == Parse(types, Some(UriPrefix + x + y))
  {
    assert UriPrefix + x + UriPrefix + y == UriPrefix + (x + (UriPrefix + y));
    assert UriPrefix + x + y == UriPrefix + (x + y);
    assert StartsWith(UriPrefix + (x + (UriPrefix + y)), UriPrefix);
    assert StartsWith(UriPrefix + (x + y), UriPrefix);
    RemoveAllLeadingPrefix(x + (UriPrefix + y));
    AfterSeparatorNoStraddle(x, UriPrefix + y);
    RemoveAllAppend(x, UriPrefix + y, UriPrefix);
    RemoveAllLeadingPrefix(y);
    RemoveAllLeadingPrefix(x + y);
    AfterSeparatorNoStraddle(x, y);
    RemoveAllAppend(x, y, UriPrefix);
  }

  /**
   * One input per failure: a wrong-case prefix fails the `startsWith`
   * check, a bare prefix splits to one empty part, and a lone separator
   * splits to no part at all.
   */
  lemma ParseExamplesRejected<T>(types: StructureTypes<T>)
    ensures Parse(types, Some("EHR:/a")) == Failure(IllegalPrefix)
    ensures Parse(types, Some("ehr:/")) == Failure(EmptyPart)
    ensures Parse(types, Some("ehr://")) == Failure(IllegalNumberOfParts)
  {
    assert "EHR:/a"[0] != UriPrefix[0];
    RemoveAllLeadingPrefix("");
    assert UriPrefix == UriPrefix + "";
    ParseRejectsOnlySeparators(types, "/");
  }

  lemma ParseExamplesEmptySegment<T>(types: StructureTypes<T>)
    ensures Parse(types, Some("ehr://x")) == Failure(EmptyPart)
    ensures Parse(types, Some("ehr:/a//b")) == Failure(EmptyPart)
  {
    assert !Occurs("/x", UriPrefix);
    assert !Occurs("a//b", UriPrefix);
    assert UriPrefix + "" + [Separator] + "x" == "ehr://x";
    assert UriPrefix + "a/" + [Separator] + "b" == "ehr:/a//b";
    ParseRejectsEmptySegment(types, "", "x", 0);
    ParseRejectsEmptySegment(types, "a/", "b", 0);
  }

  lemma ParseExamplesAccepted<T>(types: StructureTypes<T>)
    ensures Parse(types, Some("ehr:/a/")) == Success(Some(OpenEhrUri("a", None, None)))
  {
    var a := "a";
    assert UriPrefix + a == "ehr:/a";
    NoSeparatorNoPrefix(a);
    RemoveAllLeadingPrefix(a);
    RemoveAllWithoutOccurrence(a, UriPrefix);
    ParseToleratesTrailingSlash(types, "ehr:/a");
    assert "ehr:/a" + [Separator] == "ehr:/a/";
    assert Split(a, Separator) == [a];
  }

  lemma ParseExamplesEmbeddedPrefix<T>(types: StructureTypes<T>)
    ensures Parse(types, Some("ehr:/a/ehr:/b")) == Parse(types, Some("ehr:/a/b"))
  {
    assert UriPrefix + "a/" + UriPrefix + "b" == "ehr:/a/ehr:/b";
    assert UriPrefix + "a/" + "b" == "ehr:/a/b";
    ParseIgnoresEmbeddedPrefix(types, "a/", "b");
  }

  lemma ParseExamplesTrailingSlashes<T>(types: StructureTypes<T>)
    ensures Parse(types, Some("ehr:/a/b//")) == Parse(types, Some("ehr:/a/b"))
  {
    assert !Occurs("a/b", UriPrefix) && !Occurs("a/b/", UriPrefix);
    assert UriPrefix + "a/b" == "ehr:/a/b" && UriPrefix + "a/b/" == "ehr:/a/b/";
    RemoveAllLeadingPrefix("a/b");
    RemoveAllLeadingPrefix("a/b/");
    RemoveAllWithoutOccurrence("a/b", UriPrefix);
    RemoveAllWithoutOccurrence("a/b/", UriPrefix);
    ParseToleratesTrailingSlash(types, "ehr:/a/b");
    ParseToleratesTrailingSlash(types, "ehr:/a/b/");
    assert "ehr:/a/b" + [Separator] == "ehr:/a/b/" && "ehr:/a/b/" + [Separator] == "ehr:/a/b//";
  }

  /** An embedded `ehr:/` does not stop a trailing slash from being tolerated. */
  lemma ParseExamplesEmbeddedTrailingSlash<T>(types: StructureTypes<T>)
    ensures Parse(types, Some("ehr:/a/ehr:/b/")) == Parse(types, Some("ehr:/a/ehr:/b"))
  {
    assert UriPrefix + ("a/" + (UriPrefix + "b")) == "ehr:/a/ehr:/b";
    RemoveAllLeadingPrefix("a/" + (UriPrefix + "b"));
    AfterSeparatorNoStraddle("a/", UriPrefix + "b");
    RemoveAllAppend("a/", UriPrefix + "b", UriPrefix);
    RemoveAllLeadingPrefix("b");
    assert !Occurs("a/", UriPrefix) && !Occurs("b", UriPrefix);
    RemoveAllWithoutOccurrence("a/", UriPrefix);
    RemoveAllWithoutOccurrence("b", UriPrefix);
    ParseToleratesTrailingSlash(types, "ehr:/a/ehr:/b");
    assert "ehr:/a/ehr:/b" + [Separator] == "ehr:/a/ehr:/b/";
  }
}
