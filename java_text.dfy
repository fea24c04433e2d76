/**
 * The few operations of java.lang.String that the core relies on, with
 * their Java semantics written out: `startsWith`, `endsWith`,
 * `replaceAll(p, "")` for a pattern that is a plain literal, and
 * `split(sep)` with a one-character separator and the default limit 0.
 */
module JavaText {

  /** `s.startsWith(p)` */
  predicate StartsWith(s: string, p: string) {
    |p| <= |s| && s[..|p|] == p
  }

  /** `s.endsWith(p)` */
  predicate EndsWith(s: string, p: string) {
    |p| <= |s| && s[|s| - |p|..] == p
  }

  /** `p` occurs in `s` starting at index `i`. */
  predicate OccursAt(s: string, p: string, i: int) {
    0 <= i && i + |p| <= |s| && s[i..i + |p|] == p
  }

  ghost predicate Occurs(s: string, p: string) {
    exists i :: OccursAt(s, p, i)
  }

  lemma OccursAtShift(s: string, p: string, d: nat, i: nat)
    requires d <= |s|
    ensures OccursAt(s[d..], p, i) <==> OccursAt(s, p, i + d)
  {
    if i + |p| <= |s| - d {
      assert s[d..][i..i + |p|] == s[i + d..i + d + |p|];
    }
  }

  lemma StartsWithAppend(x: string, z: string, p: string)
    ensures StartsWith(x, p) ==> StartsWith(x + z, p)
  {
    if |p| <= |x| {
      assert (x + z)[..|p|] == x[..|p|];
    }
  }

  // ---------------------------------------------------------------------
  // replaceAll(p, "") for a literal pattern p
  // ---------------------------------------------------------------------

  /**
   * `s.replaceAll(p, "")` when `p` has no regular-expression metacharacters:
   * the matcher scans left to right and deletes each leftmost,
   * non-overlapping occurrence; scanning resumes after the deleted text,
   * so text that comes together only after a deletion is kept.
   */
  function RemoveAll(s: string, p: string): (r: string)
    requires p != ""
    ensures |r| <= |s|
    decreases |s|
  {
    if s == "" then ""
    else if StartsWith(s, p) then RemoveAll(s[|p|..], p)
    else [s[0]] + RemoveAll(s[1..], p)
  }

  /** Text in which the pattern does not occur is returned unchanged. */
  lemma {:induction false} RemoveAllWithoutOccurrence(s: string, p: string)
    requires p != "" && !Occurs(s, p)
    ensures RemoveAll(s, p) == s
    decreases |s|
  {
    if s != "" {
      assert !OccursAt(s, p, 0);
      assert !StartsWith(s, p);
      assert !Occurs(s[1..], p) by {
        forall i: nat ensures !OccursAt(s[1..], p, i) {
          OccursAtShift(s, p, 1, i);
        }
      }
      RemoveAllWithoutOccurrence(s[1..], p);
      assert s == [s[0]] + s[1..];
    }
  }

  /** Something is deleted exactly when the pattern occurs somewhere in the text. */
  lemma {:induction false} RemoveAllShortensIffOccurs(s: string, p: string)
    requires p != ""
    ensures |RemoveAll(s, p)| < |s| <==> Occurs(s, p)
    decreases |s|
  {
    if s == "" {
      assert !Occurs(s, p);
    } else if StartsWith(s, p) {
      assert OccursAt(s, p, 0);
    } else {
      RemoveAllShortensIffOccurs(s[1..], p);
      assert !OccursAt(s, p, 0);
      if Occurs(s, p) {
        var i :| OccursAt(s, p, i);
        OccursAtShift(s, p, 1, i - 1);
        assert OccursAt(s[1..], p, i - 1);
      }
      if Occurs(s[1..], p) {
        var i: nat :| OccursAt(s[1..], p, i);
        OccursAtShift(s, p, 1, i);
      }
    }
  }

  /** No occurrence of `p` in `x + z` starts inside `x` and ends inside `z`. */
  ghost predicate NoStraddle(x: string, z: string, p: string) {
    forall i :: 0 <= i < |x| < i + |p| ==> !OccursAt(x + z, p, i)
  }

  lemma NoStraddleDrop(x: string, z: string, p: string, d: nat)
    requires d <= |x| && NoStraddle(x, z, p)
    ensures NoStraddle(x[d..], z, p)
  {
    assert x[d..] + z == (x + z)[d..];
    forall i | 0 <= i < |x[d..]| < i + |p|
      ensures !OccursAt(x[d..] + z, p, i)
    {
      OccursAtShift(x + z, p, d, i);
    }
  }

  /**
   * Deleting the pattern distributes over a concatenation when no
   * occurrence crosses the boundary.
   */
  lemma {:induction false} RemoveAllAppend(x: string, z: string, p: string)
    requires p != "" && NoStraddle(x, z, p)
    ensures RemoveAll(x + z, p) == RemoveAll(x, p) + RemoveAll(z, p)
    decreases |x|
  {
    if x == "" {
      assert x + z == z;
    } else {
      StartsWithAppend(x, z, p);
      if StartsWith(x + z, p) {
        assert OccursAt(x + z, p, 0);
        assert |p| <= |x|;
        assert (x + z)[..|p|] == x[..|p|];
        assert (x + z)[|p|..] == x[|p|..] + z;
        NoStraddleDrop(x, z, p, |p|);
        RemoveAllAppend(x[|p|..], z, p);
      } else {
        assert (x + z)[1..] == x[1..] + z;
        NoStraddleDrop(x, z, p, 1);
        RemoveAllAppend(x[1..], z, p);
      }
    }
  }

  // ---------------------------------------------------------------------
  // split(sep) with limit 0, and its inverse join
  // ---------------------------------------------------------------------

  /**
   * Every piece between separators, empty ones included: the text is read
   * from its end, a separator opening a new piece.
   */
  function Pieces(s: string, sep: char): (r: seq<string>)
    ensures |r| >= 1
    ensures forall i :: 0 <= i < |r| ==> sep !in r[i]
    decreases |s|
  {
    if s == "" then [""]
    else
      var rest := Pieces(s[1..], sep);
      if s[0] == sep then [""] + rest
      else [[s[0]] + rest[0]] + rest[1..]
  }

  /** `String.join(sep, parts)` */
  function Join(parts: seq<string>, sep: char): string
    requires |parts| >= 1
  {
    if |parts| == 1 then parts[0] else parts[0] + [sep] + Join(parts[1..], sep)
  }

  /** The list without its trailing empty strings. */
  function DropTrailingEmpty(parts: seq<string>): (r: seq<string>)
    ensures r <= parts
    ensures r == [] || r[|r| - 1] != ""
    ensures forall i :: |r| <= i < |parts| ==> parts[i] == ""
    decreases |parts|
  {
    if parts == [] || parts[|parts| - 1] != "" then parts
    else DropTrailingEmpty(parts[..|parts| - 1])
  }

  /**
   * `s.split(sep)`: with no separator in `s` the result is `[s]` (so `""`
   * gives `[""]`); otherwise the pieces, of which the trailing empty ones
   * are discarded. A leading separator yields a leading empty piece.
   */
  function Split(s: string, sep: char): (r: seq<string>)
    ensures sep !in s ==> r == [s]
    ensures forall i :: 0 <= i < |r| ==> sep !in r[i]
  {
    if sep in s then DropTrailingEmpty(Pieces(s, sep)) else [s]
  }

  /** Removes every trailing `sep`. */
  function TrimEnd(s: string, sep: char): (r: string)
    ensures r <= s
    ensures r == "" || r[|r| - 1] != sep
    ensures forall i :: |r| <= i < |s| ==> s[i] == sep
    decreases |s|
  {
    if s != "" && s[|s| - 1] == sep then TrimEnd(s[..|s| - 1], sep) else s
  }

  /** A text without separators is a single piece. */
  lemma {:induction false} PiecesNoSeparator(s: string, sep: char)
    requires sep !in s
    ensures Pieces(s, sep) == [s]
    decreases |s|
  {
    if s != "" {
      assert s[0] in s;
      PiecesNoSeparator(s[1..], sep);
      assert s == [s[0]] + s[1..];
    }
  }

  /** Joining the pieces gives back the text. */
  lemma {:induction false} JoinPieces(s: string, sep: char)
    ensures Join(Pieces(s, sep), sep) == s
    decreases |s|
  {
    if s != "" {
      var rest := Pieces(s[1..], sep);
      JoinPieces(s[1..], sep);
      assert s == [s[0]] + s[1..];
      if s[0] != sep && |rest| > 1 {
        assert ([[s[0]] + rest[0]] + rest[1..])[1..] == rest[1..];
      }
    }
  }

  /** A separator between two texts separates their pieces. */
  lemma {:induction false} PiecesAppend(a: string, b: string, sep: char)
    ensures Pieces(a + [sep] + b, sep) == Pieces(a, sep) + Pieces(b, sep)
    decreases |a|
  {
    if a == "" {
      assert a + [sep] + b == [sep] + b;
      PiecesCons(sep, b, sep);
    } else {
      PiecesAppend(a[1..], b, sep);
      PiecesAppendCons(a[0], a[1..], b, sep);
      assert [a[0]] + a[1..] == a;
    }
  }

  /** The induction step of PiecesAppend. */
  lemma PiecesAppendCons(c: char, a: string, b: string, sep: char)
    requires Pieces(a + [sep] + b, sep) == Pieces(a, sep) + Pieces(b, sep)
    ensures Pieces([c] + a + [sep] + b, sep) == Pieces([c] + a, sep) + Pieces(b, sep)
  {
    var t := a + [sep] + b;
    var p, q := Pieces(a, sep), Pieces(b, sep);
    assert [c] + a + [sep] + b == [c] + t;
    PiecesCons(c, t, sep);
    PiecesCons(c, a, sep);
    if c == sep {
      ConsAppend("", p, q);
    } else {
      DropOneOfAppend(p, q);
      ConsAppend([c] + p[0], p[1..], q);
    }
  }

  lemma ConsAppend<T>(x: T, p: seq<T>, q: seq<T>)
    ensures [x] + (p + q) == ([x] + p) + q
  {
  }

  /** Stated for any element type, so that no reasoning about the elements is tried. */
  lemma DropOneOfAppend<T>(p: seq<T>, q: seq<T>)
    requires |p| >= 1
    ensures (p + q)[0] == p[0] && (p + q)[1..] == p[1..] + q
  {
  }

  /** The pieces of a text with one more character in front. */
  lemma PiecesCons(c: char, t: string, sep: char)
    ensures Pieces([c] + t, sep) ==
      if c == sep then [""] + Pieces(t, sep)
      else [[c] + Pieces(t, sep)[0]] + Pieces(t, sep)[1..]
  {
    assert ([c] + t)[1..] == t;
  }

  /** Splitting a join of separator-free parts gives back the parts. */
  lemma {:induction false} PiecesJoin(parts: seq<string>, sep: char)
    requires |parts| >= 1
    requires forall i :: 0 <= i < |parts| ==> sep !in parts[i]
    ensures Pieces(Join(parts, sep), sep) == parts
    decreases |parts|
  {
    PiecesNoSeparator(parts[0], sep);
    if |parts| > 1 {
      PiecesAppend(parts[0], Join(parts[1..], sep), sep);
      PiecesJoin(parts[1..], sep);
    }
  }

  lemma {:induction false} DropTrailingEmptyAppend(xs: seq<string>, ys: seq<string>, j: nat)
    requires j < |ys| && ys[j] != ""
    ensures DropTrailingEmpty(xs + ys) == xs + DropTrailingEmpty(ys)
    decreases |ys|
  {
    if ys[|ys| - 1] == "" {
      assert (xs + ys)[..|xs + ys| - 1] == xs + ys[..|ys| - 1];
      DropTrailingEmptyAppend(xs, ys[..|ys| - 1], j);
    }
  }

  /** A text with a character other than the separator has a non-empty piece. */
  lemma {:induction false} PiecesNotAllEmpty(b: string, sep: char, j: nat)
    requires j < |b| && b[j] != sep
    ensures exists i :: 0 <= i < |Pieces(b, sep)| && Pieces(b, sep)[i] != ""
    decreases |b|
  {
    if b[0] != sep {
      assert Pieces(b, sep)[0] != "";
    } else {
      PiecesNotAllEmpty(b[1..], sep, j - 1);
      var i :| 0 <= i < |Pieces(b[1..], sep)| && Pieces(b[1..], sep)[i] != "";
      assert Pieces(b, sep)[i + 1] != "";
    }
  }

  /** `split` drops one trailing separator of a non-empty text. */
  lemma SplitTrailingSeparator(s: string, sep: char)
    requires s != ""
    ensures Split(s + [sep], sep) == Split(s, sep)
  {
    var ps := Pieces(s, sep);
    PiecesAppend(s, "", sep);
    assert s + [sep] + "" == s + [sep];
    assert (s + [sep])[|s|] == sep;
    TakeOfSnoc(ps, "");
    assert DropTrailingEmpty(ps + [""]) == DropTrailingEmpty(ps);
    if sep !in s {
      PiecesNoSeparator(s, sep);
    }
  }

  lemma TakeOfSnoc<T>(p: seq<T>, x: T)
    ensures (p + [x])[..|p|] == p
  {
  }

  /**
   * An empty piece that starts the text or follows a separator survives
   * `split` when something other than separators comes after it.
   */
  lemma SplitKeepsInteriorEmpty(a: string, b: string, sep: char, j: nat)
    requires a == "" || a[|a| - 1] == sep
    requires j < |b| && b[j] != sep
    ensures "" in Split(a + [sep] + b, sep)
  {
    PiecesAppend(a, b, sep);
    var pa := Pieces(a, sep);
    if a == "" {
      assert pa == [""];
    } else {
      var a' := a[..|a| - 1];
      assert a == a' + [sep] + "";
      PiecesAppend(a', "", sep);
    }
    assert pa[|pa| - 1] == "";
    PiecesNotAllEmpty(b, sep, j);
    var i :| 0 <= i < |Pieces(b, sep)| && Pieces(b, sep)[i] != "";
    DropTrailingEmptyAppend(pa, Pieces(b, sep), i);
    assert sep in a + [sep] + b by { assert (a + [sep] + b)[|a|] == sep; }
    assert Split(a + [sep] + b, sep)[|pa| - 1] == "";
  }

  /** A non-empty text made only of separators splits into nothing. */
  lemma {:induction false} SplitOnlySeparators(s: string, sep: char)
    requires s != ""
    requires forall j :: 0 <= j < |s| ==> s[j] == sep
    ensures Split(s, sep) == []
  {
    PiecesOfSeparators(s, sep);
    assert s[0] in s;
  }

  lemma {:induction false} PiecesOfSeparators(s: string, sep: char)
    requires forall j :: 0 <= j < |s| ==> s[j] == sep
    ensures forall i :: 0 <= i < |Pieces(s, sep)| ==> Pieces(s, sep)[i] == ""
    decreases |s|
  {
    if s != "" {
      PiecesOfSeparators(s[1..], sep);
    }
  }

  /** Splitting a join of non-empty separator-free parts gives back the parts. */
  lemma SplitJoin(parts: seq<string>, sep: char)
    requires |parts| >= 1
    requires forall i :: 0 <= i < |parts| ==> parts[i] != "" && sep !in parts[i]
    ensures Split(Join(parts, sep), sep) == parts
  {
    PiecesJoin(parts, sep);
    if |parts| > 1 {
      assert Join(parts, sep)[|parts[0]|] == sep;
    }
  }

  lemma {:induction false} JoinDropTrailingEmpty(ps: seq<string>, sep: char)
    requires |ps| >= 1
    requires DropTrailingEmpty(ps) != []
    ensures TrimEnd(Join(ps, sep), sep) == TrimEnd(Join(DropTrailingEmpty(ps), sep), sep)
    decreases |ps|
  {
    if ps[|ps| - 1] == "" {
      var qs := ps[..|ps| - 1];
      assert ps == qs + [""];
      assert DropTrailingEmpty(ps) == DropTrailingEmpty(qs);
      assert |qs| >= 1;
      JoinSnoc(qs, "", sep);
      var j := Join(qs, sep);
      assert Join(ps, sep) == j + [sep];
      assert TrimEnd(j + [sep], sep) == TrimEnd(j, sep) by {
        assert (j + [sep])[..|j|] == j;
      }
      JoinDropTrailingEmpty(qs, sep);
    }
  }

  lemma {:induction false} JoinSnoc(ps: seq<string>, x: string, sep: char)
    requires |ps| >= 1
    ensures Join(ps + [x], sep) == Join(ps, sep) + [sep] + x
    decreases |ps|
  {
    if |ps| > 1 {
      assert (ps + [x])[1..] == ps[1..] + [x];
      JoinSnoc(ps[1..], x, sep);
    }
  }

  /** The join of parts whose last one is non-empty and separator-free has no trailing separator. */
  lemma {:induction false} JoinEndsWithLastPart(ps: seq<string>, sep: char)
    requires |ps| >= 1 && ps[|ps| - 1] != "" && sep !in ps[|ps| - 1]
    ensures TrimEnd(Join(ps, sep), sep) == Join(ps, sep)
    decreases |ps|
  {
    if |ps| > 1 {
      JoinEndsWithLastPart(ps[1..], sep);
    }
  }

  /**
   * When `split` keeps at least one piece and no empty ones, joining them
   * gives back the text without its trailing separators.
   */
  lemma JoinSplit(s: string, sep: char)
    requires Split(s, sep) != [] && "" !in Split(s, sep)
    ensures Join(Split(s, sep), sep) == TrimEnd(s, sep)
  {
    var r := Split(s, sep);
    assert r[|r| - 1] in r;
    JoinEndsWithLastPart(r, sep);
    if sep in s {
      JoinPieces(s, sep);
      JoinDropTrailingEmpty(Pieces(s, sep), sep);
    }
  }
}
