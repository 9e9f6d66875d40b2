/** How splitPDF names its outputs: the base name taken from the input path,
    the `NAME-partNN.pdf` file names and the `start-end` page selections it
    hands to the extraction collaborator. Paths use '/' as their only
    separator. */
module Naming {
  import opened Fmt
  import opened Optional

  /** `path` without its trailing run of '/'. */
  function TrimTrailingSlashes(path: string): (r: string)
    ensures r <= path
    ensures r == [] || r[|r| - 1] != '/'
    ensures forall i :: |r| <= i < |path| ==> path[i] == '/'
  {
    if path != [] && path[|path| - 1] == '/' then TrimTrailingSlashes(path[..|path| - 1]) else path
  }

  /** The part of `path` after its last '/', all of it when it has none. */
  function AfterLastSlash(path: string): (r: string)
    ensures |r| <= |path| && r == path[|path| - |r|..]
    ensures '/' !in r
    ensures |r| < |path| ==> path[|path| - |r| - 1] == '/'
  {
    if path == [] || path[|path| - 1] == '/' then []
    else AfterLastSlash(path[..|path| - 1]) + [path[|path| - 1]]
  }

  /** `e` is the element of `path` that ends at position `k`: it is
      preceded by '/' or the start of the path, and only '/' follows it. */
  predicate ElementEndingAt(path: string, e: string, k: int) {
    && |e| <= k <= |path| && path[k - |e|..k] == e
    && (k == |e| || path[k - |e| - 1] == '/')
    && forall i :: k <= i < |path| ==> path[i] == '/'
  }

  /** Go's filepath.Base: the last element of `path` once trailing slashes
      are dropped; "." for the empty path and "/" for a path of slashes. */
  function Base(path: string): (r: string)
    ensures r != []
    ensures path == [] ==> r == "."
    ensures r == "/" || '/' !in r
    ensures path != [] && (forall i :: 0 <= i < |path| ==> path[i] == '/') ==> r == "/"
    ensures path != [] && '/' !in path ==> r == path
  {
    if path == [] then "."
    else
      var trimmed := TrimTrailingSlashes(path);
      if trimmed == [] then "/"
      else
        AfterLastSlash(trimmed)
  }

  /** Which element filepath.Base returns: for a path with a character
      other than '/', not "/" but the last element, the one that ends where
      the trailing slashes begin. */
  lemma {:induction false} BaseIsLastElement(path: string)
    requires exists i :: 0 <= i < |path| && path[i] != '/'
    ensures Base(path) != "/" && exists k :: ElementEndingAt(path, Base(path), k)
  {
    var j :| 0 <= j < |path| && path[j] != '/';
    var trimmed := TrimTrailingSlashes(path);
    assert |trimmed| > j;
    var r := AfterLastSlash(trimmed);
    assert r != [] by {
      assert trimmed[|trimmed| - 1] != '/';
    }
    assert Base(path) == r;
    ElementOfTrimmed(path, trimmed, r);
  }

  lemma ElementOfTrimmed(path: string, trimmed: string, r: string)
    requires trimmed <= path && forall i :: |trimmed| <= i < |path| ==> path[i] == '/'
    requires |r| <= |trimmed| && r == trimmed[|trimmed| - |r|..]
    requires |r| < |trimmed| ==> trimmed[|trimmed| - |r| - 1] == '/'
    ensures ElementEndingAt(path, r, |trimmed|)
  {
    assert path[|trimmed| - |r|..|trimmed|] == r;
  }

  lemma {:induction false} AfterLastSlashOfJoined(dir: string, name: string)
    requires '/' !in name
    ensures AfterLastSlash(dir + "/" + name) == name
    decreases |name|
  {
    var p := dir + "/" + name;
    if name == [] {
      assert p[|p| - 1] == '/';
    } else {
      assert p[..|p| - 1] == dir + "/" + name[..|name| - 1];
      AfterLastSlashOfJoined(dir, name[..|name| - 1]);
      assert name == name[..|name| - 1] + [name[|name| - 1]];
    }
  }

  /** The base of `dir/name` is `name` when `name` is a non-empty element. */
  lemma BaseOfJoined(dir: string, name: string)
    requires name != [] && '/' !in name
    ensures Base(dir + "/" + name) == name
  {
    var p := dir + "/" + name;
    assert p[|p| - 1] == name[|name| - 1];
    assert TrimTrailingSlashes(p) == p;
    AfterLastSlashOfJoined(dir, name);
  }

  /** Go's filepath.Ext: the suffix of the last element of `path` that
      starts at its last '.', or "" when that element has no '.'. */
  function Ext(path: string): (r: string)
    ensures |r| <= |path| && r == path[|path| - |r|..]
    ensures r == [] || r[0] == '.'
    ensures forall i :: 0 < i < |r| ==> r[i] != '.' && r[i] != '/'
  {
    if path == [] || path[|path| - 1] == '/' then []
    else if path[|path| - 1] == '.' then "."
    else
      var e := Ext(path[..|path| - 1]);
      if e == [] then [] else e + [path[|path| - 1]]
  }

  /** filepath.Ext is empty exactly when the last element of the path has
      no '.'. */
  lemma {:induction false} ExtFindsDot(path: string)
    ensures Ext(path) == [] <==> '.' !in AfterLastSlash(path)
  {
    if path != [] && path[|path| - 1] != '/' && path[|path| - 1] != '.' {
      ExtFindsDot(path[..|path| - 1]);
    }
  }

  predicate HasPdfSuffix(name: string) {
    |name| >= 4 && name[|name| - 4..] == ".pdf"
  }

  /** Ext of a name that ends in a character other than '.' and '/' is
      Ext of the rest with that character appended, when the rest has one. */
  lemma ExtAppend(p: string, c: char)
    requires c != '.' && c != '/'
    ensures Ext(p + [c]) == if Ext(p) == [] then [] else Ext(p) + [c]
  {
    assert (p + [c])[..|p|] == p;
  }

  lemma ExtAfterDot(p: string)
    ensures Ext(p + ['.']) == "."
  {
  }

  /** filepath.Ext reports ".pdf" exactly for names ending in ".pdf". */
  lemma {:induction false} ExtIsPdf(name: string)
    ensures Ext(name) == ".pdf" <==> HasPdfSuffix(name)
  {
    if HasPdfSuffix(name) {
      PdfSuffixGivesExt(name[..|name| - 4]);
      assert name == name[..|name| - 4] + ".pdf";
    } else if Ext(name) == ".pdf" {
      ExtIsSuffix(name);
    }
  }

  lemma PdfSuffixGivesExt(p: string)
    ensures Ext(p + ".pdf") == ".pdf"
  {
    var a := p + ['.'];
    var b := a + ['p'];
    var c := b + ['d'];
    var d := c + ['f'];
    ExtAfterDot(p);
    ExtAppend(a, 'p');
    assert Ext(b) == ['.', 'p'];
    ExtAppend(b, 'd');
    assert Ext(c) == ['.', 'p', 'd'];
    ExtAppend(c, 'f');
    assert Ext(d) == ['.', 'p', 'd', 'f'];
    assert d == p + ".pdf";
  }

  lemma ExtIsSuffix(name: string)
    requires Ext(name) == ".pdf"
    ensures HasPdfSuffix(name)
  {
    var e := Ext(name);
    assert name[|name| - |e|..] == e;
  }

  /** The base name of the outputs: a trailing ".pdf" (case-sensitive) is
      dropped when something is left in front of it; any other name is kept
      as it is. */
  function StripPdfExtension(name: string): (r: string)
    ensures |name| > 4 && HasPdfSuffix(name) ==> r + ".pdf" == name
    ensures !(|name| > 4 && HasPdfSuffix(name)) ==> r == name
  {
    ExtIsPdf(name);
    if |name| > 4 && Ext(name) == ".pdf" then name[..|name| - 4] else name
  }

  /** The base name splitPDF derives from its input path. */
  function OutputBase(input: string): string {
    StripPdfExtension(Base(input))
  }

  /** The output file name `base-partNN.pdf`. */
  function PartFilename(base: string, part: nat): string {
    base + "-part" + ZeroPadded(part, 2) + ".pdf"
  }

  /** A part file name is the base, "-part", the part number in decimal
      zero-padded to at least two digits (and unbounded above 99, with no
      leading zero from 10 on), then ".pdf". */
  lemma {:induction false} PartFilenameShape(base: string, part: nat)
    ensures var r := PartFilename(base, part);
      && |r| >= |base| + 11
      && r[..|base| + 5] == base + "-part"
      && r[|r| - 4..] == ".pdf"
      && AllDigits(r[|base| + 5..|r| - 4])
      && Value(r[|base| + 5..|r| - 4]) == part
      && (|r| == |base| + 11 <==> part < 100)
      && (part >= 10 ==> r[|base| + 5] != '0')
  {
    var r := PartFilename(base, part);
    assert r[|base| + 5..|r| - 4] == ZeroPadded(part, 2);
  }

  /** Distinct part numbers give distinct file names under the same base. */
  lemma PartFilenameInjective(base: string, p: nat, q: nat)
    requires PartFilename(base, p) == PartFilename(base, q)
    ensures p == q
  {
    PartFilenameShape(base, p);
    PartFilenameShape(base, q);
  }

  /** The page selection `start-end` handed to the extractor. */
  function PageSelection(first: nat, last: nat): string {
    Decimal(first) + "-" + Decimal(last)
  }

  /** The position of the first `c` in `s`, or |s| when there is none. */
  function IndexOf(s: string, c: char): (k: nat)
    ensures k <= |s|
    ensures k < |s| ==> s[k] == c
    ensures forall i :: 0 <= i < k ==> s[i] != c
  {
    if s == [] then 0 else if s[0] == c then 0 else 1 + IndexOf(s[1..], c)
  }

  /** Reads a `start-end` selection back into its two page numbers; the
      inverse of PageSelection. */
  function ParsePageSelection(s: string): Option<(nat, nat)> {
    var k := IndexOf(s, '-');
    if k == |s| then None
    else
      var a, b := s[..k], s[k + 1..];
      if a != [] && b != [] && AllDigits(a) && AllDigits(b) then Some((Value(a), Value(b))) else None
  }

  /** The selection string carries exactly the window's bounds. */
  lemma {:induction false} PageSelectionRoundTrip(first: nat, last: nat)
    ensures ParsePageSelection(PageSelection(first, last)) == Some((first, last))
  {
    var a, b := Decimal(first), Decimal(last);
    var s := PageSelection(first, last);
    assert s[|a|] == '-';
    assert IndexOf(s, '-') == |a|;
    assert s[..|a|] == a;
    assert s[|a| + 1..] == b;
    ValueOfDecimal(first);
    ValueOfDecimal(last);
  }
}
