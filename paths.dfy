/**
 * The part of Python's `pathlib` (POSIX flavour) and `os.path` that the
 * merger uses, and the file system seen through it.
 *
 * A `Path` is kept in pathlib's normal form: whether it is anchored at the
 * root, and its segments, none of which is empty, "." or holds a "/".
 * Symbolic links do not exist in this model, so `resolve` only makes a path
 * absolute and folds "..".
 */
module Paths {
  import opened Wrappers
  import opened Strings

  datatype Path = Path(absolute: bool, segs: seq<string>)

  predicate IsSegment(s: string) {
    s != "" && s != "." && '/' !in s
  }

  predicate WellFormed(p: Path) {
    forall i :: 0 <= i < |p.segs| ==> IsSegment(p.segs[i])
  }

  /** The parts of a '/'-split that pathlib keeps: all but "" and ".". */
  function Keep(parts: seq<string>): (r: seq<string>)
    ensures forall i :: 0 <= i < |r| ==> r[i] != "" && r[i] != "." && r[i] in parts
  {
    if |parts| == 0 then []
    else (if parts[0] == "" || parts[0] == "." then [] else [parts[0]]) + Keep(parts[1..])
  }

  lemma {:induction false} KeepSegments(parts: seq<string>)
    requires forall i :: 0 <= i < |parts| ==> IsSegment(parts[i])
    ensures Keep(parts) == parts
  {
    if |parts| > 0 {
      KeepSegments(parts[1..]);
      assert [parts[0]] + parts[1..] == parts;
    }
  }

  /** The segments of the string `s`. */
  function Segments(s: string): (r: seq<string>)
    ensures forall i :: 0 <= i < |r| ==> IsSegment(r[i])
  {
    var parts := Split(s, '/');
    var r := Keep(parts);
    assert forall i :: 0 <= i < |r| ==> '/' !in r[i] by {
      forall i | 0 <= i < |r| ensures '/' !in r[i] {
        var j :| 0 <= j < |parts| && parts[j] == r[i];
      }
    }
    r
  }

  /** `PurePosixPath(s)`. */
  function FromString(s: string): (p: Path)
    ensures WellFormed(p)
  {
    Path(StartsWith(s, "/"), Segments(s))
  }

  /** `p / s` for a string `s`: a string starting with "/" replaces `p`. */
  function DivStr(p: Path, s: string): Path
  {
    if StartsWith(s, "/") then FromString(s) else Path(p.absolute, p.segs + Segments(s))
  }

  /** A string that does not start with '/' is appended segment by segment. */
  lemma DivStrRelative(p: Path, s: string)
    requires |s| >= 1 && s[0] != '/'
    ensures DivStr(p, s) == Path(p.absolute, p.segs + Segments(s))
  {
    assert s[..1][0] == s[0];
  }

  /** A path appended with one segment. */
  lemma DivSegment(p: Path, s: string)
    requires IsSegment(s)
    ensures DivStr(p, s) == Path(p.absolute, p.segs + [s])
  {
    assert s[0] in s;
    DivStrRelative(p, s);
    SplitNoSep(s, '/');
    KeepSegments([s]);
  }

  /** `p / q` for a path `q`: an absolute `q` replaces `p`. */
  function Div(p: Path, q: Path): Path
  {
    if q.absolute then q else Path(p.absolute, p.segs + q.segs)
  }

  /** `str(p)`. */
  function Str(p: Path): string
  {
    if p.absolute then "/" + Join(p.segs, "/")
    else if p.segs == [] then "."
    else Join(p.segs, "/")
  }

  /** Reading back the string form of a path gives the path again. */
  lemma StrRoundTrip(p: Path)
    requires WellFormed(p)
    ensures FromString(Str(p)) == p
  {
    var j := Join(p.segs, "/");
    SegmentsOfJoin(p.segs);
    if p.absolute {
      SegmentsAfterRoot(j);
      assert ("/" + j)[..1] == "/";
    } else if p.segs == [] {
      SplitNoSep(".", '/');
      assert Keep(["."]) == [];
    } else {
      JoinHead(p.segs, "/");
      assert j[0] != '/';
    }
  }

  lemma SegmentsOfJoin(segs: seq<string>)
    requires forall i :: 0 <= i < |segs| ==> IsSegment(segs[i])
    ensures Segments(Join(segs, "/")) == segs
  {
    if segs == [] {
      assert Split("", '/') == [""];
      assert Keep([""]) == [];
    } else {
      SplitJoin(segs, '/');
      KeepSegments(segs);
    }
  }

  lemma SegmentsAfterRoot(j: string)
    ensures Segments("/" + j) == Segments(j)
  {
    SplitCons("", '/', j);
    assert "/" + j == "" + ['/'] + j;
    var parts := [""] + Split(j, '/');
    assert parts[1..] == Split(j, '/');
    assert Keep(parts) == Keep(Split(j, '/'));
  }

  lemma {:induction false} JoinHead(parts: seq<string>, sep: string)
    requires |parts| >= 1 && parts[0] != ""
    ensures |Join(parts, sep)| >= 1 && Join(parts, sep)[0] == parts[0][0]
  {
  }

  /** `p.name`: the last segment, "" for the root and for ".". */
  function Name(p: Path): string
  {
    if p.segs == [] then "" else p.segs[|p.segs| - 1]
  }

  /** `p.parent`: the root and "." are their own parents. */
  function Parent(p: Path): Path
  {
    if p.segs == [] then p else Path(p.absolute, p.segs[..|p.segs| - 1])
  }

  /** `PurePath.suffix` of a name: from its last '.', when that is neither first nor last. */
  function Suffix(name: string): (r: string)
    ensures r == "" || (StartsWith(r, ".") && EndsWith(name, r) && |r| < |name|)
  {
    var i := RFind(name, '.');
    if 0 < i < |name| - 1 then name[i..] else ""
  }

  /** `PurePath.stem` of a name: the name without its suffix. */
  function Stem(name: string): (r: string)
    ensures r + Suffix(name) == name
  {
    var i := RFind(name, '.');
    if 0 < i < |name| - 1 then name[..i] else name
  }

  /** `p.with_suffix(suffix)`: raises ValueError when `p` has an empty name. */
  function WithSuffix(p: Path, suffix: string): (r: Result<Path>)
    ensures r.Failure? <==> Name(p) == ""
    ensures r.Ok? ==> Name(r.value) == Stem(Name(p)) + suffix && Parent(r.value) == Parent(p)
  {
    if Name(p) == "" then Failure("ValueError: path has an empty name")
    else Ok(Path(p.absolute, p.segs[..|p.segs| - 1] + [Stem(Name(p)) + suffix]))
  }

  /** `p.relative_to(base)`; None where pathlib raises ValueError. */
  function RelativeTo(p: Path, base: Path): (r: Option<Path>)
    ensures r.Some? ==> !r.value.absolute && Div(base, r.value) == p
  {
    if p.absolute == base.absolute && |base.segs| <= |p.segs| && p.segs[..|base.segs|] == base.segs
    then Some(Path(false, p.segs[|base.segs|..]))
    else None
  }

  /** Folding ".." segments from left to right; ".." at the top stays at the top. */
  function Normalize(segs: seq<string>): (r: seq<string>)
    ensures ".." !in r
    ensures forall i :: 0 <= i < |r| ==> r[i] in segs
  {
    if segs == [] then []
    else
      var init := Normalize(segs[..|segs| - 1]);
      var last := segs[|segs| - 1];
      if last == ".." then (if init == [] then [] else init[..|init| - 1])
      else init + [last]
  }

  lemma {:induction false} NormalizeNoDots(segs: seq<string>)
    requires ".." !in segs
    ensures Normalize(segs) == segs
  {
    if segs != [] {
      NormalizeNoDots(segs[..|segs| - 1]);
      assert segs[..|segs| - 1] + [segs[|segs| - 1]] == segs;
    }
  }

  /** `p.resolve()` with working directory `cwd`, without symbolic links. */
  function Resolve(p: Path, cwd: Path): (r: Path)
    ensures r.absolute
    ensures WellFormed(p) && WellFormed(cwd) ==> WellFormed(r)
  {
    Path(true, Normalize(if p.absolute then p.segs else cwd.segs + p.segs))
  }

  /** `os.path.join(a, b)` on strings, with '/' as `os.sep`. */
  function OsJoin(a: string, b: string): (r: string)
    ensures EndsWith(r, b)
  {
    if StartsWith(b, "/") then b
    else if a == "" || EndsWith(a, "/") then a + b
    else a + "/" + b
  }

  /** The files (with their text) and directories that exist. */
  datatype FileSystem = FileSystem(files: map<Path, string>, dirs: set<Path>)

  /** `p.exists()`. */
  predicate Exists(fs: FileSystem, p: Path) {
    p in fs.files || p in fs.dirs
  }

  /** `p.is_file()`. */
  predicate IsFile(fs: FileSystem, p: Path) {
    p in fs.files
  }

  /** The text of a file, or "" where reading fails (the merger treats both alike). */
  function Content(fs: FileSystem, p: Path): string {
    if p in fs.files then fs.files[p] else ""
  }
}
