/**
 * The class pipeline, `PyCombiner`: a dependency graph between the files
 * under the source directory, keyed by path and listing each file's local
 * imports in the order the parser meets them; a depth-first merge order
 * starting at the entry file; and an output that hoists the external import
 * statements, sorted, above the bodies of all files, from which the lines
 * of the local imports are cut by line number.
 *
 * Python's parser is an input (`Env.parse`): it reports, for a text, either
 * a syntax error or the import statements it holds, each with its line
 * number. The file system is an input too; `rglob('*.py')` is the listing
 * `pyFiles` the object is made with.
 */
module Combiner {
  import opened Wrappers
  import opened Strings
  import opened Paths
  import opened Digraph

  /** An `import a, b` or `from m import a, b` statement; `moduleName` is None for `from . import a`. */
  datatype ImportNode =
    | Import(names: seq<string>, lineno: int)
    | ImportFrom(moduleName: Option<string>, names: seq<string>, lineno: int)

  /**
   * What `ast.parse` yields for a text: a syntax error, or the import
   * statements that `ast.walk` meets (at any depth, in its order) and those
   * that `ast.iter_child_nodes` meets at the top level.
   */
  datatype Tree = SyntaxError | Module(walk: seq<ImportNode>, top: seq<ImportNode>)

  /** What the object reads: the files, the working directory of `resolve`, and the parser. */
  datatype Env = Env(fs: FileSystem, cwd: Path, parse: string -> Tree)

  // ---------------------------------------------------------------------
  // `_get_import_path` and `_is_relative_import`
  // ---------------------------------------------------------------------

  /**
   * `_get_import_path`: dots become '/', ".py" is appended unless the
   * result already ends with it, and the whole is put under the source
   * directory.
   */
  function ImportPath(sourceDir: Path, importPath: string): Path
  {
    var p := Replace(importPath, '.', '/');
    DivStr(sourceDir, if EndsWith(p, ".py") then p else p + ".py")
  }

  /** Once the dots are gone no name ends with ".py", so the suffix is always appended. */
  lemma ImportPathAppendsSuffix(sourceDir: Path, importPath: string)
    ensures ImportPath(sourceDir, importPath) == DivStr(sourceDir, Replace(importPath, '.', '/') + ".py")
  {
    var p := Replace(importPath, '.', '/');
    ReplaceRemoves(importPath, '.', '/');
    if |p| >= 3 {
      assert p[|p| - 3] in p;
      assert p[|p| - 3..][0] == p[|p| - 3];
    }
  }

  /** Joining parts and appending a suffix to the whole appends it to the last part. */
  lemma {:induction false} JoinAppendLast(parts: seq<string>, sep: string, suffix: string)
    requires |parts| >= 1
    ensures Join(parts, sep) + suffix == Join(parts[..|parts| - 1] + [parts[|parts| - 1] + suffix], sep)
    decreases |parts|
  {
    var n := |parts|;
    var q := parts[..n - 1] + [parts[n - 1] + suffix];
    if n == 1 {
      assert q == [parts[0] + suffix];
    } else {
      var tail := parts[1..];
      JoinAppendLast(tail, sep, suffix);
      assert tail[|tail| - 1] == parts[n - 1];
      ReplaceLastTail(parts, parts[n - 1] + suffix);
      AppendAssoc(parts[0] + sep, Join(tail, sep), suffix);
    }
  }

  /** Replacing the dots of a dotted name of dot-free names by '/'. */
  lemma DotsToSlashes(parts: seq<string>)
    requires |parts| >= 1 && forall i :: 0 <= i < |parts| ==> '.' !in parts[i]
    ensures Replace(Join(parts, "."), '.', '/') == Join(parts, "/")
  {
    ReplaceIsSplitJoin(Join(parts, "."), '.', '/');
    SplitJoin(parts, '.');
  }

  /** `dir / "a/b/c"` for segments `a`, `b`, `c`. */
  lemma DivSegments(sourceDir: Path, q: seq<string>)
    requires |q| >= 1 && forall i :: 0 <= i < |q| ==> IsSegment(q[i])
    ensures DivStr(sourceDir, Join(q, "/")) == Path(sourceDir.absolute, sourceDir.segs + q)
  {
    var j := Join(q, "/");
    assert |j| >= 1 && j[0] != '/' by {
      JoinHead(q, "/");
      assert IsSegment(q[0]) && q[0][0] in q[0];
    }
    DivStrRelative(sourceDir, j);
    SegmentsOfJoin(q);
  }

  /** `DivSegments` for a string known to be the joined segments. */
  lemma DivJoined(sourceDir: Path, q: seq<string>, j: string)
    requires |q| >= 1 && forall i :: 0 <= i < |q| ==> IsSegment(q[i])
    requires j == Join(q, "/")
    ensures DivStr(sourceDir, j) == Path(sourceDir.absolute, sourceDir.segs + q)
  {
    DivSegments(sourceDir, q);
  }

  /** A dotted name of plain names, read as a relative path of those names. */
  lemma DottedAsPath(sourceDir: Path, parts: seq<string>, suffix: string)
    requires |parts| >= 1 && forall i :: 0 <= i < |parts| ==> IsSegment(parts[i]) && '.' !in parts[i]
    requires '/' !in suffix
    ensures Replace(Join(parts, "."), '.', '/') == Join(parts, "/")
    ensures DivStr(sourceDir, Join(parts, "/") + suffix)
         == Path(sourceDir.absolute, sourceDir.segs + parts[..|parts| - 1] + [parts[|parts| - 1] + suffix])
  {
    DotsToSlashes(parts);
    SuffixedPath(sourceDir, parts, suffix);
  }

  /** `dir / ("a/b/c" + suffix)` for segments `a`, `b`, `c`. */
  lemma SuffixedPath(sourceDir: Path, parts: seq<string>, suffix: string)
    requires |parts| >= 1 && forall i :: 0 <= i < |parts| ==> IsSegment(parts[i])
    requires '/' !in suffix
    ensures DivStr(sourceDir, Join(parts, "/") + suffix)
         == Path(sourceDir.absolute, sourceDir.segs + parts[..|parts| - 1] + [parts[|parts| - 1] + suffix])
  {
    var last := parts[|parts| - 1] + suffix;
    var q := parts[..|parts| - 1] + [last];
    SegmentsWithLast(parts, suffix);
    JoinAppendLast(parts, "/", suffix);
    DivJoined(sourceDir, q, Join(parts, "/") + suffix);
    AppendAssoc(sourceDir.segs, parts[..|parts| - 1], [last]);
  }

  /** Appending a '/'-free suffix to the last of some segments leaves segments. */
  lemma SegmentsWithLast(parts: seq<string>, suffix: string)
    requires |parts| >= 1 && forall i :: 0 <= i < |parts| ==> IsSegment(parts[i])
    requires '/' !in suffix
    ensures var q := parts[..|parts| - 1] + [parts[|parts| - 1] + suffix];
            forall i :: 0 <= i < |q| ==> IsSegment(q[i])
  {
    var last := parts[|parts| - 1] + suffix;
    var q := parts[..|parts| - 1] + [last];
    assert IsSegment(last) by {
      assert IsSegment(parts[|parts| - 1]);
      if |suffix| > 0 { assert |last| >= 2; }
    }
    forall i | 0 <= i < |q| ensures IsSegment(q[i]) {
      if i < |parts| - 1 { assert q[i] == parts[i]; }
    }
  }

  /**
   * For a dotted name of plain names `a.b.c` the import path is
   * `<source dir>/a/b/c.py`, and so it always ends in ".py".
   */
  lemma ImportPathOfDottedName(sourceDir: Path, parts: seq<string>)
    requires |parts| >= 1 && forall i :: 0 <= i < |parts| ==> IsSegment(parts[i]) && '.' !in parts[i]
    ensures ImportPath(sourceDir, Join(parts, "."))
         == Path(sourceDir.absolute, sourceDir.segs + parts[..|parts| - 1] + [parts[|parts| - 1] + ".py"])
    ensures EndsWith(Name(ImportPath(sourceDir, Join(parts, "."))), ".py")
  {
    var last := parts[|parts| - 1] + ".py";
    var p := Path(sourceDir.absolute, sourceDir.segs + parts[..|parts| - 1] + [last]);
    assert ImportPath(sourceDir, Join(parts, ".")) == p by {
      ImportPathAppendsSuffix(sourceDir, Join(parts, "."));
      DottedAsPath(sourceDir, parts, ".py");
    }
    NameOfSuffixed(p, sourceDir.segs + parts[..|parts| - 1], parts[|parts| - 1], ".py");
  }

  /** A path whose last segment was given a suffix has a name ending in it. */
  lemma NameOfSuffixed(p: Path, init: seq<string>, last: string, suffix: string)
    requires p.segs == init + [last + suffix]
    ensures EndsWith(Name(p), suffix)
  {
    assert Name(p) == last + suffix;
    EndsWithAppended(last, suffix);
  }

  /** The file that marks a directory as a package. */
  const InitFile: string := "__init__.py"

  /**
   * The two files `_is_relative_import` looks for: `<dir>/<a/b/c>` with its
   * suffix replaced by ".py" unless it is ".py" already, then
   * `<dir>/<a/b/c>/__init__.py`; a failure where `with_suffix` raises.
   */
  function RelativeCandidates(sourceDir: Path, importPath: string): Result<seq<Path>>
  {
    var filePath := DivStr(sourceDir, Replace(importPath, '.', '/'));
    match DirectCandidate(filePath)
    case Failure(e) => Failure(e)
    case Ok(d) => Ok([d, Path(filePath.absolute, filePath.segs + [InitFile])])
  }

  /** The direct candidate: the path with its suffix made ".py". */
  function DirectCandidate(filePath: Path): Result<Path>
  {
    if Suffix(Name(filePath)) != ".py" then WithSuffix(filePath, ".py") else Ok(filePath)
  }

  /** For a path whose name has no dot, the direct candidate appends ".py" to the name. */
  lemma DirectCandidateOfDotFree(filePath: Path)
    requires Name(filePath) != "" && '.' !in Name(filePath)
    ensures DirectCandidate(filePath)
         == Ok(Path(filePath.absolute, filePath.segs[..|filePath.segs| - 1] + [Name(filePath) + ".py"]))
  {
    SuffixOfDotFree(Name(filePath));
    WithSuffixOfName(filePath, ".py");
  }

  lemma AppendedSegments(base: Path, parts: seq<string>)
    requires |parts| >= 1
    ensures var p := Path(base.absolute, base.segs + parts);
      Name(p) == parts[|parts| - 1] && p.segs[..|p.segs| - 1] == base.segs + parts[..|parts| - 1]
  {
    var p := Path(base.absolute, base.segs + parts);
    assert p.segs[..|p.segs| - 1] == base.segs + parts[..|parts| - 1];
  }

  /** The candidates once the dotted path and the direct candidate are known. */
  lemma CandidatesOfFilePath(sourceDir: Path, importPath: string, filePath: Path, direct: Path)
    requires DivStr(sourceDir, Replace(importPath, '.', '/')) == filePath
    requires DirectCandidate(filePath) == Ok(direct)
    ensures RelativeCandidates(sourceDir, importPath) == Ok([direct, Path(filePath.absolute, filePath.segs + [InitFile])])
  {
  }

  /** `path.resolve().relative_to(source_dir)` does not raise. */
  predicate InsideSourceDir(env: Env, sourceDir: Path, p: Path) {
    RelativeTo(Resolve(p, env.cwd), sourceDir).Some?
  }

  /** What `_is_relative_import` answers: one of its candidates is a file inside the source directory. */
  predicate IsLocalImport(env: Env, sourceDir: Path, importPath: string) {
    var c := RelativeCandidates(sourceDir, importPath);
    c.Ok? && SomeFileInside(env, sourceDir, c.value)
  }

  lemma {:induction false} SuffixOfDotFree(name: string)
    requires '.' !in name
    ensures Suffix(name) == "" && Stem(name) == name
  {
  }

  lemma WithSuffixOfName(p: Path, suffix: string)
    requires Name(p) != ""
    ensures WithSuffix(p, suffix) == Ok(Path(p.absolute, p.segs[..|p.segs| - 1] + [Stem(Name(p)) + suffix]))
  {
  }

  /** `p / "__init__.py"` appends one segment, as `RelativeCandidates` writes it. */
  lemma DivInitFile(p: Path)
    ensures DivStr(p, InitFile) == Path(p.absolute, p.segs + [InitFile])
  {
    SplitNoSep(InitFile, '/');
    KeepSegments([InitFile]);
  }

  /** The two candidates for a dotted name of plain names `a.b.c`: `a/b/c.py` and `a/b/c/__init__.py`. */
  lemma CandidatesOfDottedName(sourceDir: Path, parts: seq<string>)
    requires |parts| >= 1 && forall i :: 0 <= i < |parts| ==> IsSegment(parts[i]) && '.' !in parts[i]
    ensures RelativeCandidates(sourceDir, Join(parts, "."))
         == Ok([ImportPath(sourceDir, Join(parts, ".")), Path(sourceDir.absolute, sourceDir.segs + parts + [InitFile])])
  {
    var filePath := Path(sourceDir.absolute, sourceDir.segs + parts);
    DottedFilePath(sourceDir, parts);
    DottedDirectCandidate(sourceDir, parts);
    CandidatesOfFilePath(sourceDir, Join(parts, "."), filePath, ImportPath(sourceDir, Join(parts, ".")));
  }

  lemma DottedFilePath(sourceDir: Path, parts: seq<string>)
    requires |parts| >= 1 && forall i :: 0 <= i < |parts| ==> IsSegment(parts[i]) && '.' !in parts[i]
    ensures DivStr(sourceDir, Replace(Join(parts, "."), '.', '/')) == Path(sourceDir.absolute, sourceDir.segs + parts)
  {
    DotsToSlashes(parts);
    DivSegments(sourceDir, parts);
  }

  lemma DottedDirectCandidate(sourceDir: Path, parts: seq<string>)
    requires |parts| >= 1 && forall i :: 0 <= i < |parts| ==> IsSegment(parts[i]) && '.' !in parts[i]
    ensures DirectCandidate(Path(sourceDir.absolute, sourceDir.segs + parts)) == Ok(ImportPath(sourceDir, Join(parts, ".")))
  {
    var filePath := Path(sourceDir.absolute, sourceDir.segs + parts);
    AppendedSegments(sourceDir, parts);
    DirectCandidateOfDotFree(filePath);
    ImportPathOfDottedName(sourceDir, parts);
  }

  lemma LocalImportOfCandidates(env: Env, sourceDir: Path, importPath: string, a: Path, b: Path)
    requires RelativeCandidates(sourceDir, importPath) == Ok([a, b])
    ensures IsLocalImport(env, sourceDir, importPath) <==>
      (IsFile(env.fs, a) && InsideSourceDir(env, sourceDir, a)) || (IsFile(env.fs, b) && InsideSourceDir(env, sourceDir, b))
  {
    var c := [a, b];
    assert c[0] == a && c[1] == b;
  }

  /**
   * For a dotted name of plain names `a.b.c`, `_is_relative_import` holds
   * exactly when `<dir>/a/b/c.py` or `<dir>/a/b/c/__init__.py` is a file
   * that resolves inside the source directory; the first is the path
   * `_get_import_path` gives.
   */
  lemma LocalImportOfDottedName(env: Env, sourceDir: Path, parts: seq<string>)
    requires |parts| >= 1 && forall i :: 0 <= i < |parts| ==> IsSegment(parts[i]) && '.' !in parts[i]
    ensures var file := ImportPath(sourceDir, Join(parts, "."));
            var package := Path(sourceDir.absolute, sourceDir.segs + parts + [InitFile]);
            IsLocalImport(env, sourceDir, Join(parts, ".")) <==>
              (IsFile(env.fs, file) && InsideSourceDir(env, sourceDir, file))
              || (IsFile(env.fs, package) && InsideSourceDir(env, sourceDir, package))
  {
    var file := ImportPath(sourceDir, Join(parts, "."));
    var package := Path(sourceDir.absolute, sourceDir.segs + parts + [InitFile]);
    var name := Join(parts, ".");
    CandidatesOfDottedName(sourceDir, parts);
    assert RelativeCandidates(sourceDir, name) == Ok([file, package]);
    LocalImportOfCandidates(env, sourceDir, name, file, package);
  }

  /** A file among `paths` that exists and resolves inside the source directory. */
  predicate SomeFileInside(env: Env, sourceDir: Path, paths: seq<Path>) {
    exists i :: 0 <= i < |paths| && IsFile(env.fs, paths[i]) && InsideSourceDir(env, sourceDir, paths[i])
  }

  /** The loop of `_is_relative_import` over its candidates. */
  method SearchCandidates(env: Env, sourceDir: Path, paths: seq<Path>) returns (b: bool)
    ensures b == SomeFileInside(env, sourceDir, paths)
  {
    var i := 0;
    while i < |paths|
      invariant 0 <= i <= |paths|
      invariant forall k :: 0 <= k < i ==> !(IsFile(env.fs, paths[k]) && InsideSourceDir(env, sourceDir, paths[k]))
    {
      var path := paths[i];
      if Exists(env.fs, path) && IsFile(env.fs, path) {
        if InsideSourceDir(env, sourceDir, path) {
          return true;
        }
      }
      i := i + 1;
    }
    return false;
  }

  // ---------------------------------------------------------------------
  // `_parse_imports`
  // ---------------------------------------------------------------------

  /**
   * The names `_parse_imports` weighs in one statement: each name of an
   * `import`, and the module of a `from` import when it has one.
   */
  function NodeNames(node: ImportNode): seq<string>
  {
    match node
    case Import(names, _) => names
    case ImportFrom(m, _, _) => if m.Some? && m.value != "" then [m.value] else []
  }

  /** The names of a sequence of statements, in order. */
  function WalkNames(nodes: seq<ImportNode>): seq<string>
  {
    if nodes == [] then [] else WalkNames(nodes[..|nodes| - 1]) + NodeNames(nodes[|nodes| - 1])
  }

  /** `_is_relative_import` as a test on names. */
  function Local(env: Env, sourceDir: Path): string -> bool {
    x => IsLocalImport(env, sourceDir, x)
  }

  /** The local names among `names`, in order and with repetitions. */
  function LocalNames(isLocal: string -> bool, names: seq<string>): seq<string>
  {
    if names == [] then []
    else
      var last := names[|names| - 1];
      LocalNames(isLocal, names[..|names| - 1]) + (if isLocal(last) then [last] else [])
  }

  /** The names that are not local. */
  function ExternalNames(isLocal: string -> bool, names: seq<string>): set<string>
  {
    set x | x in names && !isLocal(x)
  }

  lemma LocalNamesSnoc(isLocal: string -> bool, names: seq<string>, x: string)
    ensures LocalNames(isLocal, names + [x]) == LocalNames(isLocal, names) + (if isLocal(x) then [x] else [])
  {
    assert (names + [x])[..|names|] == names;
  }

  /** One more name of a list, seen through its prefixes. */
  lemma NamesPrefixStep(isLocal: string -> bool, names: seq<string>, j: nat)
    requires j < |names|
    ensures LocalNames(isLocal, names[..j + 1]) ==
      LocalNames(isLocal, names[..j]) + (if isLocal(names[j]) then [names[j]] else [])
    ensures ExternalNames(isLocal, names[..j + 1]) ==
      ExternalNames(isLocal, names[..j]) + (if isLocal(names[j]) then {} else {names[j]})
  {
    assert names[..j + 1] == names[..j] + [names[j]];
    LocalNamesSnoc(isLocal, names[..j], names[j]);
  }

  /** `LocalNames` keeps exactly the local names, each occurrence in its place. */
  lemma {:induction false} LocalNamesMembers(isLocal: string -> bool, names: seq<string>)
    ensures forall x :: x in LocalNames(isLocal, names) <==> x in names && isLocal(x)
    ensures |LocalNames(isLocal, names)| <= |names|
    decreases |names|
  {
    if names != [] {
      var init := names[..|names| - 1];
      LocalNamesMembers(isLocal, init);
      assert names == init + [names[|names| - 1]];
    }
  }

  /** Filtering distributes over concatenation. */
  lemma {:induction false} LocalNamesAppend(isLocal: string -> bool, a: seq<string>, b: seq<string>)
    ensures LocalNames(isLocal, a + b) == LocalNames(isLocal, a) + LocalNames(isLocal, b)
    decreases |b|
  {
    if b == [] {
      assert a + b == a;
    } else {
      var init := b[..|b| - 1];
      var x := b[|b| - 1];
      LocalNamesAppend(isLocal, a, init);
      assert a + b == (a + init) + [x];
      assert b == init + [x];
      LocalNamesSnoc(isLocal, a + init, x);
      LocalNamesSnoc(isLocal, init, x);
    }
  }

  /** What `_parse_imports` returns for a text: the local names in order, and the set of the others. */
  function ParsedImports(env: Env, sourceDir: Path, content: string): (seq<string>, set<string>)
  {
    match env.parse(content)
    case SyntaxError => ([], {})
    case Module(walk, _) => (LocalNames(Local(env, sourceDir), WalkNames(walk)), ExternalNames(Local(env, sourceDir), WalkNames(walk)))
  }

  /**
   * Each name an import statement of the text mentions lands in exactly one
   * of the two results: the ordered local ones or the unhandled set; a
   * syntax error yields neither.
   */
  lemma ParsedImportsPartition(env: Env, sourceDir: Path, content: string, x: string)
    ensures env.parse(content).SyntaxError? ==> ParsedImports(env, sourceDir, content) == ([], {})
    ensures env.parse(content).Module? ==>
      var r := ParsedImports(env, sourceDir, content);
      (x in WalkNames(env.parse(content).walk) <==> x in r.0 || x in r.1) && !(x in r.0 && x in r.1)
  {
    if env.parse(content).Module? {
      LocalNamesMembers(Local(env, sourceDir), WalkNames(env.parse(content).walk));
    }
  }

  /** The inner loop of `_parse_imports` over the names of one statement. */
  method SortNames(env: Env, sourceDir: Path, names: seq<string>, ordered: seq<string>, unhandled: set<string>)
    returns (ordered': seq<string>, unhandled': set<string>)
    ensures ordered' == ordered + LocalNames(Local(env, sourceDir), names)
    ensures unhandled' == unhandled + ExternalNames(Local(env, sourceDir), names)
  {
    ordered', unhandled' := ordered, unhandled;
    var j := 0;
    while j < |names|
      invariant 0 <= j <= |names|
      invariant ordered' == ordered + LocalNames(Local(env, sourceDir), names[..j])
      invariant unhandled' == unhandled + ExternalNames(Local(env, sourceDir), names[..j])
    {
      ghost var o, u := ordered', unhandled';
      ordered', unhandled' := SortName(env, sourceDir, names[j], ordered', unhandled');
      SortStep(Local(env, sourceDir), names, j, ordered, unhandled, o, u, ordered', unhandled');
      j := j + 1;
    }
    TakeAll(names);
  }

  /** The loop of `SortNames` after one more name. */
  lemma SortStep(isLocal: string -> bool, names: seq<string>, j: nat, ordered: seq<string>, unhandled: set<string>,
                 o: seq<string>, u: set<string>, o': seq<string>, u': set<string>)
    requires j < |names|
    requires o == ordered + LocalNames(isLocal, names[..j]) && u == unhandled + ExternalNames(isLocal, names[..j])
    requires o' == o + (if isLocal(names[j]) then [names[j]] else [])
    requires u' == u + (if isLocal(names[j]) then {} else {names[j]})
    ensures o' == ordered + LocalNames(isLocal, names[..j + 1]) && u' == unhandled + ExternalNames(isLocal, names[..j + 1])
  {
    NamesPrefixStep(isLocal, names, j);
    AppendAssoc(ordered, LocalNames(isLocal, names[..j]), if isLocal(names[j]) then [names[j]] else []);
  }

  /** One name: appended to the ordered local imports, or added to the unhandled set. */
  method SortName(env: Env, sourceDir: Path, importPath: string, ordered: seq<string>, unhandled: set<string>)
    returns (ordered': seq<string>, unhandled': set<string>)
    ensures ordered' == ordered + (if Local(env, sourceDir)(importPath) then [importPath] else [])
    ensures unhandled' == unhandled + (if Local(env, sourceDir)(importPath) then {} else {importPath})
  {
    var local := SearchCandidatesOf(env, sourceDir, importPath);
    if local {
      ordered', unhandled' := ordered + [importPath], unhandled;
    } else {
      ordered', unhandled' := ordered, unhandled + {importPath};
    }
  }

  /** `_is_relative_import` on a name: its candidates, then the search among them. */
  method SearchCandidatesOf(env: Env, sourceDir: Path, importPath: string) returns (b: bool)
    ensures b == Local(env, sourceDir)(importPath)
  {
    var possiblePaths := RelativeCandidates(sourceDir, importPath);
    if possiblePaths.Failure? {
      return false;
    }
    b := SearchCandidates(env, sourceDir, possiblePaths.value);
  }

  /** One more statement of the walk, seen through its prefixes. */
  lemma WalkPrefixStep(isLocal: string -> bool, walk: seq<ImportNode>, i: nat)
    requires i < |walk|
    ensures LocalNames(isLocal, WalkNames(walk[..i + 1])) ==
      LocalNames(isLocal, WalkNames(walk[..i])) + LocalNames(isLocal, NodeNames(walk[i]))
    ensures ExternalNames(isLocal, WalkNames(walk[..i + 1])) ==
      ExternalNames(isLocal, WalkNames(walk[..i])) + ExternalNames(isLocal, NodeNames(walk[i]))
  {
    assert walk[..i + 1][..i] == walk[..i];
    assert WalkNames(walk[..i + 1]) == WalkNames(walk[..i]) + NodeNames(walk[i]);
    LocalNamesAppend(isLocal, WalkNames(walk[..i]), NodeNames(walk[i]));
  }

  /** The names of one statement of the walk, sorted into the two results. */
  method SortNode(env: Env, sourceDir: Path, node: ImportNode, ordered: seq<string>, unhandled: set<string>)
    returns (ordered': seq<string>, unhandled': set<string>)
    ensures ordered' == ordered + LocalNames(Local(env, sourceDir), NodeNames(node))
    ensures unhandled' == unhandled + ExternalNames(Local(env, sourceDir), NodeNames(node))
  {
    match node {
      case Import(names, _) =>
        ordered', unhandled' := SortNames(env, sourceDir, names, ordered, unhandled);
      case ImportFrom(m, _, _) =>
        if m.Some? && m.value != "" {
          ordered', unhandled' := SortNames(env, sourceDir, [m.value], ordered, unhandled);
        } else {
          ordered', unhandled' := ordered, unhandled;
          assert ordered + [] == ordered;
        }
    }
  }

  /** `_parse_imports` on the text of a file. */
  method ParseImports(env: Env, sourceDir: Path, content: string) returns (ordered: seq<string>, unhandled: set<string>)
    ensures (ordered, unhandled) == ParsedImports(env, sourceDir, content)
  {
    var tree := env.parse(content);
    if tree.SyntaxError? {
      return [], {};
    }
    ordered, unhandled := [], {};
    var i := 0;
    while i < |tree.walk|
      invariant 0 <= i <= |tree.walk|
      invariant ordered == LocalNames(Local(env, sourceDir), WalkNames(tree.walk[..i]))
      invariant unhandled == ExternalNames(Local(env, sourceDir), WalkNames(tree.walk[..i]))
    {
      WalkPrefixStep(Local(env, sourceDir), tree.walk, i);
      ordered, unhandled := SortNode(env, sourceDir, tree.walk[i], ordered, unhandled);
      i := i + 1;
    }
    assert tree.walk[..i] == tree.walk;
  }

  // ---------------------------------------------------------------------
  // `_build_dependency_graph`
  // ---------------------------------------------------------------------

  /**
   * The list of one file in the dependency graph: the string of
   * `_get_import_path(imp)` for each of its local imports in order whose
   * path exists (as a file or a directory); a name imported twice gives the
   * edge twice.
   */
  function Targets(fs: FileSystem, sourceDir: Path, names: seq<string>): seq<Node>
  {
    if names == [] then []
    else
      var p := ImportPath(sourceDir, names[|names| - 1]);
      Targets(fs, sourceDir, names[..|names| - 1]) + (if Exists(fs, p) then [Str(p)] else [])
  }

  lemma TargetsStep(fs: FileSystem, sourceDir: Path, names: seq<string>, j: nat)
    requires j < |names|
    ensures var p := ImportPath(sourceDir, names[j]);
      Targets(fs, sourceDir, names[..j + 1]) == Targets(fs, sourceDir, names[..j]) + (if Exists(fs, p) then [Str(p)] else [])
  {
    TakeTake(names, j, j + 1);
  }

  /** The list `_build_dependency_graph` stores for a file: the targets of its ordered local imports. */
  function Deps(env: Env, sourceDir: Path, file: Path): seq<Node>
  {
    Targets(env.fs, sourceDir, ParsedImports(env, sourceDir, Content(env.fs, file)).0)
  }

  /** A target is the existing import path of one of the names, and there is at most one per name. */
  lemma {:induction false} TargetsMembers(fs: FileSystem, sourceDir: Path, names: seq<string>)
    ensures forall t :: t in Targets(fs, sourceDir, names) <==>
      exists n :: n in names && Exists(fs, ImportPath(sourceDir, n)) && t == Str(ImportPath(sourceDir, n))
    ensures |Targets(fs, sourceDir, names)| <= |names|
    decreases |names|
  {
    if names != [] {
      var init := names[..|names| - 1];
      TargetsMembers(fs, sourceDir, init);
      assert names == init + [names[|names| - 1]];
    }
  }

  /** When every import path exists, the list follows the names one for one: order and repetitions are kept. */
  lemma {:induction false} TargetsAllExist(fs: FileSystem, sourceDir: Path, names: seq<string>)
    requires forall n :: n in names ==> Exists(fs, ImportPath(sourceDir, n))
    ensures |Targets(fs, sourceDir, names)| == |names|
    ensures forall i :: 0 <= i < |names| ==> Targets(fs, sourceDir, names)[i] == Str(ImportPath(sourceDir, names[i]))
    decreases |names|
  {
    if names != [] {
      var init := names[..|names| - 1];
      assert forall n :: n in init ==> n in names;
      TargetsAllExist(fs, sourceDir, init);
      var last := names[|names| - 1];
      assert last in names;
      var t := Targets(fs, sourceDir, init);
      assert Targets(fs, sourceDir, names) == t + [Str(ImportPath(sourceDir, last))];
      TargetsPointwise(sourceDir, names, t, Targets(fs, sourceDir, names));
    }
  }

  lemma TargetsPointwise(sourceDir: Path, names: seq<string>, t: seq<Node>, full: seq<Node>)
    requires |names| >= 1 && full == t + [Str(ImportPath(sourceDir, names[|names| - 1]))]
    requires |t| == |names| - 1
    requires forall i :: 0 <= i < |t| ==> t[i] == Str(ImportPath(sourceDir, names[..|names| - 1][i]))
    ensures forall i :: 0 <= i < |names| ==> full[i] == Str(ImportPath(sourceDir, names[i]))
  {
    SnocPointwise(names[..|names| - 1], t, names[|names| - 1], full[|t|], n => Str(ImportPath(sourceDir, n)));
    TakeSnoc(names);
  }

  /**
   * Every edge of a file leads to the import path of a name the parser
   * found in it that `_is_relative_import` accepts and whose path exists.
   */
  lemma DepsAreLocalImports(env: Env, sourceDir: Path, file: Path, t: Node)
    requires t in Deps(env, sourceDir, file)
    ensures env.parse(Content(env.fs, file)).Module?
    ensures exists n ::
      n in WalkNames(env.parse(Content(env.fs, file)).walk) && IsLocalImport(env, sourceDir, n)
      && Exists(env.fs, ImportPath(sourceDir, n)) && t == Str(ImportPath(sourceDir, n))
  {
    var ordered := ParsedImports(env, sourceDir, Content(env.fs, file)).0;
    TargetsMembers(env.fs, sourceDir, ordered);
    var n :| n in ordered && Exists(env.fs, ImportPath(sourceDir, n)) && t == Str(ImportPath(sourceDir, n));
    var tree := env.parse(Content(env.fs, file));
    LocalNamesMembers(Local(env, sourceDir), WalkNames(tree.walk));
    assert Local(env, sourceDir)(n);
  }
}
