/**
 * The function pipeline's parser-side helpers: the record of one imported
 * name, the facts Python's parser reports for a file, the mapping between
 * module names and files, and the module-level dependency graph.
 */
module AstParser {
  import opened Wrappers
  import opened Strings
  import opened Paths

  /**
   * One imported name. `import M [as a]` gives `(M, M, false, a)`,
   * `from M import n [as a]` gives `(M, n, true, a)`.
   */
  datatype ImportInfo = ImportInfo(moduleName: string, name: string, isFromImport: bool, alias: Option<string>)

  /**
   * What Python's parser reports about one file: its imported names in
   * `ast.walk` order and the names it binds, or a syntax error.
   */
  datatype Analysis = SyntaxError | Parsed(imports: seq<ImportInfo>, definedNames: set<string>)

  /** `analyze_file`: the parser's facts, with nothing at all for a file that does not parse. */
  function AnalyzeFile(a: Analysis): (r: (seq<ImportInfo>, set<string>))
    ensures a.SyntaxError? ==> r.0 == [] && r.1 == {}
    ensures a.Parsed? ==> r.0 == a.imports && r.1 == a.definedNames
  {
    match a
    case SyntaxError => ([], {})
    case Parsed(imports, names) => (imports, names)
  }

  /**
   * What the parser guarantees of every record it makes: a plain import
   * names its own module, and a from-import's module never starts with '.'
   * (the parser keeps the leading dots apart, as the import's level).
   */
  predicate FromParser(imp: ImportInfo) {
    (imp.isFromImport || imp.name == imp.moduleName) && !StartsWith(imp.moduleName, ".")
  }

  // ---------------------------------------------------------------------
  // _resolve_module_to_filepath
  // ---------------------------------------------------------------------

  /** A module name without its leading dots. */
  function StripLeadingDots(s: string): (r: string)
    ensures !StartsWith(r, ".")
    ensures EndsWith(s, r)
    ensures forall i :: 0 <= i < |s| - |r| ==> s[i] == '.'
    decreases |s|
  {
    if StartsWith(s, ".") then
      var r := StripLeadingDots(s[1..]);
      DotsBeforeTail(s, r);
      r
    else s
  }

  lemma DotsBeforeTail(s: string, r: string)
    requires StartsWith(s, ".") && EndsWith(s[1..], r)
    requires forall i :: 0 <= i < |s| - 1 - |r| ==> s[1..][i] == '.'
    ensures EndsWith(s, r)
    ensures forall i :: 0 <= i < |s| - |r| ==> s[i] == '.'
  {
    SuffixOfTail(s, r);
    assert s[0] == '.' by { assert s[..1] == "."; }
    forall i | 1 <= i < |s| - |r|
      ensures s[i] == '.'
    {
      assert s[1..][i - 1] == s[i];
    }
  }

  /** A name of dots alone strips to nothing. */
  lemma {:induction false} AllDotsStripToNothing(s: string)
    ensures (forall i :: 0 <= i < |s| ==> s[i] == '.') ==> StripLeadingDots(s) == ""
    decreases |s|
  {
    if |s| > 0 && forall i :: 0 <= i < |s| ==> s[i] == '.' {
      assert s[..1] == ".";
      AllDotsStripToNothing(s[1..]);
    }
  }

  /** `<input_dir>/<name with '.' as '/'>.py` */
  function FileCandidate(inputDir: string, name: string): string {
    OsJoin(inputDir, Replace(name, '.', '/') + ".py")
  }

  /** `<input_dir>/<name with '.' as '/'>/__init__.py` */
  function PackageCandidate(inputDir: string, name: string): string {
    OsJoin(OsJoin(inputDir, Replace(name, '.', '/')), "__init__.py")
  }

  /**
   * `_resolve_module_to_filepath`: strip the leading dots, then try the
   * module's own file before its package's `__init__.py`, accepting only
   * paths in `projectFiles`; a name of dots alone resolves to nothing.
   */
  method ResolveModuleToFilepath(moduleName: string, projectFiles: seq<string>, inputDir: string)
    returns (r: Option<string>)
    ensures r.Some? ==> r.value in projectFiles
    ensures (forall i :: 0 <= i < |moduleName| ==> moduleName[i] == '.') ==> r == None
    ensures var name := StripLeadingDots(moduleName);
      name != "" ==>
        (FileCandidate(inputDir, name) in projectFiles ==> r == Some(FileCandidate(inputDir, name)))
        && (FileCandidate(inputDir, name) !in projectFiles && PackageCandidate(inputDir, name) in projectFiles
            ==> r == Some(PackageCandidate(inputDir, name)))
        && (FileCandidate(inputDir, name) !in projectFiles && PackageCandidate(inputDir, name) !in projectFiles
            ==> r == None)
  {
    var name := moduleName;
    while StartsWith(name, ".")
      invariant StripLeadingDots(name) == StripLeadingDots(moduleName)
      decreases |name|
    {
      name := name[1..];
    }
    assert name == StripLeadingDots(moduleName);
    if name == "" {
      return None;
    }
    AllDotsStripToNothing(moduleName);
    var suffix := Replace(name, '.', '/');
    var possibleFile := OsJoin(inputDir, suffix + ".py");
    if possibleFile in projectFiles {
      return Some(possibleFile);
    }
    var possibleInit := OsJoin(OsJoin(inputDir, suffix), "__init__.py");
    if possibleInit in projectFiles {
      return Some(possibleInit);
    }
    return None;
  }

  /** The candidates of a dotted name spell its segments as directories. */
  lemma CandidatesOfDottedName(inputDir: string, parts: seq<string>)
    requires |parts| >= 1
    requires forall i :: 0 <= i < |parts| ==> '.' !in parts[i]
    ensures FileCandidate(inputDir, Join(parts, ".")) == OsJoin(inputDir, Join(parts, "/") + ".py")
    ensures PackageCandidate(inputDir, Join(parts, ".")) == OsJoin(OsJoin(inputDir, Join(parts, "/")), "__init__.py")
  {
    SplitJoin(parts, '.');
    ReplaceIsSplitJoin(Join(parts, "."), '.', '/');
  }

  // ---------------------------------------------------------------------
  // get_module_name
  // ---------------------------------------------------------------------

  /**
   * `get_module_name`: the dotted name of a file relative to the source
   * directory, both taken absolute first; the bare stem for a file outside
   * it; a ValueError for the source directory itself, whose relative path
   * "." has no name to drop a suffix from.
   */
  function GetModuleName(filePath: Path, sourceDir: Path, cwd: Path): (r: Result<string>)
    ensures WellFormed(filePath) && WellFormed(cwd) ==>
      (r.Failure? <==> Resolve(filePath, cwd) == Resolve(sourceDir, cwd))
    ensures RelativeTo(Resolve(filePath, cwd), Resolve(sourceDir, cwd)).None?
      ==> r == Ok(Stem(Name(Resolve(filePath, cwd))))
  {
    RelativeName(Resolve(filePath, cwd), Resolve(sourceDir, cwd))
  }

  /** `get_module_name` once both paths are absolute. */
  function RelativeName(f: Path, s: Path): (r: Result<string>)
    ensures WellFormed(f) ==> (r.Failure? <==> f == s)
  {
    match RelativeTo(f, s)
    case None => Ok(Stem(Name(f)))
    case Some(rel) =>
      match WithSuffix(rel, "")
      case Failure(m) =>
        assert |rel.segs| > 0 ==> Name(rel) == f.segs[|f.segs| - 1];
        assert |rel.segs| == 0 ==> f.segs == f.segs[..|s.segs|];
        Failure(m)
      case Ok(q) => Ok(Replace(Replace(Str(q), '\\', '.'), '/', '.'))
  }

  /** A segment that carries no '.', '/' or '\\' of its own. */
  predicate PlainSegment(s: string) {
    s != "" && '.' !in s && '/' !in s && '\\' !in s
  }

  /** The stem of `<stem>.py` for a dot-free stem. */
  lemma StemOfPy(stem: string)
    requires PlainSegment(stem)
    ensures Stem(stem + ".py") == stem
  {
    var name := stem + ".py";
    var i := RFind(name, '.');
    assert name[|stem|] == '.' && name[|stem| + 1] == 'p' && name[|stem| + 2] == 'y';
    assert forall j :: 0 <= j < |stem| ==> name[j] == stem[j];
    assert name[..|stem|] == stem;
  }

  /** Joined with '/' and then with every '/' or '\\' made a '.', plain segments read as a dotted name. */
  lemma DottedJoin(parts: seq<string>)
    requires |parts| >= 1
    requires forall i :: 0 <= i < |parts| ==> PlainSegment(parts[i])
    ensures Replace(Replace(Join(parts, "/"), '\\', '.'), '/', '.') == Join(parts, ".")
  {
    var j := Join(parts, "/");
    JoinAvoids(parts, "/", '\\');
    ReplaceAbsent(j, '\\', '.');
    ReplaceIsSplitJoin(j, '/', '.');
    SplitJoin(parts, '/');
  }

  /**
   * A file `<dirs>/<stem>.py` under the source directory is named by its
   * directories and its stem joined with '.'.
   */
  lemma ModuleNameInside(filePath: Path, sourceDir: Path, cwd: Path, dirs: seq<string>, stem: string)
    requires forall i :: 0 <= i < |dirs| ==> PlainSegment(dirs[i])
    requires PlainSegment(stem)
    requires Resolve(filePath, cwd) == Path(true, Resolve(sourceDir, cwd).segs + dirs + [stem + ".py"])
    ensures GetModuleName(filePath, sourceDir, cwd) == Ok(Join(dirs + [stem], "."))
  {
    RelativeNameInside(Resolve(sourceDir, cwd).segs, dirs, stem);
  }

  lemma RelativeNameInside(base: seq<string>, dirs: seq<string>, stem: string)
    requires forall i :: 0 <= i < |dirs| ==> PlainSegment(dirs[i])
    requires PlainSegment(stem)
    ensures RelativeName(Path(true, base + dirs + [stem + ".py"]), Path(true, base)) == Ok(Join(dirs + [stem], "."))
  {
    var f := Path(true, base + dirs + [stem + ".py"]);
    var parts := dirs + [stem];
    var rel := Path(false, dirs + [stem + ".py"]);
    AppendAssoc(base, dirs, [stem + ".py"]);
    RelativeToBelow(base, rel.segs);
    WithoutPySuffix(dirs, stem);
    assert Str(Path(false, parts)) == Join(parts, "/");
    DottedJoinOfPy(dirs, stem);
  }

  lemma DottedJoinOfPy(dirs: seq<string>, stem: string)
    requires forall i :: 0 <= i < |dirs| ==> PlainSegment(dirs[i])
    requires PlainSegment(stem)
    ensures Replace(Replace(Join(dirs + [stem], "/"), '\\', '.'), '/', '.') == Join(dirs + [stem], ".")
  {
    var parts := dirs + [stem];
    assert forall i :: 0 <= i < |parts| ==> PlainSegment(parts[i]) by {
      forall i | 0 <= i < |parts| ensures PlainSegment(parts[i]) {
        if i < |dirs| { assert parts[i] == dirs[i]; }
      }
    }
    DottedJoin(parts);
  }

  lemma RelativeToBelow(base: seq<string>, below: seq<string>)
    ensures RelativeTo(Path(true, base + below), Path(true, base)) == Some(Path(false, below))
  {
    assert (base + below)[..|base|] == base;
    assert (base + below)[|base|..] == below;
  }

  lemma WithoutPySuffix(dirs: seq<string>, stem: string)
    requires PlainSegment(stem)
    ensures WithSuffix(Path(false, dirs + [stem + ".py"]), "") == Ok(Path(false, dirs + [stem]))
  {
    StemOfPy(stem);
    var segs := dirs + [stem + ".py"];
    assert segs[..|segs| - 1] == dirs;
    assert Name(Path(false, segs)) == stem + ".py";
    assert Stem(stem + ".py") + "" == stem;
  }

  // ---------------------------------------------------------------------
  // build_dependency_graph
  // ---------------------------------------------------------------------

  /** The top-level packages the project treats as its own. */
  const LocalPrefixes: set<string> := {"utils", "models", "services"}

  /** A module is local when its first dotted segment is a local package. */
  predicate IsLocal(m: string) {
    Split(m, '.')[0] in LocalPrefixes
  }

  /** `p.parent` taken `n` times. */
  function Ascend(p: Path, n: nat): (r: Path)
    ensures r.absolute == p.absolute
    ensures r.segs == p.segs[..if n <= |p.segs| then |p.segs| - n else 0]
  {
    if n == 0 then p else Parent(Ascend(p, n - 1))
  }

  /** An import is written relative when it is a from-import whose module starts with '.'. */
  predicate IsRelative(imp: ImportInfo) {
    imp.isFromImport && StartsWith(imp.moduleName, ".")
  }

  /** The module an import of `file` depends on. */
  function Target(imp: ImportInfo, file: Path, src: Path, cwd: Path): Result<string> {
    if IsRelative(imp) then
      GetModuleName(DivStr(Ascend(Parent(file), |Split(imp.moduleName, '.')| - 1), imp.name + ".py"), src, cwd)
    else Ok(imp.moduleName)
  }

  /**
   * A relative import climbs one directory above the file's own per '.' in
   * its module (whatever else the module says), and names `<name>.py` there.
   */
  lemma RelativeTargetClimbsPerDot(imp: ImportInfo, file: Path, src: Path, cwd: Path)
    requires IsRelative(imp)
    ensures Target(imp, file, src, cwd)
         == GetModuleName(DivStr(Ascend(Parent(file), Count(imp.moduleName, '.')), imp.name + ".py"), src, cwd)
  {
    SplitCount(imp.moduleName, '.');
  }

  /** For the parser's own records every target is the imported module itself. */
  lemma ParsedTargetIsModule(imp: ImportInfo, file: Path, src: Path, cwd: Path)
    requires FromParser(imp)
    ensures Target(imp, file, src, cwd) == Ok(imp.moduleName)
  {
  }

  /** The targets of a file's imports, in import order. */
  function Targets(imports: seq<ImportInfo>, file: Path, src: Path, cwd: Path): (r: seq<Result<string>>)
    ensures |r| == |imports|
  {
    seq(|imports|, j requires 0 <= j < |imports| => Target(imports[j], file, src, cwd))
  }

  /**
   * The edges one file contributes: the local ones among its targets, as a
   * set; the first target that cannot be named makes it fail instead.
   */
  function LocalTargets(targets: seq<Result<string>>): (r: Result<set<string>>)
    ensures r.Failure? <==> exists j :: 0 <= j < |targets| && targets[j].Failure?
    ensures r.Ok? ==> forall t :: t in r.value <==> IsLocal(t) && Ok(t) in targets
    decreases |targets|
  {
    if targets == [] then Ok({})
    else
      var init := targets[..|targets| - 1];
      assert targets == init + [targets[|targets| - 1]];
      match LocalTargets(init)
      case Failure(m) => Failure(m)
      case Ok(e) =>
        match targets[|targets| - 1]
        case Failure(m) => Failure(m)
        case Ok(t) => Ok(if IsLocal(t) then e + {t} else e)
  }

  lemma {:induction false} LocalTargetsFailurePersists(targets: seq<Result<string>>, n: nat)
    requires n <= |targets| && LocalTargets(targets[..n]).Failure?
    ensures LocalTargets(targets) == LocalTargets(targets[..n])
    decreases |targets| - n
  {
    if n < |targets| {
      assert targets[..n + 1][..n] == targets[..n];
      LocalTargetsFailurePersists(targets, n + 1);
    } else {
      assert targets[..n] == targets;
    }
  }

  /** A dictionary in insertion order: its keys, and the value of each. */
  datatype Graph = Graph(keys: seq<string>, succ: map<string, set<string>>)

  predicate ValidGraph(g: Graph) {
    Distinct(g.keys) && Elems(g.keys) == g.succ.Keys
  }

  /** `g[k] = v`: a new key goes last, an existing one keeps its place. */
  function Put(g: Graph, k: string, v: set<string>): (r: Graph)
    requires ValidGraph(g)
    ensures ValidGraph(r) && r.succ == g.succ[k := v]
    ensures k in g.succ ==> r.keys == g.keys
    ensures k !in g.succ ==> r.keys == g.keys + [k]
  {
    if k in g.succ then Graph(g.keys, g.succ[k := v])
    else
      assert Elems(g.keys + [k]) == Elems(g.keys) + {k};
      Graph(g.keys + [k], g.succ[k := v])
  }

  /** Setting a key twice is setting it to the second value. */
  lemma PutTwice(g: Graph, k: string, v: set<string>, w: set<string>)
    requires ValidGraph(g)
    ensures Put(Put(g, k, v), k, w) == Put(g, k, w)
  {
    assert g.succ[k := v][k := w] == g.succ[k := w];
  }

  /** What one `imports_by_file` entry contributes: its file's module name and its edges. */
  datatype Entry = Entry(name: Result<string>, edges: Result<set<string>>)

  function EntryOf(item: (string, seq<ImportInfo>), src: Path, cwd: Path): Entry {
    var file := Resolve(FromString(item.0), cwd);
    Entry(GetModuleName(file, src, cwd), LocalTargets(Targets(item.1, file, src, cwd)))
  }

  function Entries(items: seq<(string, seq<ImportInfo>)>, src: Path, cwd: Path): (r: seq<Entry>)
    ensures |r| == |items|
  {
    seq(|items|, i requires 0 <= i < |items| => EntryOf(items[i], src, cwd))
  }

  /** The graph the entries build one after the other; the first failure stops it. */
  function GraphOf(entries: seq<Entry>): (r: Result<Graph>)
    ensures r.Ok? ==> ValidGraph(r.value)
    decreases |entries|
  {
    if entries == [] then Ok(Graph([], map[]))
    else
      match GraphOf(entries[..|entries| - 1])
      case Failure(m) => Failure(m)
      case Ok(g) => AddEntry(g, entries[|entries| - 1])
  }

  /** One entry added to the graph built so far: its naming failure, its target failure, or its edges. */
  function AddEntry(g: Graph, last: Entry): Result<Graph>
    requires ValidGraph(g)
  {
    match last.name
    case Failure(m) => Failure(m)
    case Ok(name) =>
      match last.edges
      case Failure(m) => Failure(m)
      case Ok(e) => Ok(Put(g, name, e))
  }

  lemma GraphOfStep(entries: seq<Entry>, i: nat, g: Graph)
    requires i < |entries| && GraphOf(entries[..i]) == Ok(g)
    ensures entries[i].name.Failure? ==> GraphOf(entries[..i + 1]) == Failure(entries[i].name.message)
    ensures entries[i].name.Ok? && entries[i].edges.Failure? ==>
      GraphOf(entries[..i + 1]) == Failure(entries[i].edges.message)
    ensures entries[i].name.Ok? && entries[i].edges.Ok? ==>
      GraphOf(entries[..i + 1]) == Ok(Put(g, entries[i].name.value, entries[i].edges.value))
    ensures GraphOf(entries[..i + 1]) == AddEntry(g, entries[i])
  {
    TakeTake(entries, i, i + 1);
  }

  lemma {:induction false} GraphOfFailurePersists(entries: seq<Entry>, n: nat)
    requires n <= |entries| && GraphOf(entries[..n]).Failure?
    ensures GraphOf(entries) == GraphOf(entries[..n])
    decreases |entries| - n
  {
    if n < |entries| {
      assert entries[..n + 1][..n] == entries[..n];
      GraphOfFailurePersists(entries, n + 1);
    } else {
      assert entries[..n] == entries;
    }
  }

  /** Building fails exactly when some file's module name or some import's target cannot be named. */
  lemma {:induction false} GraphOfFails(entries: seq<Entry>)
    ensures GraphOf(entries).Failure? <==>
      exists i :: 0 <= i < |entries| && (entries[i].name.Failure? || entries[i].edges.Failure?)
    decreases |entries|
  {
    if entries != [] {
      var init := entries[..|entries| - 1];
      GraphOfFails(init);
      assert forall i :: 0 <= i < |init| ==> init[i] == entries[i];
    }
  }

  /**
   * Every file gets its module name as a key, whatever it imports, and
   * every key is the module name of some file.
   */
  lemma {:induction false} GraphKeysAreModules(entries: seq<Entry>)
    requires GraphOf(entries).Ok?
    ensures forall i :: 0 <= i < |entries| ==>
      entries[i].name.Ok? && entries[i].name.value in GraphOf(entries).value.succ
    ensures forall k :: k in GraphOf(entries).value.succ ==>
      exists i :: 0 <= i < |entries| && entries[i].name == Ok(k)
    decreases |entries|
  {
    if entries != [] {
      var init := entries[..|entries| - 1];
      GraphKeysAreModules(init);
      assert forall i :: 0 <= i < |init| ==> init[i] == entries[i];
    }
  }

  /**
   * A module's edges are those of the LAST file that bears its name: a
   * later file with the same module name replaces the earlier file's set.
   */
  lemma {:induction false} GraphEdgesOfLastFile(entries: seq<Entry>, i: nat)
    requires GraphOf(entries).Ok?
    requires i < |entries| && entries[i].name.Ok?
    requires forall j :: i < j < |entries| ==> entries[j].name != entries[i].name
    ensures entries[i].edges.Ok? && entries[i].name.value in GraphOf(entries).value.succ
    ensures GraphOf(entries).value.succ[entries[i].name.value] == entries[i].edges.value
    decreases |entries|
  {
    var init := entries[..|entries| - 1];
    assert forall j :: 0 <= j < |init| ==> init[j] == entries[j];
    if i < |entries| - 1 {
      GraphEdgesOfLastFile(init, i);
    }
  }

  /**
   * The target of one import as `build_dependency_graph` computes it,
   * climbing from the file's directory one parent at a time.
   */
  method ImportTarget(imp: ImportInfo, file: Path, src: Path, cwd: Path) returns (r: Result<string>)
    ensures r == Target(imp, file, src, cwd)
  {
    if imp.isFromImport && StartsWith(imp.moduleName, ".") {
      var parts := Split(imp.moduleName, '.');
      var currentDir := Parent(file);
      var k := 0;
      while k < |parts| - 1
        invariant 0 <= k <= |parts| - 1
        invariant currentDir == Ascend(Parent(file), k)
      {
        currentDir := Parent(currentDir);
        k := k + 1;
      }
      r := GetModuleName(DivStr(currentDir, imp.name + ".py"), src, cwd);
    } else {
      r := Ok(imp.moduleName);
    }
  }

  /** The inner loop of `build_dependency_graph`: one file's local targets. */
  method FileTargets(imports: seq<ImportInfo>, file: Path, src: Path, cwd: Path) returns (r: Result<set<string>>)
    ensures r == LocalTargets(Targets(imports, file, src, cwd))
  {
    ghost var targets := Targets(imports, file, src, cwd);
    var edges: set<string> := {};
    var j := 0;
    while j < |imports|
      invariant 0 <= j <= |imports|
      invariant LocalTargets(targets[..j]) == Ok(edges)
    {
      var next := AddTarget(imports, file, src, cwd, j, edges);
      if next.Failure? {
        LocalTargetsFailurePersists(targets, j + 1);
        return next;
      }
      edges := next.value;
      j := j + 1;
    }
    assert targets[..j] == targets;
    return Ok(edges);
  }

  /** One more import of the inner loop of `build_dependency_graph`. */
  method AddTarget(imports: seq<ImportInfo>, file: Path, src: Path, cwd: Path, j: nat, edges: set<string>)
    returns (r: Result<set<string>>)
    requires j < |imports| && LocalTargets(Targets(imports, file, src, cwd)[..j]) == Ok(edges)
    ensures r == LocalTargets(Targets(imports, file, src, cwd)[..j + 1])
  {
    ghost var targets := Targets(imports, file, src, cwd);
    TakeTake(targets, j, j + 1);
    var t := ImportTarget(imports[j], file, src, cwd);
    assert targets[j] == t;
    if t.Failure? {
      return Failure(t.message);
    }
    r := Ok(if IsLocal(t.value) then edges + {t.value} else edges);
  }

  /**
   * `build_dependency_graph`: every file's module name becomes a key bound
   * to an empty set, then the file's local targets fill that set.
   */
  method BuildDependencyGraph(importsByFile: seq<(string, seq<ImportInfo>)>, sourceDir: string, cwd: Path)
    returns (r: Result<Graph>)
    ensures r == GraphOf(Entries(importsByFile, Resolve(FromString(sourceDir), cwd), cwd))
  {
    var src := Resolve(FromString(sourceDir), cwd);
    ghost var entries := Entries(importsByFile, src, cwd);
    var graph := Graph([], map[]);
    var i := 0;
    while i < |importsByFile|
      invariant 0 <= i <= |importsByFile|
      invariant GraphOf(entries[..i]) == Ok(graph)
    {
      var next := AddNext(importsByFile, src, cwd, i, graph);
      if next.Failure? {
        GraphOfFailurePersists(entries, i + 1);
        return next;
      }
      graph := next.value;
      i := i + 1;
    }
    TakeAll(entries);
    return Ok(graph);
  }

  /** The next file of `build_dependency_graph` added to the graph of the files before it. */
  method AddNext(items: seq<(string, seq<ImportInfo>)>, src: Path, cwd: Path, i: nat, graph: Graph)
    returns (r: Result<Graph>)
    requires i < |items| && GraphOf(Entries(items, src, cwd)[..i]) == Ok(graph)
    ensures r == GraphOf(Entries(items, src, cwd)[..i + 1])
  {
    GraphOfStep(Entries(items, src, cwd), i, graph);
    r := AddFile(items[i], src, cwd, graph);
  }

  /**
   * One file of `build_dependency_graph`: its module name is bound to an
   * empty set, which its local targets then replace.
   */
  method AddFile(item: (string, seq<ImportInfo>), src: Path, cwd: Path, graph: Graph) returns (r: Result<Graph>)
    requires ValidGraph(graph)
    ensures r == AddEntry(graph, EntryOf(item, src, cwd))
  {
    var file := Resolve(FromString(item.0), cwd);
    var moduleName := GetModuleName(file, src, cwd);
    if moduleName.Failure? {
      return Failure(moduleName.message);
    }
    var g := Put(graph, moduleName.value, {});
    var edges := FileTargets(item.1, file, src, cwd);
    if edges.Failure? {
      return Failure(edges.message);
    }
    PutTwice(graph, moduleName.value, {}, edges.value);
    return Ok(Put(g, moduleName.value, edges.value));
  }
}
