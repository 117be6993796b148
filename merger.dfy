/**
 * `merge_files`: choose the entry file, collect the files reachable from
 * it through local imports, then write the external imports, the bodies
 * of the other files and finally the entry file's `main` block.
 *
 * The referenced files form a Python set, so both passes over them follow
 * an order nothing specifies; the model takes that order as an arbitrary
 * enumeration and promises nothing that depends on it.
 */
module Merger {
  import opened Wrappers
  import opened Strings
  import opened Paths
  import opened Digraph
  import opened AstParser
  import opened MergeLines

  /**
   * What `merge_files` reads: the file system, Python's parser (as the
   * facts it reports for a text), the source directory and the working
   * directory `resolve` starts from.
   */
  datatype Project = Project(fs: FileSystem, parse: string -> Analysis, sourceDir: Path, cwd: Path)

  const NoEntryMessage: string := "No entry file specified and no main.py found in the source directory"

  // ---------------------------------------------------------------------
  // the entry file
  // ---------------------------------------------------------------------

  /** `p` is the first of `files` named `main.py`. */
  ghost predicate IsFirstMain(files: seq<Path>, p: Path) {
    exists i :: 0 <= i < |files| && files[i] == p && Name(p) == "main.py"
                && forall j :: 0 <= j < i ==> Name(files[j]) != "main.py"
  }

  /** The given entry file, or else the first file named `main.py`; ValueError when there is none. */
  method SelectEntry(files: seq<Path>, entryFile: Option<Path>) returns (r: Result<Path>)
    ensures entryFile.Some? ==> r == Ok(entryFile.value)
    ensures entryFile.None? ==> (r.Failure? <==> forall i :: 0 <= i < |files| ==> Name(files[i]) != "main.py")
    ensures entryFile.None? && r.Ok? ==> IsFirstMain(files, r.value)
    ensures r.Failure? ==> r.message == NoEntryMessage
  {
    if entryFile.Some? {
      return Ok(entryFile.value);
    }
    var i := 0;
    while i < |files|
      invariant 0 <= i <= |files|
      invariant forall j :: 0 <= j < i ==> Name(files[j]) != "main.py"
    {
      if Name(files[i]) == "main.py" {
        return Ok(files[i]);
      }
      i := i + 1;
    }
    return Failure(NoEntryMessage);
  }

  // ---------------------------------------------------------------------
  // the files referenced from the entry file
  // ---------------------------------------------------------------------

  /** `Path(*parts)`: the parts joined one after another. */
  function PathOfParts(parts: seq<string>): Path
  {
    if parts == [] then Path(false, []) else DivStr(PathOfParts(parts[..|parts| - 1]), parts[|parts| - 1])
  }

  /**
   * The file a local import points at, before the existence test: for a
   * from-import `source_dir / "<a>/<b>.py"` built from the dotted parts, for
   * a plain import `source_dir / "<a.b>.py"` with the dots left in place.
   */
  function ImportCandidate(imp: ImportInfo, sourceDir: Path): Option<Path>
  {
    if !IsLocal(imp.moduleName) then None
    else if imp.isFromImport then Some(DivStr(sourceDir, Str(PathOfParts(Split(imp.moduleName, '.'))) + ".py"))
    else Some(DivStr(sourceDir, Str(FromString(imp.moduleName)) + ".py"))
  }

  lemma {:induction false} PathOfSegments(parts: seq<string>)
    requires forall i :: 0 <= i < |parts| ==> IsSegment(parts[i])
    ensures PathOfParts(parts) == Path(false, parts)
    decreases |parts|
  {
    if parts != [] {
      PathOfSegments(parts[..|parts| - 1]);
      DivSegment(Path(false, parts[..|parts| - 1]), parts[|parts| - 1]);
      TakeSnoc(parts);
    }
  }

  /**
   * A from-import of a dotted module of plain names points at the file of
   * the names joined with '/', plus ".py".
   */
  lemma FromImportCandidate(imp: ImportInfo, sourceDir: Path, parts: seq<string>)
    requires imp.isFromImport && |parts| >= 1 && imp.moduleName == Join(parts, ".")
    requires forall i :: 0 <= i < |parts| ==> PlainSegment(parts[i])
    requires parts[0] in LocalPrefixes
    ensures ImportCandidate(imp, sourceDir) == Some(DivStr(sourceDir, Join(parts, "/") + ".py"))
  {
    SplitJoin(parts, '.');
    PathOfSegments(parts);
  }

  /** A plain local import keeps its dots: `import utils.x` points at `utils.x.py`. */
  lemma PlainImportCandidate(imp: ImportInfo, sourceDir: Path)
    requires !imp.isFromImport && IsLocal(imp.moduleName) && IsSegment(imp.moduleName)
    ensures ImportCandidate(imp, sourceDir) == Some(DivStr(sourceDir, imp.moduleName + ".py"))
  {
    SplitNoSep(imp.moduleName, '/');
    KeepSegments([imp.moduleName]);
    assert !StartsWith(imp.moduleName, "/") by {
      assert imp.moduleName[0] in imp.moduleName;
    }
  }

  /** The existing files that the local imports of `imports` point at. */
  function LocalFiles(imports: seq<ImportInfo>, fs: FileSystem, sourceDir: Path): (r: set<Path>)
    ensures forall c :: c in r ==> Exists(fs, c)
  {
    Followed(imports, fs, imp => ImportCandidate(imp, sourceDir))
  }

  /** The existing files that `cand` makes of `imports`, added one import after the other. */
  function Followed(imports: seq<ImportInfo>, fs: FileSystem, cand: ImportInfo -> Option<Path>): (r: set<Path>)
    ensures forall c :: c in r ==> Exists(fs, c)
  {
    if imports == [] then {}
    else
      var c := cand(imports[|imports| - 1]);
      Followed(imports[..|imports| - 1], fs, cand) + (if c.Some? && Exists(fs, c.value) then {c.value} else {})
  }

  /** Every local import that points at an existing file is followed, and nothing else is. */
  lemma LocalFilesMembers(imports: seq<ImportInfo>, fs: FileSystem, sourceDir: Path, c: Path)
    ensures c in LocalFiles(imports, fs, sourceDir) <==>
      Exists(fs, c) && exists i :: 0 <= i < |imports| && ImportCandidate(imports[i], sourceDir) == Some(c)
  {
    var cand := imp => ImportCandidate(imp, sourceDir);
    FollowedMembers(imports, fs, cand, c);
    assert forall i :: 0 <= i < |imports| ==> cand(imports[i]) == ImportCandidate(imports[i], sourceDir);
  }

  lemma {:induction false} FollowedMembers(imports: seq<ImportInfo>, fs: FileSystem, cand: ImportInfo -> Option<Path>, c: Path)
    ensures c in Followed(imports, fs, cand) <==>
      Exists(fs, c) && exists i :: 0 <= i < |imports| && cand(imports[i]) == Some(c)
    decreases |imports|
  {
    if imports != [] {
      var init := imports[..|imports| - 1];
      FollowedMembers(init, fs, cand, c);
      if c in Followed(imports, fs, cand) && c !in Followed(init, fs, cand) {
        assert cand(imports[|imports| - 1]) == Some(c);
      }
      if Exists(fs, c) && exists i :: 0 <= i < |imports| && cand(imports[i]) == Some(c) {
        var i :| 0 <= i < |imports| && cand(imports[i]) == Some(c);
        if i < |init| {
          assert init[i] == imports[i];
        }
      }
    }
  }

  lemma LocalFilesStep(imports: seq<ImportInfo>, j: nat, fs: FileSystem, sourceDir: Path)
    requires j < |imports|
    ensures var c := ImportCandidate(imports[j], sourceDir);
      LocalFiles(imports[..j + 1], fs, sourceDir)
      == LocalFiles(imports[..j], fs, sourceDir) + (if c.Some? && Exists(fs, c.value) then {c.value} else {})
  {
    assert imports[..j + 1][..j] == imports[..j];
  }

  /** The text the merger reads for a file: `source_dir / f`, "" when missing. */
  function FileText(pr: Project, f: Path): string {
    Content(pr.fs, Div(pr.sourceDir, f))
  }

  /** The import records of a file, none when its text is empty or missing. */
  function FileImports(pr: Project, f: Path): seq<ImportInfo> {
    var content := FileText(pr, f);
    if content == "" then [] else AnalyzeFile(pr.parse(content)).0
  }

  /** The files one file leads the worklist to. */
  ghost function Step(pr: Project): Path -> set<Path> {
    f => LocalFiles(FileImports(pr, f), pr.fs, pr.sourceDir)
  }

  /** The inner loop: add the existing local files that `imports` point at. */
  method AddLocalFiles(pr: Project, imports: seq<ImportInfo>, toProcess: set<Path>) returns (r: set<Path>)
    ensures r == toProcess + LocalFiles(imports, pr.fs, pr.sourceDir)
  {
    r := toProcess;
    var j := 0;
    while j < |imports|
      invariant 0 <= j <= |imports|
      invariant r == toProcess + LocalFiles(imports[..j], pr.fs, pr.sourceDir)
    {
      LocalFilesStep(imports, j, pr.fs, pr.sourceDir);
      var candidate := ImportCandidate(imports[j], pr.sourceDir);
      if candidate.Some? && Exists(pr.fs, candidate.value) {
        r := r + {candidate.value};
      }
      j := j + 1;
    }
    assert imports[..j] == imports;
  }

  /** Whatever a reachable file leads to is reachable, and exists. */
  lemma StepFromReachable(pr: Project, entry: Path, f: Path)
    requires Reaches(Step(pr), entry, f)
    ensures forall c :: c in Step(pr)(f) ==> Reaches(Step(pr), entry, c) && Exists(pr.fs, c)
  {
    forall c | c in Step(pr)(f) ensures Reaches(Step(pr), entry, c) {
      ReachesStep(Step(pr), entry, f, c);
    }
  }

  /** The worklist invariant of `merge_files`. */
  ghost predicate Worklist(pr: Project, entry: Path, processed: set<Path>, toProcess: set<Path>, universe: set<Path>) {
    Frontier(Step(pr), entry, processed, toProcess, universe)
  }

  /** Processing one file of the worklist keeps the invariant. */
  lemma WorklistStep(pr: Project, entry: Path, processed: set<Path>, toProcess: set<Path>, universe: set<Path>, f: Path)
    requires Worklist(pr, entry, processed, toProcess, universe)
    requires f in toProcess && f !in processed
    requires forall c :: Exists(pr.fs, c) ==> c in universe
    ensures Worklist(pr, entry, processed + {f}, toProcess - {f} + Step(pr)(f), universe)
  {
    StepFromReachable(pr, entry, f);
    FrontierStep(Step(pr), entry, processed, toProcess, universe, f);
  }

  /** One turn of the worklist: read the file, parse it and queue the local files it imports. */
  method FollowImports(pr: Project, currentFile: Path, toProcess: set<Path>) returns (r: set<Path>)
    ensures r == toProcess + Step(pr)(currentFile)
  {
    var content := FileText(pr, currentFile);
    if content == "" {
      return toProcess;
    }
    var imports := AnalyzeFile(pr.parse(content)).0;
    r := AddLocalFiles(pr, imports, toProcess);
  }

  /** Taking an already processed file off the worklist keeps the invariant. */
  lemma WorklistSkip(pr: Project, entry: Path, processed: set<Path>, toProcess: set<Path>, universe: set<Path>, f: Path)
    requires Worklist(pr, entry, processed, toProcess, universe)
    requires f in processed
    ensures Worklist(pr, entry, processed, toProcess - {f}, universe)
  {
    FrontierSkip(Step(pr), entry, processed, toProcess, universe, f);
  }

  /** An empty worklist leaves exactly the files the entry file leads to. */
  lemma WorklistDone(pr: Project, entry: Path, processed: set<Path>, universe: set<Path>)
    requires Worklist(pr, entry, processed, {}, universe)
    ensures forall f :: f in processed <==> Reaches(Step(pr), entry, f)
  {
    assert processed + {} == processed;
    forall f | Reaches(Step(pr), entry, f) ensures f in processed {
      ClosedContainsReachable(Step(pr), processed, entry, f);
    }
  }

  /**
   * One turn of the worklist loop: pop a file and, unless it was processed
   * already, mark it and queue what it imports.
   */
  method WorklistTurn(pr: Project, ghost entry: Path, processed: set<Path>, toProcess: set<Path>, ghost universe: set<Path>)
    returns (processed': set<Path>, toProcess': set<Path>)
    requires toProcess != {} && Worklist(pr, entry, processed, toProcess, universe)
    requires forall c :: Exists(pr.fs, c) ==> c in universe
    ensures Worklist(pr, entry, processed', toProcess', universe)
    ensures processed <= processed'
    ensures processed' == processed ==> |toProcess'| < |toProcess|
    ensures processed' != processed ==> universe - processed' < universe - processed
  {
    var currentFile :| currentFile in toProcess;
    if currentFile in processed {
      WorklistSkip(pr, entry, processed, toProcess, universe, currentFile);
      RemoveShrinks(toProcess, currentFile);
      return processed, toProcess - {currentFile};
    }
    WorklistStep(pr, entry, processed, toProcess, universe, currentFile);
    MarkShrinks(universe, processed, currentFile);
    processed' := processed + {currentFile};
    toProcess' := FollowImports(pr, currentFile, toProcess - {currentFile});
  }

  /**
   * The worklist of `merge_files`: each file is processed once, and the
   * result is exactly the set of files the entry file leads to.
   */
  method CollectReferenced(pr: Project, entry: Path) returns (referenced: set<Path>)
    ensures forall f :: f in referenced <==> Reaches(Step(pr), entry, f)
  {
    var toProcess := {entry};
    var processed: set<Path> := {};
    ghost var universe := {entry} + pr.fs.files.Keys + pr.fs.dirs;
    ReachesRefl(Step(pr), entry);
    assert Worklist(pr, entry, processed, toProcess, universe);
    while toProcess != {}
      invariant Worklist(pr, entry, processed, toProcess, universe)
      decreases universe - processed, |toProcess|
    {
      processed, toProcess := WorklistTurn(pr, entry, processed, toProcess, universe);
    }
    WorklistDone(pr, entry, processed, universe);
    referenced := processed;
  }

  /** Iterating a Python set: every element once, in an order nothing here depends on. */
  method Enumerate(s: set<Path>) returns (r: seq<Path>)
    ensures Distinct(r) && Elems(r) == s
  {
    r := [];
    var rest := s;
    while rest != {}
      invariant Distinct(r) && Elems(r) + rest == s && Elems(r) !! rest
      decreases |rest|
    {
      var x :| x in rest;
      r := r + [x];
      rest := rest - {x};
    }
  }

  // ---------------------------------------------------------------------
  // local modules
  // ---------------------------------------------------------------------

  /** A module name and each of its proper dotted prefixes. */
  function ModulePrefixes(m: string): set<string> {
    var parts := Split(m, '.');
    {m} + set i | 1 <= i < |parts| :: Join(parts[..i], ".")
  }

  /** The top-level package of a referenced module is always a local module. */
  lemma FirstSegmentIsLocal(m: string)
    ensures Split(m, '.')[0] in ModulePrefixes(m)
  {
    var parts := Split(m, '.');
    if |parts| == 1 {
      JoinSplit(m, '.');
    } else {
      assert Join(parts[..1], ".") == parts[0];
    }
  }

  /** `local_modules.add(module_name)` and the loop adding the parent modules. */
  method AddModule(localModules: set<string>, moduleName: string) returns (r: set<string>)
    ensures r == localModules + ModulePrefixes(moduleName)
  {
    r := localModules + {moduleName};
    var parts := Split(moduleName, '.');
    var i := 1;
    while i < |parts|
      invariant 1 <= i <= |parts|
      invariant r == localModules + {moduleName} + set k | 1 <= k < i :: Join(parts[..k], ".")
    {
      r := r + {Join(parts[..i], ".")};
      i := i + 1;
    }
  }

  // ---------------------------------------------------------------------
  // the two passes
  // ---------------------------------------------------------------------

  /** `local_modules` and `all_imports` after the first pass, or the ValueError of `get_module_name`. */
  function FirstPassOf(pr: Project, order: seq<Path>): Result<(set<string>, seq<ImportInfo>)>
  {
    if order == [] then Ok(({}, []))
    else
      match FirstPassOf(pr, order[..|order| - 1])
      case Failure(e) => Failure(e)
      case Ok(acc) =>
        var f := order[|order| - 1];
        var content := FileText(pr, f);
        if content == "" then Ok(acc)
        else
          match GetModuleName(Div(pr.sourceDir, f), pr.sourceDir, pr.cwd)
          case Failure(e) => Failure(e)
          case Ok(m) => Ok((acc.0 + ModulePrefixes(m), acc.1 + AnalyzeFile(pr.parse(content)).0))
  }

  /** The block the first pass captures from the entry file. */
  function EntryBlockOf(pr: Project, entry: Path): seq<string> {
    var content := FileText(pr, entry);
    if content == "" then [] else EntryBlock(Split(content, '\n'), false)
  }

  /**
   * The first pass: module names, their prefixes and all import records,
   * and the entry file's block when the entry file comes by.
   */
  method FirstPass(pr: Project, order: seq<Path>, entry: Path)
    returns (r: Result<(set<string>, seq<ImportInfo>)>, mainPyContent: seq<string>)
    requires Distinct(order)
    ensures r == FirstPassOf(pr, order)
    ensures r.Ok? && entry in order ==> mainPyContent == EntryBlockOf(pr, entry)
  {
    var localModules: set<string> := {};
    var allImports: seq<ImportInfo> := [];
    mainPyContent := [];
    var i := 0;
    while i < |order|
      invariant 0 <= i <= |order|
      invariant FirstPassOf(pr, order[..i]) == Ok((localModules, allImports))
      invariant entry in order[..i] ==> mainPyContent == EntryBlockOf(pr, entry)
      invariant entry !in order[..i] ==> mainPyContent == []
    {
      var filePath := order[i];
      assert order[..i + 1][..i] == order[..i];
      assert forall x :: x in order[..i + 1] <==> x in order[..i] || x == filePath;
      var content := FileText(pr, filePath);
      if content == "" {
        i := i + 1;
        continue;
      }
      var moduleName := GetModuleName(Div(pr.sourceDir, filePath), pr.sourceDir, pr.cwd);
      if moduleName.Failure? {
        FirstPassFailurePersists(pr, order, i + 1);
        return Failure(moduleName.message), mainPyContent;
      }
      localModules := AddModule(localModules, moduleName.value);
      allImports := allImports + AnalyzeFile(pr.parse(content)).0;
      if filePath == entry {
        mainPyContent := CaptureEntryBlock(Split(content, '\n'));
      }
      i := i + 1;
    }
    assert order[..i] == order;
    return Ok((localModules, allImports)), mainPyContent;
  }

  lemma {:induction false} FirstPassFailurePersists(pr: Project, order: seq<Path>, n: nat)
    requires n <= |order| && FirstPassOf(pr, order[..n]).Failure?
    ensures FirstPassOf(pr, order) == FirstPassOf(pr, order[..n])
    decreases |order| - n
  {
    if n < |order| {
      assert order[..n + 1][..n] == order[..n];
      FirstPassFailurePersists(pr, order, n + 1);
    } else {
      assert order[..n] == order;
    }
  }

  /** The header written above a file's body. */
  function Header(rel: Path): string {
    "# --- Content from: " + Str(rel) + " ---"
  }

  /**
   * What the second pass writes for one file: nothing for the entry file
   * or an empty file, else its header and, when any line is kept, the kept
   * lines and a blank line; ValueError when the file is not below the
   * source directory.
   */
  function FileBody(pr: Project, entry: Path, f: Path): Result<seq<string>> {
    var content := FileText(pr, f);
    if content == "" || f == entry then Ok([])
    else
      match RelativeTo(Div(pr.sourceDir, f), pr.sourceDir)
      case None => Failure("ValueError: file is not within the source directory")
      case Some(rel) =>
        var kept := KeptLines(Split(content, '\n'));
        Ok([Header(rel)] + (if kept == [] then [] else kept + [""]))
  }

  /** The second pass over `order`. */
  function Bodies(pr: Project, entry: Path, order: seq<Path>): Result<seq<string>> {
    if order == [] then Ok([])
    else
      match Bodies(pr, entry, order[..|order| - 1])
      case Failure(e) => Failure(e)
      case Ok(acc) =>
        match FileBody(pr, entry, order[|order| - 1])
        case Failure(e) => Failure(e)
        case Ok(body) => Ok(acc + body)
  }

  lemma {:induction false} BodiesFailurePersists(pr: Project, entry: Path, order: seq<Path>, n: nat)
    requires n <= |order| && Bodies(pr, entry, order[..n]).Failure?
    ensures Bodies(pr, entry, order) == Bodies(pr, entry, order[..n])
    decreases |order| - n
  {
    if n < |order| {
      assert order[..n + 1][..n] == order[..n];
      BodiesFailurePersists(pr, entry, order, n + 1);
    } else {
      assert order[..n] == order;
    }
  }

  /** The entry file contributes nothing to the bodies, wherever it comes in the order. */
  lemma {:induction false} BodiesSkipEntry(pr: Project, entry: Path, a: seq<Path>, b: seq<Path>)
    ensures Bodies(pr, entry, a + [entry] + b) == Bodies(pr, entry, a + b)
    decreases |b|
  {
    if b == [] {
      assert (a + [entry] + b)[..|a|] == a;
      assert (a + [entry] + b)[|a|] == entry;
      assert a + b == a;
      assert FileBody(pr, entry, entry) == Ok([]);
      match Bodies(pr, entry, a)
      case Failure(e) =>
      case Ok(acc) => assert acc + [] == acc;
    } else {
      var init := b[..|b| - 1];
      BodiesSkipEntry(pr, entry, a, init);
      assert (a + [entry] + b)[..|a + [entry] + b| - 1] == a + [entry] + init;
      assert (a + b)[..|a + b| - 1] == a + init;
    }
  }

  lemma BodiesStep(pr: Project, entry: Path, order: seq<Path>, i: nat)
    requires i < |order|
    ensures Bodies(pr, entry, order[..i + 1]) ==
      match Bodies(pr, entry, order[..i])
      case Failure(e) => Failure(e)
      case Ok(acc) =>
        match FileBody(pr, entry, order[i])
        case Failure(e) => Failure(e)
        case Ok(body) => Ok(acc + body)
  {
    assert order[..i + 1][..i] == order[..i];
  }

  /** The second pass for one file. */
  method WriteFileBody(pr: Project, entry: Path, filePath: Path) returns (r: Result<seq<string>>)
    ensures r == FileBody(pr, entry, filePath)
  {
    var content := FileText(pr, filePath);
    if content == "" || filePath == entry {
      return Ok([]);
    }
    var relativePath := RelativeTo(Div(pr.sourceDir, filePath), pr.sourceDir);
    if relativePath.None? {
      return Failure("ValueError: file is not within the source directory");
    }
    var lines := [Header(relativePath.value)];
    var fileContent := FilterBody(Split(content, '\n'));
    if fileContent != [] {
      lines := lines + (fileContent + [""]);
    } else {
      assert lines == lines + [];
    }
    return Ok(lines);
  }

  /** The second pass: the bodies of the referenced files other than the entry file. */
  method SecondPass(pr: Project, order: seq<Path>, entry: Path) returns (r: Result<seq<string>>)
    ensures r == Bodies(pr, entry, order)
  {
    var merged: seq<string> := [];
    var i := 0;
    while i < |order|
      invariant 0 <= i <= |order|
      invariant Bodies(pr, entry, order[..i]) == Ok(merged)
    {
      BodiesStep(pr, entry, order, i);
      var body := WriteFileBody(pr, entry, order[i]);
      if body.Failure? {
        BodiesFailurePersists(pr, entry, order, i + 1);
        return Failure(body.message);
      }
      merged := merged + body.value;
      i := i + 1;
    }
    assert order[..i] == order;
    return Ok(merged);
  }

  /**
   * The lines `merge_files` writes, joined by "\n", for the files taken in
   * `order`: the external imports, a blank line, the bodies, and the entry
   * block after a blank line when there is one.
   */
  ghost function Merged(pr: Project, entry: Path, order: seq<Path>): Result<seq<string>> {
    match FirstPassOf(pr, order)
    case Failure(e) => Failure(e)
    case Ok(first) =>
      match Bodies(pr, entry, order)
      case Failure(e) => Failure(e)
      case Ok(bodies) =>
        var block := EntryBlockOf(pr, entry);
        Ok(FirstSeen(ExternalStatements(first.1, first.0)) + [""] + bodies + (if block == [] then [] else [""] + block))
  }

  /** `Merged` from the results of its parts. */
  lemma MergedOfParts(pr: Project, entry: Path, order: seq<Path>,
                      first: (set<string>, seq<ImportInfo>), bodies: Result<seq<string>>)
    requires FirstPassOf(pr, order) == Ok(first) && Bodies(pr, entry, order) == bodies
    ensures bodies.Failure? ==> Merged(pr, entry, order) == Failure(bodies.message)
    ensures bodies.Ok? ==>
      Merged(pr, entry, order) ==
      Ok(FirstSeen(ExternalStatements(first.1, first.0)) + [""] + bodies.value
         + (if EntryBlockOf(pr, entry) == [] then [] else [""] + EntryBlockOf(pr, entry)))
  {
  }

  /**
   * `merge_files` once the entry file is settled: `order` is the order in
   * which it visits the files the entry file leads to.
   */
  method MergeReferenced(pr: Project, entry: Path) returns (r: Result<seq<string>>, ghost order: seq<Path>)
    ensures Distinct(order) && (forall f :: f in order <==> Reaches(Step(pr), entry, f))
    ensures r == Merged(pr, entry, order)
  {
    var referenced := CollectReferenced(pr, entry);
    var visitOrder := Enumerate(referenced);
    order := visitOrder;
    ReachesRefl(Step(pr), entry);
    assert entry in Elems(visitOrder);
    var first, mainPyContent := FirstPass(pr, visitOrder, entry);
    if first.Failure? {
      return Failure(first.message), order;
    }
    var (localModules, allImports) := first.value;
    var mergedContent := EmitExternalImports(allImports, localModules);
    mergedContent := mergedContent + [""];
    var bodies := SecondPass(pr, visitOrder, entry);
    MergedOfParts(pr, entry, visitOrder, first.value, bodies);
    if bodies.Failure? {
      return Failure(bodies.message), order;
    }
    ghost var external := FirstSeen(ExternalStatements(first.value.1, first.value.0));
    assert mergedContent == external + [""];
    assert mainPyContent == EntryBlockOf(pr, entry);
    mergedContent := mergedContent + bodies.value;
    if mainPyContent != [] {
      AppendAssoc(mergedContent, [""], mainPyContent);
      mergedContent := mergedContent + [""] + mainPyContent;
    } else {
      AppendEmpty(mergedContent);
    }
    return Ok(mergedContent), order;
  }

  /**
   * `merge_files`. `entry` is the entry file it settles on and `order` the
   * order in which it visits the referenced files; the lines returned are
   * what it writes to the output file, joined by "\n".
   */
  method MergeFiles(files: seq<Path>, pr: Project, entryFile: Option<Path>)
    returns (r: Result<seq<string>>, ghost entry: Option<Path>, ghost order: seq<Path>)
    ensures entry.None? <==> entryFile.None? && forall i :: 0 <= i < |files| ==> Name(files[i]) != "main.py"
    ensures entry.None? ==> r == Failure(NoEntryMessage)
    ensures entry.Some? && entryFile.Some? ==> entry.value == entryFile.value
    ensures entry.Some? && entryFile.None? ==> IsFirstMain(files, entry.value)
    ensures entry.Some? ==>
      Distinct(order) && (forall f :: f in order <==> Reaches(Step(pr), entry.value, f))
      && r == Merged(pr, entry.value, order)
  {
    var chosen := SelectEntry(files, entryFile);
    if chosen.Failure? {
      return Failure(chosen.message), None, [];
    }
    entry := Some(chosen.value);
    r, order := MergeReferenced(pr, chosen.value);
  }
}
