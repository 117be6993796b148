/**
 * The `PyCombiner` object: the dependency graph and the merge order it
 * keeps in fields and fills step by step, the import counters it keeps,
 * and the lines it writes to its output file.
 *
 * `source_dir.rglob('*.py')` is the sequence `pyFiles`, fixed when the
 * object is made; the same listing is used by both of its walks.
 */
module CombinerClass {
  import opened Strings
  import opened Paths
  import opened Digraph
  import opened Combiner
  import opened MergeOrder
  import opened MergeOutput

  /** The string form of every path, in order. */
  function Strs(files: seq<Path>): (r: seq<Node>)
    ensures |r| == |files| && forall i :: 0 <= i < |files| ==> r[i] == Str(files[i])
  {
    seq(|files|, i requires 0 <= i < |files| => Str(files[i]))
  }

  lemma StrsSnoc(files: seq<Path>)
    requires |files| > 0
    ensures Strs(files) == Strs(files[..|files| - 1]) + [Str(files[|files| - 1])]
  {
    var init := files[..|files| - 1];
    var r := Strs(init) + [Str(files[|files| - 1])];
    forall i | 0 <= i < |files| ensures Strs(files)[i] == r[i] {
      if i < |init| { assert files[i] == init[i]; }
    }
  }

  /** The list `_build_dependency_graph` stores for each file, as a function of the file. */
  function DepsOf(env: Env, sourceDir: Path): Path -> seq<Node> {
    f => Deps(env, sourceDir, f)
  }

  /**
   * The graph `_build_dependency_graph` leaves when it starts from `g` and
   * lists `files`: each file, in turn, gets its list `deps(file)` under its
   * string form, replacing whatever that key held.
   */
  function GraphOf(g: Graph, deps: Path -> seq<Node>, files: seq<Path>): Graph
  {
    if files == [] then g
    else GraphOf(g, deps, files[..|files| - 1])[Str(files[|files| - 1]) := deps(files[|files| - 1])]
  }

  /**
   * The keys of the built graph are the old keys and the listed files; a
   * listed file maps to its own list (the last listing wins when two paths
   * share a string form), and every other key keeps its old list.
   */
  lemma {:induction false} GraphOfEntries(g: Graph, deps: Path -> seq<Node>, files: seq<Path>)
    ensures GraphOf(g, deps, files).Keys == g.Keys + Elems(Strs(files))
    ensures forall k :: 0 <= k < |files| && (forall j :: k < j < |files| ==> Str(files[j]) != Str(files[k])) ==>
      GraphOf(g, deps, files)[Str(files[k])] == deps(files[k])
    ensures forall n :: n in g && n !in Strs(files) ==> GraphOf(g, deps, files)[n] == g[n]
  {
    GraphOfKeys(g, deps, files);
    forall k | 0 <= k < |files| && (forall j :: k < j < |files| ==> Str(files[j]) != Str(files[k]))
      ensures GraphOf(g, deps, files)[Str(files[k])] == deps(files[k])
    {
      GraphOfListed(g, deps, files, k);
    }
    forall n | n in g && n !in Strs(files) ensures GraphOf(g, deps, files)[n] == g[n] {
      GraphOfUnlisted(g, deps, files, n);
    }
  }

  lemma {:induction false} GraphOfKeys(g: Graph, deps: Path -> seq<Node>, files: seq<Path>)
    ensures GraphOf(g, deps, files).Keys == g.Keys + Elems(Strs(files))
    decreases |files|
  {
    if files != [] {
      var init := files[..|files| - 1];
      GraphOfKeys(g, deps, init);
      StrsSnoc(files);
      ElemsSnoc(Strs(init), Str(files[|files| - 1]));
    }
  }

  lemma {:induction false} GraphOfListed(g: Graph, deps: Path -> seq<Node>, files: seq<Path>, k: nat)
    requires k < |files| && forall j :: k < j < |files| ==> Str(files[j]) != Str(files[k])
    ensures Str(files[k]) in GraphOf(g, deps, files) && GraphOf(g, deps, files)[Str(files[k])] == deps(files[k])
    decreases |files|
  {
    var init := files[..|files| - 1];
    if k < |init| {
      assert files[k] == init[k];
      assert forall j :: k < j < |init| ==> init[j] == files[j];
      GraphOfListed(g, deps, init, k);
    }
  }

  lemma {:induction false} GraphOfUnlisted(g: Graph, deps: Path -> seq<Node>, files: seq<Path>, n: Node)
    requires n in g && n !in Strs(files)
    ensures n in GraphOf(g, deps, files) && GraphOf(g, deps, files)[n] == g[n]
    decreases |files|
  {
    if files != [] {
      var init := files[..|files| - 1];
      StrsSnoc(files);
      GraphOfUnlisted(g, deps, init, n);
    }
  }

  /**
   * Every edge of the built graph out of a listed file leads to the
   * existing import path of a name that `_is_relative_import` accepts in
   * that file.
   */
  lemma GraphEdgesAreLocalImports(g: Graph, env: Env, sourceDir: Path, files: seq<Path>, k: nat, t: Node)
    requires k < |files| && forall j :: k < j < |files| ==> Str(files[j]) != Str(files[k])
    requires Str(files[k]) in GraphOf(g, DepsOf(env, sourceDir), files) && t in GraphOf(g, DepsOf(env, sourceDir), files)[Str(files[k])]
    ensures env.parse(Content(env.fs, files[k])).Module?
    ensures exists n ::
      n in WalkNames(env.parse(Content(env.fs, files[k])).walk) && IsLocalImport(env, sourceDir, n)
      && Exists(env.fs, ImportPath(sourceDir, n)) && t == Str(ImportPath(sourceDir, n))
  {
    GraphOfEntries(g, DepsOf(env, sourceDir), files);
    assert t in Deps(env, sourceDir, files[k]);
    DepsAreLocalImports(env, sourceDir, files[k], t);
  }

  /**
   * One more root for the outer loop of `_get_merge_order`: when the nodes
   * already visited are the ones the old roots reach, and the new nodes are
   * reached from `s`, the visited nodes after the step are those the roots
   * with `s` reach.
   */
  lemma AddRoot(g: Graph, roots: seq<Node>, s: Node, before: set<Node>, visited: set<Node>, order: seq<Node>)
    requires forall v :: v in before <==> ReachableFrom(g, roots, v)
    requires before <= visited && s in visited && Search(g, visited, order, [])
    requires forall v :: v in visited && v !in before ==> Reaches(Succ(g), s, v)
    ensures forall v :: v in visited <==> ReachableFrom(g, roots + [s], v)
  {
    forall v ensures v in visited <==> ReachableFrom(g, roots + [s], v) {
      if v in visited {
        if v in before {
          var r :| r in roots && Reaches(Succ(g), r, v);
          assert r in roots + [s];
        } else {
          assert s in roots + [s];
        }
      }
      if ReachableFrom(g, roots + [s], v) {
        var r :| r in roots + [s] && Reaches(Succ(g), r, v);
        if r in roots {
          assert ReachableFrom(g, roots, v);
        } else {
          ClosedSearch(g, visited, order, s, v);
        }
      }
    }
  }

  /** The paths `Path(file_path)` of the string nodes, in order. */
  function PathsOf(nodes: seq<Node>): (r: seq<Path>)
    ensures |r| == |nodes| && forall i :: 0 <= i < |nodes| ==> r[i] == FromString(nodes[i])
  {
    seq(|nodes|, i requires 0 <= i < |nodes| => FromString(nodes[i]))
  }

  /**
   * The first search of `_get_merge_order`, from the entry file: it ends
   * with the entry, and its order holds exactly the nodes the entry reaches.
   */
  method VisitEntry(g: Graph, entry: Node, ghost universe: set<Node>) returns (visited: set<Node>, ord: seq<Node>)
    requires Vertices(g) <= universe && entry in universe
    ensures Search(g, visited, ord, []) && visited <= universe
    ensures 1 <= |ord| && ord[|ord| - 1] == entry
    ensures forall v :: v in ord[..|ord|] <==> Reaches(Succ(g), entry, v)
    ensures forall v :: v in visited <==> ReachableFrom(g, [entry], v)
  {
    visited, ord := Visit(g, entry, {}, [], [], universe);
    TakeAll(ord);
    forall v ensures v in visited <==> Reaches(Succ(g), entry, v) {
      if Reaches(Succ(g), entry, v) {
        ClosedSearch(g, visited, ord, entry, v);
      }
    }
    forall v ensures ReachableFrom(g, [entry], v) <==> Reaches(Succ(g), entry, v) {
      assert entry in [entry];
    }
  }

  /**
   * One step of the outer loop of `_get_merge_order`: the listed file `s`
   * is searched unless visited; afterwards the visited nodes are those
   * the roots with `s` reach, and the order has only grown at its end.
   */
  method VisitRoot(g: Graph, roots: seq<Node>, s: Node, visited: set<Node>, ord: seq<Node>, ghost universe: set<Node>)
    returns (visited': set<Node>, ord': seq<Node>)
    requires Vertices(g) <= universe && s in universe && visited <= universe
    requires Search(g, visited, ord, [])
    requires forall v :: v in visited <==> ReachableFrom(g, roots, v)
    ensures Search(g, visited', ord', []) && visited' <= universe
    ensures |ord| <= |ord'| && ord'[..|ord|] == ord
    ensures forall v :: v in visited' <==> ReachableFrom(g, roots + [s], v)
  {
    if s !in visited {
      visited', ord' := Visit(g, s, visited, ord, [], universe);
    } else {
      visited', ord' := visited, ord;
      TakeAll(ord);
    }
    AddRoot(g, roots, s, visited, visited', ord');
  }

  /** A finished search from the entry and then the listed files leaves a merge order. */
  lemma SearchIsMergeOrder(g: Graph, entry: Node, files: seq<Node>, visited: set<Node>, ord: seq<Node>, entryCount: nat)
    requires Search(g, visited, ord, [])
    requires 1 <= entryCount <= |ord| && ord[entryCount - 1] == entry
    requires forall v :: v in ord[..entryCount] <==> Reaches(Succ(g), entry, v)
    requires forall v :: v in visited <==> ReachableFrom(g, [entry] + files, v)
    ensures IsMergeOrder(g, entry, files, ord, entryCount)
  {
    forall i | 0 <= i < |ord| ensures Succ(g)(ord[i]) <= Elems(ord) {
    }
  }

  class PyCombiner {
    const entryFile: Path
    const sourceDir: Path
    const outputFile: Path
    /** The file system, the working directory and the parser the object sees. */
    const env: Env
    /** `source_dir.rglob('*.py')`. */
    const pyFiles: seq<Path>

    var dependencyGraph: Graph
    var mergeOrder: seq<Path>
    var totalImports: nat
    var duplicateImports: nat
    var redundantImports: nat
    /** The lines written to `output_file`, each ended by a newline in the file. */
    var outputLines: seq<string>

    /** `__init__`: an empty graph, an empty order and counters at zero. */
    constructor(entryFile: Path, sourceDir: Path, outputFile: Path, env: Env, pyFiles: seq<Path>)
      ensures this.entryFile == entryFile && this.sourceDir == sourceDir && this.outputFile == outputFile
      ensures this.env == env && this.pyFiles == pyFiles
      ensures dependencyGraph == map[] && mergeOrder == []
      ensures totalImports == 0 && duplicateImports == 0 && redundantImports == 0
      ensures outputLines == []
    {
      this.entryFile := entryFile;
      this.sourceDir := sourceDir;
      this.outputFile := outputFile;
      this.env := env;
      this.pyFiles := pyFiles;
      dependencyGraph := map[];
      mergeOrder := [];
      totalImports, duplicateImports, redundantImports := 0, 0, 0;
      outputLines := [];
    }

    /** `_build_dependency_graph`: one entry per listed file, built by appending its edges in place. */
    method BuildDependencyGraph()
      modifies this
      ensures dependencyGraph == GraphOf(old(dependencyGraph), DepsOf(env, sourceDir), pyFiles)
      ensures mergeOrder == old(mergeOrder) && outputLines == old(outputLines)
      ensures totalImports == old(totalImports) && duplicateImports == old(duplicateImports)
      ensures redundantImports == old(redundantImports)
    {
      var i := 0;
      while i < |pyFiles|
        invariant 0 <= i <= |pyFiles|
        invariant dependencyGraph == GraphOf(old(dependencyGraph), DepsOf(env, sourceDir), pyFiles[..i])
        invariant mergeOrder == old(mergeOrder) && outputLines == old(outputLines)
        invariant totalImports == old(totalImports) && duplicateImports == old(duplicateImports)
        invariant redundantImports == old(redundantImports)
      {
        var file := pyFiles[i];
        var ordered, _ := ParseImports(env, sourceDir, Content(env.fs, file));
        AddEdges(Str(file), ordered);
        assert dependencyGraph == GraphOf(old(dependencyGraph), DepsOf(env, sourceDir), pyFiles[..i])[Str(file) := Deps(env, sourceDir, file)];
        TakeTake(pyFiles, i, i + 1);
        i := i + 1;
      }
      TakeAll(pyFiles);
    }

    /** The inner loop of `_build_dependency_graph` for one file: its list starts empty and grows in place. */
    method AddEdges(key: Node, ordered: seq<string>)
      modifies this`dependencyGraph
      ensures dependencyGraph == old(dependencyGraph)[key := Targets(env.fs, sourceDir, ordered)]
    {
      var edges: seq<Node> := [];
      dependencyGraph := dependencyGraph[key := edges];
      var j := 0;
      while j < |ordered|
        invariant 0 <= j <= |ordered|
        invariant edges == Targets(env.fs, sourceDir, ordered[..j])
        invariant dependencyGraph == old(dependencyGraph)[key := edges]
      {
        var p := ImportPath(sourceDir, ordered[j]);
        TargetsStep(env.fs, sourceDir, ordered, j);
        if Exists(env.fs, p) {
          UpdateTwice(old(dependencyGraph), key, edges, edges + [Str(p)]);
          edges := edges + [Str(p)];
          dependencyGraph := dependencyGraph[key := edges];
        } else {
          assert edges + [] == edges;
        }
        j := j + 1;
      }
      TakeAll(ordered);
    }

    /**
     * `_get_merge_order`: a search from the entry file, then one from every
     * listed file not visited yet. `nodes` are the string nodes behind the
     * returned paths, and the first `entryCount` of them come from the
     * search of the entry file.
     */
    method GetMergeOrder() returns (order: seq<Path>, ghost nodes: seq<Node>, ghost entryCount: nat)
      ensures IsMergeOrder(dependencyGraph, Str(entryFile), Strs(pyFiles), nodes, entryCount)
      ensures order == PathsOf(nodes)
    {
      var g := dependencyGraph;
      var entry := Str(entryFile);
      var files := Strs(pyFiles);
      ghost var universe := Vertices(g) + {entry} + Elems(files);
      var visited, ord := VisitEntry(g, entry, universe);
      entryCount := |ord|;
      var i := 0;
      while i < |files|
        invariant 0 <= i <= |files|
        invariant Search(g, visited, ord, []) && visited <= universe
        invariant 1 <= entryCount <= |ord| && ord[entryCount - 1] == entry
        invariant forall v :: v in ord[..entryCount] <==> Reaches(Succ(g), entry, v)
        invariant forall v :: v in visited <==> ReachableFrom(g, [entry] + files[..i], v)
      {
        ghost var prefix := ord;
        TakeNext(files, i);
        AppendAssoc([entry], files[..i], [files[i]]);
        visited, ord := VisitRoot(g, [entry] + files[..i], files[i], visited, ord, universe);
        PrefixKeep(prefix, ord, entryCount);
        i := i + 1;
      }
      TakeAll(files);
      SearchIsMergeOrder(g, entry, files, visited, ord, entryCount);
      nodes := ord;
      order := PathsOf(ord);
    }

    /**
     * `_merge_files`: the header, then the first pass counts the import
     * statements into the counters and collects the unhandled ones, which
     * are written sorted, and the second pass writes every file that
     * parses without its handled import lines.
     */
    method MergeFiles()
      modifies this
      ensures outputLines == Output(env, sourceDir, entryFile, mergeOrder)
      ensures totalImports == old(totalImports) + ImportCount(env, mergeOrder)
      ensures duplicateImports == old(duplicateImports) + Recurrences({}, Statements(env, sourceDir, mergeOrder))
      ensures redundantImports == old(redundantImports) + RedundantCount(env, sourceDir, mergeOrder)
      ensures dependencyGraph == old(dependencyGraph) && mergeOrder == old(mergeOrder)
    {
      var unhandled, total, duplicates, redundant := FirstPass(env, sourceDir, mergeOrder);
      AddCounts(total, duplicates, redundant);
      var sorted := SortSet(unhandled);
      var bodies := SecondPass(env, sourceDir, mergeOrder);
      outputLines := Preamble(entryFile, sourceDir) + sorted + [""] + bodies;
    }

    /** The counter updates of the first pass, added at once. */
    method AddCounts(total: nat, duplicates: nat, redundant: nat)
      modifies this
      ensures totalImports == old(totalImports) + total
      ensures duplicateImports == old(duplicateImports) + duplicates
      ensures redundantImports == old(redundantImports) + redundant
      ensures dependencyGraph == old(dependencyGraph) && mergeOrder == old(mergeOrder) && outputLines == old(outputLines)
    {
      totalImports := totalImports + total;
      duplicateImports := duplicateImports + duplicates;
      redundantImports := redundantImports + redundant;
    }

    /**
     * `combine`: the graph of every listed file, the merge order over it,
     * then the output and the counters of that order.
     */
    method Combine() returns (ghost nodes: seq<Node>, ghost entryCount: nat)
      modifies this
      ensures dependencyGraph == GraphOf(old(dependencyGraph), DepsOf(env, sourceDir), pyFiles)
      ensures IsMergeOrder(dependencyGraph, Str(entryFile), Strs(pyFiles), nodes, entryCount)
      ensures mergeOrder == PathsOf(nodes)
      ensures outputLines == Output(env, sourceDir, entryFile, mergeOrder)
      ensures totalImports == old(totalImports) + ImportCount(env, mergeOrder)
      ensures duplicateImports == old(duplicateImports) + Recurrences({}, Statements(env, sourceDir, mergeOrder))
      ensures redundantImports == old(redundantImports) + RedundantCount(env, sourceDir, mergeOrder)
    {
      BuildDependencyGraph();
      mergeOrder, nodes, entryCount := GetMergeOrder();
      MergeFiles();
    }
  }
}
