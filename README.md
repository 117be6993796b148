# pycombiner-ast, modelled in Dafny

pycombiner collapses a tree of Python modules into a single file. It does
this in two independent pipelines, and this project models the core of
both.

**The function pipeline** (`ast_parser.py`, `merger.py`) covers:
- the `ImportInfo` record and the parser facts of `analyze_file`;
- `_resolve_module_to_filepath`, which maps a module name to one of the
  project's files;
- `get_module_name`, which turns a file path into a dotted module name;
- `build_dependency_graph`, which builds a module-level graph with set
  values that only follows the `utils`, `models` and `services` packages;
- `topological_sort_files`, a three-colour depth-first search that raises
  on a cycle and returns the reversed post-order;
- `deduplicate_imports`, which turns (module, name) pairs into sorted
  import statements (its loop unpacks pairs, although its argument is
  annotated as a list of `ImportInfo`);
- `merge_files`, which does the following:
  - it picks the entry file, or else the first `main.py`;
  - it collects the files reachable from the entry through a worklist;
  - it builds the set of local module names and their dotted prefixes;
  - it writes each external import statement once, in first-seen order;
  - it writes the bodies of the other files without their import lines,
    `def main()` lines and `__name__` guards;
  - it appends the entry file's `main` block at the end.

**The class pipeline** (`combiner.py`, the `PyCombiner` class) covers:
- `_get_import_path` and `_is_relative_import`;
- `_parse_imports`;
- `_build_dependency_graph`, whose values are ordered lists keyed by path
  string;
- `_get_merge_order`, a post-order search from the entry file, then from
  every listed file not yet visited, with no cycle detection;
- `_merge_files`:
  - a preamble;
  - the non-local import statements, hoisted, sorted and written once each;
  - the counters `total_imports`, `duplicate_imports` and
    `redundant_imports`;
  - every file that parses, under a numbered header, without the lines of
    its top-level local imports, including the line before a local `from`
    import;
- `combine`, which runs the three steps in order.

Python's parser, the file system, the working directory and the
`rglob('*.py')` listing are inputs of the model:
- `Analysis` (function pipeline) and `Tree` (class pipeline) are what
  `ast.parse` reports for a text;
- `FileSystem` maps file paths to their text and also holds the set of
  directories;
- `Path` is a `PurePosixPath` reduced to an absolute flag and its segments
  (a leading `//` is not kept apart from `/`).

Python sets iterated in an unspecified order appear in the model in two
ways. The neighbours in `topological_sort_files` are an arbitrary choice.
The referenced files of `merge_files` are an arbitrary enumeration. No
contract depends on either order.

Modules:
- `Wrappers`, `Strings`, `Paths` and `Digraph` hold the helpers: strings,
  `pathlib`, walks and cycles;
- `AstParser`, `TopoSort`, `ImportDedup`, `MergeLines` and `Merger` model
  the function pipeline;
- `Combiner`, `MergeOrder`, `MergeOutput` and `CombinerClass` model the
  `PyCombiner` class.

## Model

| member | source | states |
|---|---|---|
| AstParser.AnalyzeFile | pycombiner/combiner/ast_parser.py:18-64 | a file that does not parse yields no imports and no names; otherwise the parser's imports and defined names |
| AstParser.StripLeadingDots | pycombiner/combiner/ast_parser.py:79-82 | the result starts with no '.', is a suffix of the name, and everything stripped was '.' |
| AstParser.AllDotsStripToNothing | pycombiner/combiner/ast_parser.py:80-86 | a name made of dots only strips to the empty name, which returns None |
| AstParser.ResolveModuleToFilepath | pycombiner/combiner/ast_parser.py:66-104 | a result is always one of the project files; a name of dots only gives None; otherwise `<dir>/<a/b>.py` is tried before `<dir>/<a/b>/__init__.py`, and None when neither is a project file |
| AstParser.CandidatesOfDottedName | pycombiner/combiner/ast_parser.py:88-101 | for `a.b.c` the two candidates are `<dir>/a/b/c.py` and `<dir>/a/b/c/__init__.py` |
| AstParser.GetModuleName | pycombiner/combiner/ast_parser.py:106-118 | fails (ValueError of `with_suffix`) exactly when the file resolves to the source directory itself; a file outside the source directory gives its stem |
| AstParser.RelativeName | pycombiner/combiner/ast_parser.py:112-118 | on resolved paths: fails exactly when the file is the source directory |
| AstParser.ModuleNameInside | pycombiner/combiner/ast_parser.py:106-118 | `<src>/utils/helpers/math_utils.py` is named `utils.helpers.math_utils`: the directories and the stem joined with '.' |
| AstParser.Ascend | pycombiner/combiner/ast_parser.py:136-138 | taking `parent` n times drops the last n segments, never going above the root |
| AstParser.RelativeTargetClimbsPerDot | pycombiner/combiner/ast_parser.py:131-139 | a from-import whose module starts with '.' climbs one directory per '.' in the module above the file's own, and names `<name>.py` there |
| AstParser.ParsedTargetIsModule | pycombiner/combiner/ast_parser.py:130-143 | for every record the parser makes, the target is the imported module itself |
| AstParser.Targets | pycombiner/combiner/ast_parser.py:130-143 | one target per import, in order |
| AstParser.LocalTargets | pycombiner/combiner/ast_parser.py:145-147 | fails exactly when some target cannot be named; otherwise holds exactly the targets whose first segment is `utils`, `models` or `services`, as a set |
| AstParser.LocalTargetsFailurePersists | pycombiner/combiner/ast_parser.py:130-147 | once one target fails, later imports do not change the failure |
| AstParser.Put | pycombiner/combiner/ast_parser.py:128 | `graph[k] = v` keeps the dictionary valid, binds k to v, appends a new key last and keeps an old key's place |
| AstParser.PutTwice | pycombiner/combiner/ast_parser.py:128-147 | setting a key to the empty set and then to the file's edges is setting it to the edges |
| AstParser.Entries | pycombiner/combiner/ast_parser.py:125-127 | one entry per file of `imports_by_file`, in order |
| AstParser.GraphOf | pycombiner/combiner/ast_parser.py:120-149 | the graph built entry by entry is a valid insertion-ordered dictionary |
| AstParser.GraphOfStep | pycombiner/combiner/ast_parser.py:125-147 | one more file: its naming failure, its target failure, or its key bound to its edges |
| AstParser.GraphOfFailurePersists | pycombiner/combiner/ast_parser.py:125-147 | the first ValueError ends the construction |
| AstParser.GraphOfFails | pycombiner/combiner/ast_parser.py:120-149 | building fails exactly when some file or some relative target cannot be named |
| AstParser.GraphKeysAreModules | pycombiner/combiner/ast_parser.py:125-128 | every file's module name is a key, even with no local imports, and every key is some file's module name |
| AstParser.GraphEdgesOfLastFile | pycombiner/combiner/ast_parser.py:125-147 | a module's edges are those of the last file bearing its name |
| AstParser.ImportTarget | pycombiner/combiner/ast_parser.py:131-143 | the loop that climbs `current_dir` computes the target of one import |
| AstParser.FileTargets | pycombiner/combiner/ast_parser.py:130-147 | the inner loop computes the file's local target set, or the first failure |
| AstParser.AddTarget | pycombiner/combiner/ast_parser.py:130-147 | one more import extends the target set of the imports before it: its failure, or its target added when local |
| AstParser.BuildDependencyGraph | pycombiner/combiner/ast_parser.py:120-149 | the method builds exactly the graph of the entries, or the first ValueError |
| AstParser.AddNext | pycombiner/combiner/ast_parser.py:125-147 | the next file extends the graph of the files before it |
| AstParser.AddFile | pycombiner/combiner/ast_parser.py:126-147 | one file: its naming failure, its target failure, or its module name bound to its local targets |
| TopoSort.CycleMessage | pycombiner/combiner/merger.py:19-20 | the error reads "Circular dependency detected: " followed by the node |
| TopoSort.Visit | pycombiner/combiner/merger.py:18-29 | a reported node lies on a cycle; otherwise the node is finished, `temp` is restored, and the order only grows at its end while keeping its invariant |
| TopoSort.ExtendPath | pycombiner/combiner/merger.py:24-26 | adding the node to `temp` extends the current path of the search |
| TopoSort.FinishNode | pycombiner/combiner/merger.py:27-29 | appending a node whose neighbours are all finished keeps every edge pointing backwards in the post-order |
| TopoSort.Reverse | pycombiner/combiner/merger.py:35 | `order[::-1]` |
| TopoSort.AllKeysVisited | pycombiner/combiner/merger.py:31-33 | once every key was visited, the visited nodes are all the nodes of the graph |
| TopoSort.ReverseSorts | pycombiner/combiner/merger.py:35 | the reversed post-order holds each node once and puts every file before the files it depends on |
| TopoSort.TopologicalSortFiles | pycombiner/combiner/merger.py:12-35 | a cycle is reported by a node on it; on success every node appears exactly once and every file precedes the files it depends on |
| TopoSort.SortedIffAcyclic | pycombiner/combiner/merger.py:12-35 | the sort succeeds exactly when the graph has no cycle |
| ImportDedup.SimpleStatement | pycombiner/combiner/merger.py:51-54 | a pair with no name, or named after its module, gives `import M`; a `*` pair gives `from M import *` |
| ImportDedup.FromLine | pycombiner/combiner/merger.py:62 | a grouped line starts with `from M import ` |
| ImportDedup.AddPair | pycombiner/combiner/merger.py:50-56 | one pair adds its statement to the simple set, or its name to its module's set |
| ImportDedup.FromLines | pycombiner/combiner/merger.py:59-62 | one grouped line per module |
| ImportDedup.CollectImports | pycombiner/combiner/merger.py:47-56 | the loop fills the simple set and the module dictionary exactly as the set of pairs determines, whatever their order or repetition |
| ImportDedup.AddImport | pycombiner/combiner/merger.py:50-56 | one pair updates `simple_imports` and `from_imports` to what the pairs so far determine |
| ImportDedup.DeduplicateImports | pycombiner/combiner/merger.py:37-64 | the output depends only on the set of pairs: sorted simple statements, then one line per sorted module with its names sorted |
| ImportDedup.NamesNonEmpty | pycombiner/combiner/merger.py:59-61 | every module key holds a name, so `if names:` always holds |
| ImportDedup.DeduplicatedCoversEveryPair | pycombiner/combiner/merger.py:50-62 | every pair is written, by its own statement or within its module's line |
| ImportDedup.FromLinesHas | pycombiner/combiner/merger.py:59-62 | every sorted module gets its grouped line |
| ImportDedup.FromLineInjective | pycombiner/combiner/merger.py:62 | two equal grouped lines name the same module and the same names |
| ImportDedup.FromLineNotSimple | pycombiner/combiner/merger.py:51-62 | a grouped line never repeats a simple statement |
| ImportDedup.FromLinesDistinct | pycombiner/combiner/merger.py:59-62 | distinct modules give distinct lines |
| ImportDedup.DeduplicatedDistinct | pycombiner/combiner/merger.py:47-64 | no statement is written twice |
| MergeLines.ExternalStatementsMembers | pycombiner/combiner/merger.py:189-208 | the statements are exactly those of imports whose first segment is not a local module |
| MergeLines.FirstSeenMembers | pycombiner/combiner/merger.py:210-213 | each statement is written once, and every collected statement is written |
| MergeLines.FirstSeenExtends | pycombiner/combiner/merger.py:210-213 | statements keep their first-seen order: later ones only come after |
| MergeLines.EmitExternalImports | pycombiner/combiner/merger.py:189-213 | the loop writes the first-seen external statements |
| MergeLines.EmitStep | pycombiner/combiner/merger.py:188-213 | one more import adds its statement exactly when it is external and not yet written |
| MergeLines.KeptLinesMembers | pycombiner/combiner/merger.py:242-251 | a line is kept exactly when it is not an import, a `def main()` line or a `__name__` guard |
| MergeLines.KeptLinesAppend | pycombiner/combiner/merger.py:242-251 | filtering works line by line, keeping the order |
| MergeLines.FilterBody | pycombiner/combiner/merger.py:240-251 | the loop keeps exactly the kept lines |
| MergeLines.EntryBlockFromFile | pycombiner/combiner/merger.py:163-174 | the block holds only non-blank lines of the file and the added `main()` call |
| MergeLines.EntryBlockStopsAtGuard | pycombiner/combiner/merger.py:171-174 | with a `__name__` guard at some line, the block ends with a guard line and `    main()` |
| MergeLines.EntryBlockPastLine | pycombiner/combiner/merger.py:164-169 | a line that is not a guard is kept or skipped, and the capture goes on after it |
| MergeLines.EntryBlockAtGuard | pycombiner/combiner/merger.py:170-173 | the capture stops at a guard line and adds the call after it |
| MergeLines.EntryBlockWithoutGuard | pycombiner/combiner/merger.py:165-170 | without a guard no call is added |
| MergeLines.EntryBlockNeedsMain | pycombiner/combiner/merger.py:165-174 | without `def main()` the block is empty or just the guard and the call |
| MergeLines.CaptureEntryBlock | pycombiner/combiner/merger.py:163-174 | the loop captures exactly the entry block |
| Merger.SelectEntry | pycombiner/combiner/merger.py:77-85 | the given entry file, else the first `main.py`; ValueError exactly when there is neither |
| Merger.PathOfSegments | pycombiner/combiner/merger.py:116 | `Path(*parts)` of plain names is the relative path of those names |
| Merger.FromImportCandidate | pycombiner/combiner/merger.py:112-119 | a local from-import of `a.b` points at `<src>/a/b.py` |
| Merger.PlainImportCandidate | pycombiner/combiner/merger.py:120-125 | a plain local import keeps its dots: `<src>/utils.x.py` |
| Merger.LocalFiles | pycombiner/combiner/merger.py:111-125 | only existing files are queued |
| Merger.LocalFilesMembers | pycombiner/combiner/merger.py:111-125 | a file is queued exactly when it exists and a local import points at it |
| Merger.FollowedMembers | pycombiner/combiner/merger.py:111-125 | a file is queued exactly when it exists and the candidate of some import is that file |
| Merger.AddLocalFiles | pycombiner/combiner/merger.py:111-125 | the inner loop adds exactly those files to the worklist |
| Merger.StepFromReachable | pycombiner/combiner/merger.py:102-125 | what a reachable file leads to is reachable and exists |
| Merger.WorklistStep | pycombiner/combiner/merger.py:94-125 | processing a new file keeps the worklist invariant |
| Merger.FollowImports | pycombiner/combiner/merger.py:102-125 | one turn reads, parses and queues the file's local imports |
| Merger.WorklistSkip | pycombiner/combiner/merger.py:95-97 | popping a processed file keeps the invariant |
| Digraph.FrontierStep | pycombiner/combiner/merger.py:98-125 | marking a pending file processed and queueing its successors keeps the worklist invariant |
| Digraph.FrontierSkip | pycombiner/combiner/merger.py:95-97 | dropping a processed file from the worklist keeps the invariant |
| Merger.WorklistDone | pycombiner/combiner/merger.py:94-125 | an empty worklist leaves exactly the files the entry leads to |
| Merger.WorklistTurn | pycombiner/combiner/merger.py:94-125 | one turn keeps the invariant and makes progress |
| Merger.CollectReferenced | pycombiner/combiner/merger.py:89-125 | the referenced files are exactly those reachable from the entry, each processed once |
| Merger.Enumerate | pycombiner/combiner/merger.py:144 | iterating the set visits every file once, in some order |
| Merger.FirstSegmentIsLocal | pycombiner/combiner/merger.py:151-155 | a referenced module's top-level package is a local module |
| Merger.AddModule | pycombiner/combiner/merger.py:150-155 | `local_modules` gains the module and all its proper dotted prefixes |
| Merger.FirstPass | pycombiner/combiner/merger.py:143-179 | the first pass collects the local modules and all imports, or the first ValueError, and captures the entry block when the entry comes by |
| Merger.FirstPassFailurePersists | pycombiner/combiner/merger.py:143-159 | the first ValueError ends the first pass |
| Merger.BodiesFailurePersists | pycombiner/combiner/merger.py:221-257 | the first ValueError ends the second pass |
| Merger.BodiesSkipEntry | pycombiner/combiner/merger.py:230-233 | the entry file contributes no body wherever it comes |
| Merger.WriteFileBody | pycombiner/combiner/merger.py:222-257 | one file's header and kept lines, as specified |
| Merger.SecondPass | pycombiner/combiner/merger.py:221-257 | the loop writes the bodies of the files in the chosen order |
| Merger.MergeReferenced | pycombiner/combiner/merger.py:89-273 | the files visited are exactly those reachable from the entry, each once, and the output is their merge |
| Merger.MergeFiles | pycombiner/combiner/merger.py:66-273 | the entry is settled as the source says (ValueError when none), and the output is the merge of the files it reaches |
| Combiner.ImportPathAppendsSuffix | pycombiner/combiner/combiner.py:64-69 | once the dots are replaced nothing ends in ".py", so ".py" is always appended under the source directory |
| Combiner.ImportPathOfDottedName | pycombiner/combiner/combiner.py:64-69 | `a.b.c` gives `<src>/a/b/c.py`, which ends in ".py" |
| Combiner.CandidatesOfDottedName | pycombiner/combiner/combiner.py:38-48 | for `a.b.c` the candidates are `<src>/a/b/c.py` and `<src>/a/b/c/__init__.py` |
| Combiner.LocalImportOfDottedName | pycombiner/combiner/combiner.py:34-62 | for `a.b.c`: relative exactly when `a/b/c.py` or `a/b/c/__init__.py` is a file inside the source directory |
| Combiner.SearchCandidates | pycombiner/combiner/combiner.py:51-60 | the loop answers whether some candidate exists, is a file and lies inside the source directory |
| Combiner.SearchCandidatesOf | pycombiner/combiner/combiner.py:34-62 | `_is_relative_import` computes exactly that test, and false where `with_suffix` raises |
| Combiner.LocalNamesMembers | pycombiner/combiner/combiner.py:85-99 | the ordered imports are exactly the local names, never more than the names |
| Combiner.LocalNamesAppend | pycombiner/combiner/combiner.py:85-99 | the local names of two parts follow each other |
| Combiner.ParsedImportsPartition | pycombiner/combiner/combiner.py:71-101 | a syntax error gives nothing; otherwise each name lands in exactly one of the ordered list and the unhandled set |
| Combiner.SortName | pycombiner/combiner/combiner.py:89-93 | a name is appended to the ordered list when relative, else added to the unhandled set |
| Combiner.SortNames | pycombiner/combiner/combiner.py:88-93 | the names of an `import`, sorted into the two results in order |
| Combiner.SortNode | pycombiner/combiner/combiner.py:86-99 | one statement of the walk, sorted into the two results |
| Combiner.ParseImports | pycombiner/combiner/combiner.py:71-101 | the method returns the local names in walk order and the set of the others |
| Combiner.TargetsMembers | pycombiner/combiner/combiner.py:108-111 | an edge is the existing import path of a local import, at most one per import |
| Combiner.TargetsAllExist | pycombiner/combiner/combiner.py:108-111 | when every import path exists, the list follows the imports one for one, in order and with repetitions |
| Combiner.TargetsStep | pycombiner/combiner/combiner.py:108-111 | one more import appends its path to the list exactly when the path exists |
| Combiner.DepsAreLocalImports | pycombiner/combiner/combiner.py:105-111 | every edge of a file is the existing import path of a name the file imports that `_is_relative_import` accepts |
| MergeOrder.EnterNode | pycombiner/combiner/combiner.py:119-121 | marking a node visited before its dependencies keeps the search invariant |
| MergeOrder.FinishNode | pycombiner/combiner/combiner.py:122-125 | appending a node after its dependencies keeps the search invariant |
| MergeOrder.ReachedThrough | pycombiner/combiner/combiner.py:123-124 | what a dependency's search visits is reachable from the node |
| MergeOrder.Visit | pycombiner/combiner/combiner.py:118-125 | `visit` terminates on cycles, keeps the search invariant, only appends to the order, appends a new node last, and visits only nodes reachable from it |
| MergeOrder.VisitDependencies | pycombiner/combiner/combiner.py:123-124 | the loop over a node's dependencies visits them all, only appends to the order, and visits only nodes reachable from the node |
| MergeOrder.AcyclicMergeOrder | pycombiner/combiner/combiner.py:113-135 | on an acyclic graph each dependency comes before its dependent, and every file before the entry is reachable from it |
| MergeOrder.ClosedSearch | pycombiner/combiner/combiner.py:118-125 | a finished search holds everything its nodes reach |
| MergeOutput.TopStatementsExternal | pycombiner/combiner/combiner.py:168-196 | an `import n` statement is hoisted only for a name that is not relative |
| MergeOutput.ExternalImportsExternal | pycombiner/combiner/combiner.py:169-176 | the same, for the names of one `import` |
| MergeOutput.RecurrencesCount | pycombiner/combiner/combiner.py:173-175 | each statement either recurs or enlarges the set |
| MergeOutput.RecurrencesZeroIffDistinct | pycombiner/combiner/combiner.py:173-175 | nothing recurs exactly when the statements are distinct |
| MergeOutput.RecurrencesAppend | pycombiner/combiner/combiner.py:173-175 | counting over two parts: the second sees the first's statements as seen |
| MergeOutput.AbsorbAppend | pycombiner/combiner/combiner.py:165-208 | the counters over two parts are the counters of the whole |
| MergeOutput.AbsorbOne | pycombiner/combiner/combiner.py:173-184 | one statement counts a duplicate when already unhandled; one local name counts a redundancy when already handled in the file |
| MergeOutput.DuplicatesCount | pycombiner/combiner/combiner.py:146-196 | `duplicate_imports` is the statements met less the distinct ones, and zero exactly when none recurs |
| MergeOutput.StatementsExternal | pycombiner/combiner/combiner.py:171-176 | no hoisted `import n` names a relative module |
| MergeOutput.TallyName | pycombiner/combiner/combiner.py:169-188 | one name of an `import`: its statement for the unhandled set, or a local name of the file |
| MergeOutput.TallyImport | pycombiner/combiner/combiner.py:168-188 | the names of one `import`, in order |
| MergeOutput.TallyFrom | pycombiner/combiner/combiner.py:189-208 | a `from` import with a module: its statement, or its module as a local name |
| MergeOutput.TallyNode | pycombiner/combiner/combiner.py:165-208 | one top-level import statement |
| MergeOutput.TallyFile | pycombiner/combiner/combiner.py:160-208 | one file's top-level imports, counted: `total_imports` grows by their number |
| MergeOutput.FirstPass | pycombiner/combiner/combiner.py:146-217 | the unhandled set and the three counters over the files that parse, in merge order |
| MergeOutput.KeptLinesCount | pycombiner/combiner/combiner.py:254-258 | exactly one line is left out per handled number that is a line of the file |
| MergeOutput.KeptLinesMembers | pycombiner/combiner/combiner.py:254-258 | a written line is a line of the file at an unhandled number, and every such line is written |
| MergeOutput.KeptLinesNoneHandled | pycombiner/combiner/combiner.py:254-258 | a file with no handled numbers is written whole |
| MergeOutput.HandledLinesMembers | pycombiner/combiner/combiner.py:240-252 | a handled number comes from some top-level local import, and all of their numbers are handled |
| MergeOutput.LocalFromHidesLineBefore | pycombiner/combiner/combiner.py:248-252 | a local `from` import at line n hides lines n and n-1, whatever line n-1 holds |
| MergeOutput.BodiesPrefix | pycombiner/combiner/combiner.py:224-258 | the sections are written in merge order, each after the previous ones |
| MergeOutput.SectionStartsWithHeader | pycombiner/combiner/combiner.py:229-238 | a file that parses opens with its header |
| MergeOutput.SectionHeader | pycombiner/combiner/combiner.py:225-238 | each file that parses is written under a header carrying its 1-based position in merge order |
| MergeOutput.BodiesStep | pycombiner/combiner/combiner.py:224-238 | one more file appends its section, numbered by its position |
| MergeOutput.OutputImports | pycombiner/combiner/combiner.py:140-222 | after the preamble come the unhandled statements, each once, strictly sorted, then one blank line |
| MergeOutput.AddNameLine | pycombiner/combiner/combiner.py:245-247 | a relative name of an `import` marks its statement's line |
| MergeOutput.AddImportLines | pycombiner/combiner/combiner.py:244-247 | an `import` marks its line once one of its names is relative |
| MergeOutput.AddNodeLines | pycombiner/combiner/combiner.py:242-252 | one top-level statement adds its handled numbers |
| MergeOutput.CollectHandledLines | pycombiner/combiner/combiner.py:240-252 | the loop collects `handled_import_lines` |
| MergeOutput.WriteKeptLines | pycombiner/combiner/combiner.py:254-258 | the loop writes exactly the lines at unhandled numbers |
| MergeOutput.WriteSection | pycombiner/combiner/combiner.py:225-258 | one file: nothing on a syntax error, else its header and kept lines |
| MergeOutput.SecondPass | pycombiner/combiner/combiner.py:224-258 | the sections of the files, numbered from 1 in merge order |
| Strings.SortSet | pycombiner/combiner/combiner.py:220 | `sorted(unhandled_imports)`: the set's members, each once, strictly sorted |
| Strings.AppendMinimum | pycombiner/combiner/combiner.py:220 | appending the least remaining string keeps the output strictly sorted and every output before everything left |
| CombinerClass.GraphOfEntries | pycombiner/combiner/combiner.py:103-111 | every listed file gets a key, even with no imports; its list is its own, and the last listing wins for a shared string; other keys are untouched |
| CombinerClass.GraphOfKeys | pycombiner/combiner/combiner.py:105-107 | the keys are the old ones and the string of every listed file |
| CombinerClass.GraphOfListed | pycombiner/combiner/combiner.py:105-111 | a file listed for the last time under its string keeps its own list |
| CombinerClass.GraphOfUnlisted | pycombiner/combiner/combiner.py:105-111 | a key that no listed file names keeps its value |
| CombinerClass.GraphEdgesAreLocalImports | pycombiner/combiner/combiner.py:103-111 | every edge of a listed file is the existing import path of a relative import of that file |
| CombinerClass.VisitEntry | pycombiner/combiner/combiner.py:127-128 | the entry's search ends with the entry and holds exactly what it reaches |
| CombinerClass.VisitRoot | pycombiner/combiner/combiner.py:131-133 | a listed file is searched unless visited; the visited files are then those the roots reach |
| CombinerClass.AddRoot | pycombiner/combiner/combiner.py:131-133 | one more root extends the visited set by exactly what it reaches |
| CombinerClass.SearchIsMergeOrder | pycombiner/combiner/combiner.py:113-135 | the finished search is a merge order |
| CombinerClass.PyCombiner.constructor | pycombiner/combiner/combiner.py:10-27 | an empty graph, an empty merge order and zero counters |
| CombinerClass.PyCombiner.AddEdges | pycombiner/combiner/combiner.py:107-111 | a file's list starts empty and gains the existing import paths in import order |
| CombinerClass.PyCombiner.BuildDependencyGraph | pycombiner/combiner/combiner.py:103-111 | the graph gets each listed file's list, in listing order; nothing else changes |
| CombinerClass.PyCombiner.GetMergeOrder | pycombiner/combiner/combiner.py:113-135 | every file once; exactly the files the entry and the listed files reach; the entry's search first, ending with the entry; dependencies listed, and before their dependents unless on a cycle |
| CombinerClass.PyCombiner.AddCounts | pycombiner/combiner/combiner.py:167-203 | the counters grow by the first pass's counts; nothing else changes |
| CombinerClass.PyCombiner.MergeFiles | pycombiner/combiner/combiner.py:137-258 | the output file holds the preamble, the sorted unhandled statements, a blank line and the sections; the counters grow by the first pass's counts |
| CombinerClass.PyCombiner.Combine | pycombiner/combiner/combiner.py:267-290 | the graph, then a merge order over it, then the output and the counters of that order |

## Left out

- `analyze_file`: Python's parser is an input (`Analysis`, `Tree`). Only its "syntax error gives nothing" contract is modelled. Its debug printing is left out.
- `Combiner.Tree` gives the import statements that `ast.walk` and `ast.iter_child_nodes` meet. Other node kinds, and the relative `level` of a `from` import, are not represented.
- File access is not modelled:
  - `open`, `read_file`, `exists`, `is_file`, `resolve` and `rglob` are read off the `FileSystem` input;
  - a missing file or a directory reads as "";
  - read errors, encodings and symbolic links are left out;
  - `rglob('*.py')` is the `pyFiles` listing, the same for both walks; its order is whatever it is.
- `CombinerClass.PyCombiner.Combine`: where the class pipeline opens a file that is missing or is a directory, Python raises `FileNotFoundError` or `IsADirectoryError`. This happens in `_parse_imports` (combiner.py:73), both passes of `_merge_files` (combiner.py:150 and 226, where only `SyntaxError` is caught) and `combine` (combiner.py:284). The model reads "" there instead, so it writes an output on inputs where the program stops. This can happen for a missing entry file, or an import path that names a directory.
- `ImportDedup.DeduplicateImports`: takes (module, name) pairs, following the loop's unpacking at merger.py:50. Its argument is annotated `List[ImportInfo]`; on such records the unpacking raises `TypeError`. No caller in the package calls it, so the model follows the loop.
- Writing: the output file is the `outputLines` field, the lines each followed by a newline. An output file that is also one of the sources is not modelled.
- `merge_files` writes `'\n'.join(merged_content)`. That output is modelled as its list of lines.
- `pycombiner/combiner/output.py` is not part of this model: the report (`MergeReport`, `print_merge_report`) is presentation. The same goes for `debug_print` and the report calls in `_merge_files` and `combine` (the line counts that `combine` reads at lines 283-286 only feed the report; the `open` there is covered by the file-access lines above).
- The `functions`, `classes` and `total_lines` counters, and `module_definitions`, only feed the report.
- `pycombiner/combiner/file_handler.py`, the command-line entry points and `urlTreeCatcher.py` are not part of this model.
- The order of Python set iteration is not specified: the neighbours in `topological_sort_files`, and the referenced files in `merge_files`. The model chooses an arbitrary order and states nothing that depends on it.
- `CombinerClass.PyCombiner.GetMergeOrder`: does not state that dependencies are searched in each file's import order. It states which files come, where the entry's search ends, and the dependency order up to cycles. Stating the import order would need the search's call tree as part of the contract, which the post-order alone does not give.
- `MergeOrder.AcyclicMergeOrder`: states the dependency order only for acyclic graphs. On a cycle, `_get_merge_order` silently breaks the cycle at the first node met again.
- `str(path)` and `Path(string)` are modelled on `PurePosixPath` only. `Paths.FromString` reads a leading `//` as `/`, while `PurePosixPath("//a")` keeps the `//` anchor. Windows separators appear only where the source replaces `\\` explicitly.
- The repository's tests call `_resolve_module_to_filepath` with two arguments. They also expect the function pipeline's graph to be keyed by file path. The model follows the code: three arguments, and keys that are module names.
