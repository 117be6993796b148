/**
 * The two passes of `PyCombiner._merge_files` over the files in merge
 * order. The first pass collects the statements of the imports that are
 * not local into one set, written sorted at the top of the output, and
 * counts import statements, statements seen again (`duplicate_imports`)
 * and local names a file imports again (`redundant_imports`). The second
 * pass writes each file that parses under a numbered header, leaving out
 * the lines of its top-level local imports.
 *
 * The output file is modelled as the sequence of its lines: every write of
 * `_merge_files` ends in a newline, so the text is each line followed by
 * "\n".
 */
module MergeOutput {
  import opened Wrappers
  import opened Strings
  import opened Paths
  import opened Combiner

  // ---------------------------------------------------------------------
  // The statements of the first pass
  // ---------------------------------------------------------------------

  /** `f"import {import_path}"`. */
  function ImportStatement(name: string): string {
    "import " + name
  }

  /** `f"from {node.module} import {', '.join(n.name for n in node.names)}"`. */
  function FromStatement(moduleName: string, names: seq<string>): string {
    "from " + moduleName + " import " + Join(names, ", ")
  }

  /** The statements of the names of an `import` that are not local, in order. */
  function ExternalImports(isLocal: string -> bool, names: seq<string>): seq<string>
  {
    if names == [] then []
    else
      var last := names[|names| - 1];
      ExternalImports(isLocal, names[..|names| - 1]) + (if isLocal(last) then [] else [ImportStatement(last)])
  }

  /** The statements one top-level import contributes to the unhandled set, in order. */
  function NodeStatements(isLocal: string -> bool, node: ImportNode): seq<string>
  {
    match node
    case Import(names, _) => ExternalImports(isLocal, names)
    case ImportFrom(m, names, _) =>
      if m.Some? && m.value != "" && !isLocal(m.value) then [FromStatement(m.value, names)] else []
  }

  /** The statements of a file's top-level imports, in order. */
  function TopStatements(isLocal: string -> bool, top: seq<ImportNode>): seq<string>
  {
    if top == [] then []
    else TopStatements(isLocal, top[..|top| - 1]) + NodeStatements(isLocal, top[|top| - 1])
  }

  /** A statement that is hoisted names no local module: `import n` only for a name that is not local. */
  lemma {:induction false} TopStatementsExternal(isLocal: string -> bool, top: seq<ImportNode>, n: string)
    requires ImportStatement(n) in TopStatements(isLocal, top)
    ensures !isLocal(n)
    decreases |top|
  {
    var init := top[..|top| - 1];
    if ImportStatement(n) in TopStatements(isLocal, init) {
      TopStatementsExternal(isLocal, init, n);
    } else {
      match top[|top| - 1]
      case Import(names, _) => ExternalImportsExternal(isLocal, names, n);
      case ImportFrom(m, names, _) =>
        if m.Some? { StatementKinds(n, m.value, names); }
        assert false;
    }
  }

  /** An `import` statement never reads as a `from` statement. */
  lemma StatementKinds(n: string, moduleName: string, names: seq<string>)
    ensures ImportStatement(n) != FromStatement(moduleName, names)
  {
    assert ImportStatement(n)[0] == 'i' && FromStatement(moduleName, names)[0] == 'f';
  }

  lemma {:induction false} ExternalImportsExternal(isLocal: string -> bool, names: seq<string>, n: string)
    requires ImportStatement(n) in ExternalImports(isLocal, names)
    ensures !isLocal(n)
    decreases |names|
  {
    var init := names[..|names| - 1];
    var last := names[|names| - 1];
    if ImportStatement(n) in ExternalImports(isLocal, init) {
      ExternalImportsExternal(isLocal, init, n);
    } else {
      assert ImportStatement(n) == ImportStatement(last);
      assert n == ImportStatement(n)[7..] && last == ImportStatement(last)[7..];
    }
  }

  // ---------------------------------------------------------------------
  // Counting statements seen again
  // ---------------------------------------------------------------------

  /**
   * How often a member of `xs` is already in `seen`, or earlier in `xs`,
   * when its turn comes: the hits of the `in` tests of the first pass.
   */
  function Recurrences(seen: set<string>, xs: seq<string>): nat
  {
    if xs == [] then 0
    else
      var init := xs[..|xs| - 1];
      Recurrences(seen, init) + (if xs[|xs| - 1] in seen + Elems(init) then 1 else 0)
  }

  /** Every member either recurs or enlarges the set: the recurrences are what the set does not grow by. */
  lemma {:induction false} RecurrencesCount(seen: set<string>, xs: seq<string>)
    ensures Recurrences(seen, xs) + |seen + Elems(xs)| == |seen| + |xs|
    decreases |xs|
  {
    if xs != [] {
      var init := xs[..|xs| - 1];
      var last := xs[|xs| - 1];
      RecurrencesCount(seen, init);
      assert xs == init + [last];
      var before := seen + Elems(init);
      assert seen + Elems(xs) == before + {last};
      if last in before {
        assert before + {last} == before;
      } else {
        assert |before + {last}| == |before| + 1;
      }
    }
  }

  /** Nothing recurs in a sequence exactly when its members are distinct. */
  lemma {:induction false} RecurrencesZeroIffDistinct(xs: seq<string>)
    ensures Recurrences({}, xs) == 0 <==> Distinct(xs)
    decreases |xs|
  {
    if xs != [] {
      var init := xs[..|xs| - 1];
      var last := xs[|xs| - 1];
      RecurrencesZeroIffDistinct(init);
      assert {} + Elems(init) == Elems(init);
      if Distinct(xs) {
        assert Distinct(init) by {
          forall i, j | 0 <= i < j < |init| ensures init[i] != init[j] {
            assert init[i] == xs[i] && init[j] == xs[j];
          }
        }
        assert last !in Elems(init) by {
          forall i | 0 <= i < |init| ensures init[i] != last {
            assert init[i] == xs[i];
          }
        }
      } else if Recurrences({}, xs) == 0 {
        assert Distinct(init) && last !in Elems(init);
        forall i, j | 0 <= i < j < |xs| ensures xs[i] != xs[j] {
          if j < |init| {
            assert xs[i] == init[i] && xs[j] == init[j];
          } else {
            assert xs[i] == init[i];
            assert init[i] in Elems(init);
          }
        }
        assert false;
      }
    }
  }

  /** Counting over two pieces: the second piece sees the first one's members as already seen. */
  lemma {:induction false} RecurrencesAppend(seen: set<string>, a: seq<string>, b: seq<string>)
    ensures Recurrences(seen, a + b) == Recurrences(seen, a) + Recurrences(seen + Elems(a), b)
    decreases |b|
  {
    if b == [] {
      assert a + b == a;
    } else {
      var init := b[..|b| - 1];
      var last := b[|b| - 1];
      RecurrencesAppend(seen, a, init);
      assert (a + b)[..|a + b| - 1] == a + init;
      assert (a + b)[|a + b| - 1] == last;
      assert seen + Elems(a + init) == (seen + Elems(a)) + Elems(init);
    }
  }

  /**
   * The counters of the first pass: the unhandled statements so far and
   * how many of them recurred, and the local names of the current file and
   * how many of them recurred.
   */
  datatype Tally = Tally(unhandled: set<string>, duplicates: nat, handled: set<string>, redundant: nat)

  /** The counters after meeting the statements `ext` and the local names `loc`. */
  function Absorb(t: Tally, ext: seq<string>, loc: seq<string>): Tally
  {
    Tally(t.unhandled + Elems(ext), t.duplicates + Recurrences(t.unhandled, ext),
          t.handled + Elems(loc), t.redundant + Recurrences(t.handled, loc))
  }

  lemma AbsorbAppend(t: Tally, e1: seq<string>, l1: seq<string>, e2: seq<string>, l2: seq<string>)
    ensures Absorb(Absorb(t, e1, l1), e2, l2) == Absorb(t, e1 + e2, l1 + l2)
  {
    RecurrencesAppend(t.unhandled, e1, e2);
    RecurrencesAppend(t.handled, l1, l2);
    assert Elems(e1 + e2) == Elems(e1) + Elems(e2);
    assert Elems(l1 + l2) == Elems(l1) + Elems(l2);
  }

  /** One statement, or one local name, met by the first pass. */
  lemma AbsorbOne(t: Tally, x: string)
    ensures Absorb(t, [x], []) == Tally(t.unhandled + {x}, t.duplicates + (if x in t.unhandled then 1 else 0), t.handled, t.redundant)
    ensures Absorb(t, [], [x]) == Tally(t.unhandled, t.duplicates, t.handled + {x}, t.redundant + (if x in t.handled then 1 else 0))
  {
    assert [x][..0] == [];
    assert Elems<string>([]) == {};
    assert Elems([x]) == {x};
    assert Recurrences(t.unhandled, [x]) == (if x in t.unhandled then 1 else 0);
    assert Recurrences(t.handled, [x]) == (if x in t.handled then 1 else 0);
  }

  // ---------------------------------------------------------------------
  // What the first pass computes over the files in order
  // ---------------------------------------------------------------------

  /** The top-level imports of a file, or None where it does not parse. */
  function FileTop(env: Env, file: Path): Option<seq<ImportNode>>
  {
    match env.parse(Content(env.fs, file))
    case SyntaxError => None
    case Module(_, top) => Some(top)
  }

  /** The unhandled statements of the files, in the order the first pass meets them. */
  function Statements(env: Env, sourceDir: Path, files: seq<Path>): seq<string>
  {
    if files == [] then []
    else
      var top := FileTop(env, files[|files| - 1]);
      Statements(env, sourceDir, files[..|files| - 1]) + (if top.Some? then TopStatements(Local(env, sourceDir), top.value) else [])
  }

  /** `total_imports`: the top-level import statements of the files that parse. */
  function ImportCount(env: Env, files: seq<Path>): nat
  {
    if files == [] then 0
    else
      var top := FileTop(env, files[|files| - 1]);
      ImportCount(env, files[..|files| - 1]) + (if top.Some? then |top.value| else 0)
  }

  /** `redundant_imports`: local names imported again at the top level of the same file. */
  function RedundantCount(env: Env, sourceDir: Path, files: seq<Path>): nat
  {
    if files == [] then 0
    else
      var top := FileTop(env, files[|files| - 1]);
      RedundantCount(env, sourceDir, files[..|files| - 1])
        + (if top.Some? then Recurrences({}, LocalNames(Local(env, sourceDir), WalkNames(top.value))) else 0)
  }

  /**
   * `duplicate_imports` counts exactly the statements beyond the first
   * occurrence of each: it is the number of statements met less the number
   * of distinct ones, and it is zero exactly when no statement recurs.
   */
  lemma DuplicatesCount(env: Env, sourceDir: Path, files: seq<Path>)
    ensures var s := Statements(env, sourceDir, files);
      Recurrences({}, s) == |s| - |Elems(s)| && (Recurrences({}, s) == 0 <==> Distinct(s))
  {
    var s := Statements(env, sourceDir, files);
    RecurrencesCount({}, s);
    assert {} + Elems(s) == Elems(s);
    RecurrencesZeroIffDistinct(s);
  }

  /** No hoisted `import n` names a local module. */
  lemma {:induction false} StatementsExternal(env: Env, sourceDir: Path, files: seq<Path>, n: string)
    requires ImportStatement(n) in Statements(env, sourceDir, files)
    ensures !IsLocalImport(env, sourceDir, n)
    decreases |files|
  {
    var init := files[..|files| - 1];
    var top := FileTop(env, files[|files| - 1]);
    if ImportStatement(n) in Statements(env, sourceDir, init) {
      StatementsExternal(env, sourceDir, init, n);
    } else {
      TopStatementsExternal(Local(env, sourceDir), top.value, n);
    }
  }

  // ---------------------------------------------------------------------
  // The first pass
  // ---------------------------------------------------------------------

  /** One name of an `import`: a statement for the unhandled set, or a local name of the file. */
  method TallyName(env: Env, sourceDir: Path, name: string, t: Tally) returns (t': Tally)
    ensures t' == Absorb(t, ExternalImports(Local(env, sourceDir), [name]), LocalNames(Local(env, sourceDir), [name]))
  {
    var local := SearchCandidatesOf(env, sourceDir, name);
    assert [name][..0] == [];
    if !local {
      var stmt := ImportStatement(name);
      AbsorbOne(t, stmt);
      t' := t.(unhandled := t.unhandled + {stmt}, duplicates := t.duplicates + if stmt in t.unhandled then 1 else 0);
    } else {
      AbsorbOne(t, name);
      t' := t.(handled := t.handled + {name}, redundant := t.redundant + if name in t.handled then 1 else 0);
    }
  }

  /** The names of one `import` statement, in order. */
  method TallyImport(env: Env, sourceDir: Path, names: seq<string>, t: Tally) returns (t': Tally)
    ensures t' == Absorb(t, ExternalImports(Local(env, sourceDir), names), LocalNames(Local(env, sourceDir), names))
  {
    t' := t;
    var j := 0;
    while j < |names|
      invariant 0 <= j <= |names|
      invariant t' == Absorb(t, ExternalImports(Local(env, sourceDir), names[..j]), LocalNames(Local(env, sourceDir), names[..j]))
    {
      ImportStep(Local(env, sourceDir), names, j, t);
      t' := TallyName(env, sourceDir, names[j], t');
      j := j + 1;
    }
    assert names[..j] == names;
  }

  lemma ImportStep(isLocal: string -> bool, names: seq<string>, j: nat, t: Tally)
    requires j < |names|
    ensures Absorb(Absorb(t, ExternalImports(isLocal, names[..j]), LocalNames(isLocal, names[..j])),
                   ExternalImports(isLocal, [names[j]]), LocalNames(isLocal, [names[j]]))
         == Absorb(t, ExternalImports(isLocal, names[..j + 1]), LocalNames(isLocal, names[..j + 1]))
  {
    var x := names[j];
    assert names[..j + 1] == names[..j] + [x];
    assert [x][..0] == [];
    assert names[..j + 1][..j] == names[..j];
    NamesPrefixStep(isLocal, names, j);
    AbsorbAppend(t, ExternalImports(isLocal, names[..j]), LocalNames(isLocal, names[..j]),
                 ExternalImports(isLocal, [x]), LocalNames(isLocal, [x]));
  }

  /** One top-level import statement. */
  method TallyNode(env: Env, sourceDir: Path, node: ImportNode, t: Tally) returns (t': Tally)
    ensures t' == Absorb(t, NodeStatements(Local(env, sourceDir), node), LocalNames(Local(env, sourceDir), NodeNames(node)))
  {
    match node {
      case Import(names, _) =>
        t' := TallyImport(env, sourceDir, names, t);
      case ImportFrom(m, names, _) =>
        if m.Some? && m.value != "" {
          t' := TallyFrom(env, sourceDir, m.value, names, t);
        } else {
          t' := t;
          assert Elems<string>([]) == {};
        }
    }
  }

  /** A `from` import with a module: its statement for the unhandled set, or its module as a local name. */
  method TallyFrom(env: Env, sourceDir: Path, moduleName: string, names: seq<string>, t: Tally) returns (t': Tally)
    requires moduleName != ""
    ensures var node := ImportFrom(Some(moduleName), names, 0);
      t' == Absorb(t, NodeStatements(Local(env, sourceDir), node), LocalNames(Local(env, sourceDir), NodeNames(node)))
  {
    var local := SearchCandidatesOf(env, sourceDir, moduleName);
    assert [moduleName][..0] == [];
    if !local {
      var stmt := FromStatement(moduleName, names);
      AbsorbOne(t, stmt);
      t' := t.(unhandled := t.unhandled + {stmt}, duplicates := t.duplicates + if stmt in t.unhandled then 1 else 0);
    } else {
      AbsorbOne(t, moduleName);
      t' := t.(handled := t.handled + {moduleName}, redundant := t.redundant + if moduleName in t.handled then 1 else 0);
    }
  }

  /** The top-level statements of one file, counted as they are met. */
  method TallyFile(env: Env, sourceDir: Path, top: seq<ImportNode>, t: Tally) returns (t': Tally, count: nat)
    ensures t' == Absorb(t, TopStatements(Local(env, sourceDir), top), LocalNames(Local(env, sourceDir), WalkNames(top)))
    ensures count == |top|
  {
    t', count := t, 0;
    var k := 0;
    while k < |top|
      invariant 0 <= k <= |top| && count == k
      invariant t' == Absorb(t, TopStatements(Local(env, sourceDir), top[..k]), LocalNames(Local(env, sourceDir), WalkNames(top[..k])))
    {
      FileStep(Local(env, sourceDir), top, k, t);
      count := count + 1;
      t' := TallyNode(env, sourceDir, top[k], t');
      k := k + 1;
    }
    assert top[..k] == top;
  }

  lemma FileStep(isLocal: string -> bool, top: seq<ImportNode>, k: nat, t: Tally)
    requires k < |top|
    ensures Absorb(Absorb(t, TopStatements(isLocal, top[..k]), LocalNames(isLocal, WalkNames(top[..k]))),
                   NodeStatements(isLocal, top[k]), LocalNames(isLocal, NodeNames(top[k])))
         == Absorb(t, TopStatements(isLocal, top[..k + 1]), LocalNames(isLocal, WalkNames(top[..k + 1])))
  {
    assert top[..k + 1][..k] == top[..k];
    WalkPrefixStep(isLocal, top, k);
    AbsorbAppend(t, TopStatements(isLocal, top[..k]), LocalNames(isLocal, WalkNames(top[..k])),
                 NodeStatements(isLocal, top[k]), LocalNames(isLocal, NodeNames(top[k])));
  }

  /**
   * The first pass of `_merge_files`: the set of unhandled statements and
   * the three counters, over the files in merge order; a file that does
   * not parse is skipped.
   */
  method FirstPass(env: Env, sourceDir: Path, files: seq<Path>)
    returns (unhandled: set<string>, total: nat, duplicates: nat, redundant: nat)
    ensures unhandled == Elems(Statements(env, sourceDir, files))
    ensures total == ImportCount(env, files)
    ensures duplicates == Recurrences({}, Statements(env, sourceDir, files))
    ensures redundant == RedundantCount(env, sourceDir, files)
  {
    unhandled, total, duplicates, redundant := {}, 0, 0, 0;
    var i := 0;
    while i < |files|
      invariant 0 <= i <= |files|
      invariant unhandled == Elems(Statements(env, sourceDir, files[..i]))
      invariant total == ImportCount(env, files[..i])
      invariant duplicates == Recurrences({}, Statements(env, sourceDir, files[..i]))
      invariant redundant == RedundantCount(env, sourceDir, files[..i])
    {
      PassStep(env, sourceDir, files, i);
      var tree := env.parse(Content(env.fs, files[i]));
      if tree.Module? {
        var t, count := TallyFile(env, sourceDir, tree.top, Tally(unhandled, duplicates, {}, 0));
        unhandled, duplicates := t.unhandled, t.duplicates;
        redundant := redundant + t.redundant;
        total := total + count;
      }
      i := i + 1;
    }
    assert files[..i] == files;
  }

  /** The first-pass functions over one more file. */
  lemma PassStep(env: Env, sourceDir: Path, files: seq<Path>, i: nat)
    requires i < |files|
    ensures var s := Statements(env, sourceDir, files[..i]);
      var top := FileTop(env, files[i]);
      var more := if top.Some? then TopStatements(Local(env, sourceDir), top.value) else [];
      && Statements(env, sourceDir, files[..i + 1]) == s + more
      && Elems(s + more) == Elems(s) + Elems(more)
      && Recurrences({}, s + more) == Recurrences({}, s) + Recurrences(Elems(s), more)
      && ImportCount(env, files[..i + 1]) == ImportCount(env, files[..i]) + (if top.Some? then |top.value| else 0)
      && RedundantCount(env, sourceDir, files[..i + 1]) == RedundantCount(env, sourceDir, files[..i])
           + (if top.Some? then Recurrences({}, LocalNames(Local(env, sourceDir), WalkNames(top.value))) else 0)
  {
    assert files[..i + 1][..i] == files[..i];
    var s := Statements(env, sourceDir, files[..i]);
    var top := FileTop(env, files[i]);
    var more := if top.Some? then TopStatements(Local(env, sourceDir), top.value) else [];
    RecurrencesAppend({}, s, more);
    assert {} + Elems(s) == Elems(s);
  }

  // ---------------------------------------------------------------------
  // The second pass
  // ---------------------------------------------------------------------

  /** `"#" + "=" * 80`, the rule around each file header. */
  const Rule: string := "#================================================================================"

  /** The four lines written before anything else. */
  function Preamble(entryFile: Path, sourceDir: Path): seq<string> {
    ["# Generated by PyCombiner", "# Entry file: " + Str(entryFile), "# Source directory: " + Str(sourceDir), ""]
  }

  /** The header of the file at 1-based position `idx` of the merge order. */
  function Header(idx: nat, file: Path): seq<string> {
    ["", Rule, "# [" + NatToString(idx) + "] " + Name(file) + " : " + Str(file), Rule, ""]
  }

  /**
   * The line numbers one top-level statement hides: that of an `import`
   * with a local name, and that of a local `from` import together with the
   * number before it.
   */
  function NodeLines(isLocal: string -> bool, node: ImportNode): set<int>
  {
    match node
    case Import(names, lineno) => if LocalNames(isLocal, names) != [] then {lineno} else {}
    case ImportFrom(m, _, lineno) => if m.Some? && m.value != "" && isLocal(m.value) then LineAndBefore(lineno) else {}
  }

  /** A line number together with the one before it. */
  function LineAndBefore(lineno: int): set<int>
  {
    {lineno, lineno - 1}
  }

  /** `handled_import_lines` of a file. */
  function HandledLines(isLocal: string -> bool, top: seq<ImportNode>): set<int>
  {
    if top == [] then {} else HandledLines(isLocal, top[..|top| - 1]) + NodeLines(isLocal, top[|top| - 1])
  }

  /** The lines of a text that are written: those whose 1-based number is not handled, in order. */
  function KeptLines(lines: seq<string>, handled: set<int>): seq<string>
  {
    if lines == [] then []
    else KeptLines(lines[..|lines| - 1], handled) + (if |lines| in handled then [] else [lines[|lines| - 1]])
  }

  /** The numbers among 1..n that are handled. */
  function HandledUpTo(handled: set<int>, n: nat): set<int>
  {
    set i | 1 <= i <= n && i in handled
  }

  /** Exactly one line is left out per handled number that is a line of the text. */
  lemma {:induction false} KeptLinesCount(lines: seq<string>, handled: set<int>)
    ensures |KeptLines(lines, handled)| + |HandledUpTo(handled, |lines|)| == |lines|
    decreases |lines|
  {
    if lines != [] {
      var n := |lines|;
      KeptLinesCount(lines[..n - 1], handled);
      if n in handled {
        assert HandledUpTo(handled, n) == HandledUpTo(handled, n - 1) + {n};
      } else {
        assert HandledUpTo(handled, n) == HandledUpTo(handled, n - 1);
      }
    }
  }

  /** A written line is a line of the text at an unhandled number, and every such line is written. */
  lemma {:induction false} KeptLinesMembers(lines: seq<string>, handled: set<int>)
    ensures forall x :: x in KeptLines(lines, handled) <==>
      exists i :: 1 <= i <= |lines| && i !in handled && lines[i - 1] == x
    decreases |lines|
  {
    if lines != [] {
      var n := |lines|;
      var init := lines[..n - 1];
      KeptLinesMembers(init, handled);
      forall x ensures x in KeptLines(lines, handled) <==> exists i :: 1 <= i <= n && i !in handled && lines[i - 1] == x {
        if exists i :: 1 <= i <= n && i !in handled && lines[i - 1] == x {
          var i :| 1 <= i <= n && i !in handled && lines[i - 1] == x;
          if i < n { assert init[i - 1] == x; }
        }
        if x in KeptLines(init, handled) {
          var i :| 1 <= i <= |init| && i !in handled && init[i - 1] == x;
          assert lines[i - 1] == x;
        }
      }
    }
  }

  /** A text none of whose line numbers is handled is written whole. */
  lemma {:induction false} KeptLinesNoneHandled(lines: seq<string>, handled: set<int>)
    requires forall i :: 1 <= i <= |lines| ==> i !in handled
    ensures KeptLines(lines, handled) == lines
    decreases |lines|
  {
    if lines != [] {
      KeptLinesNoneHandled(lines[..|lines| - 1], handled);
      assert lines[..|lines| - 1] + [lines[|lines| - 1]] == lines;
    }
  }

  /** A handled number comes from one of the statements, and each statement's numbers are handled. */
  lemma {:induction false} HandledLinesMembers(isLocal: string -> bool, top: seq<ImportNode>)
    ensures forall l :: l in HandledLines(isLocal, top) <==> exists k :: 0 <= k < |top| && l in NodeLines(isLocal, top[k])
    decreases |top|
  {
    if top != [] {
      var init := top[..|top| - 1];
      HandledLinesMembers(isLocal, init);
      forall l ensures l in HandledLines(isLocal, top) <==> exists k :: 0 <= k < |top| && l in NodeLines(isLocal, top[k]) {
        if exists k :: 0 <= k < |top| && l in NodeLines(isLocal, top[k]) {
          var k :| 0 <= k < |top| && l in NodeLines(isLocal, top[k]);
          if k < |init| { assert init[k] == top[k]; }
        }
        if l in HandledLines(isLocal, init) {
          var k :| 0 <= k < |init| && l in NodeLines(isLocal, init[k]);
          assert top[k] == init[k];
        }
      }
    }
  }

  /**
   * A local `from` import at line `lineno` hides its own line and the line
   * before it, whatever that line holds.
   */
  lemma LocalFromHidesLineBefore(isLocal: string -> bool, top: seq<ImportNode>, k: nat)
    requires k < |top| && top[k].ImportFrom? && top[k].moduleName.Some?
    requires top[k].moduleName.value != "" && isLocal(top[k].moduleName.value)
    ensures top[k].lineno in HandledLines(isLocal, top) && top[k].lineno - 1 in HandledLines(isLocal, top)
  {
    HandledLinesMembers(isLocal, top);
    assert NodeLines(isLocal, top[k]) == LineAndBefore(top[k].lineno);
  }

  /** What the second pass writes for the file at 1-based position `idx`: nothing when it does not parse. */
  function Section(env: Env, sourceDir: Path, idx: nat, file: Path): seq<string>
  {
    match env.parse(Content(env.fs, file))
    case SyntaxError => []
    case Module(_, top) =>
      Header(idx, file) + KeptLines(Split(Content(env.fs, file), '\n'), HandledLines(Local(env, sourceDir), top))
  }

  /** Everything the second pass writes, over the files in merge order. */
  function Bodies(env: Env, sourceDir: Path, files: seq<Path>): seq<string>
  {
    if files == [] then []
    else Bodies(env, sourceDir, files[..|files| - 1]) + Section(env, sourceDir, |files|, files[|files| - 1])
  }

  /**
   * The lines of the output file: the preamble, the unhandled statements
   * sorted and each once, a blank line, then the sections.
   */
  ghost function Output(env: Env, sourceDir: Path, entryFile: Path, files: seq<Path>): seq<string>
  {
    Preamble(entryFile, sourceDir) + SortedOf(Elems(Statements(env, sourceDir, files))) + [""] + Bodies(env, sourceDir, files)
  }

  /** What the sections of a prefix of the files write is a prefix of what all of them write. */
  lemma {:induction false} BodiesPrefix(env: Env, sourceDir: Path, files: seq<Path>, m: nat)
    requires m <= |files|
    ensures Bodies(env, sourceDir, files[..m]) <= Bodies(env, sourceDir, files)
    decreases |files| - m
  {
    if m < |files| {
      BodiesPrefix(env, sourceDir, files, m + 1);
      assert files[..m + 1][..m] == files[..m];
    } else {
      assert files[..m] == files;
    }
  }

  /**
   * Every file of the merge order that parses is written under a header
   * carrying its 1-based position, and the headers come in merge order.
   */
  lemma SectionHeader(env: Env, sourceDir: Path, files: seq<Path>, i: nat)
    requires i < |files| && env.parse(Content(env.fs, files[i])).Module?
    ensures var o := |Bodies(env, sourceDir, files[..i])|;
      o + 5 <= |Bodies(env, sourceDir, files)| && Bodies(env, sourceDir, files)[o..o + 5] == Header(i + 1, files[i])
  {
    BodiesStep(env, sourceDir, files, i);
    SectionStartsWithHeader(env, sourceDir, i + 1, files[i]);
    BodiesPrefix(env, sourceDir, files, i + 1);
    SliceOfPrefix(Bodies(env, sourceDir, files[..i]), Section(env, sourceDir, i + 1, files[i]),
      Bodies(env, sourceDir, files[..i + 1]), Bodies(env, sourceDir, files), 5);
  }

  lemma BodiesStep(env: Env, sourceDir: Path, files: seq<Path>, i: nat)
    requires i < |files|
    ensures Bodies(env, sourceDir, files[..i + 1]) == Bodies(env, sourceDir, files[..i]) + Section(env, sourceDir, i + 1, files[i])
  {
    TakeTake(files, i, i + 1);
  }

  /** The first `n` elements of the part after `before`, seen in a longer sequence. */
  lemma SliceOfPrefix<T>(before: seq<T>, s: seq<T>, b: seq<T>, c: seq<T>, n: nat)
    requires b == before + s && n <= |s| && b <= c
    ensures |before| + n <= |c| && c[|before|..|before| + n] == s[..n]
  {
    SliceOfMiddle(before, s, n);
    PrefixSlice(b, c, |before|, |before| + n);
  }

  /** The section of a file that parses opens with its header. */
  lemma SectionStartsWithHeader(env: Env, sourceDir: Path, idx: nat, file: Path)
    requires env.parse(Content(env.fs, file)).Module?
    ensures |Section(env, sourceDir, idx, file)| >= 5 && Section(env, sourceDir, idx, file)[..5] == Header(idx, file)
  {
    var top := env.parse(Content(env.fs, file)).top;
    var kept := KeptLines(Split(Content(env.fs, file), '\n'), HandledLines(Local(env, sourceDir), top));
    assert Section(env, sourceDir, idx, file) == Header(idx, file) + kept;
  }

  lemma SliceOfMiddle<T>(a: seq<T>, s: seq<T>, n: nat)
    requires n <= |s|
    ensures (a + s)[|a|..|a| + n] == s[..n]
  {
  }

  lemma PrefixSlice<T>(b: seq<T>, c: seq<T>, lo: nat, hi: nat)
    requires b <= c && lo <= hi <= |b|
    ensures c[lo..hi] == b[lo..hi]
  {
  }

  /** The output holds every unhandled statement exactly once, sorted, right after the preamble. */
  lemma OutputImports(env: Env, sourceDir: Path, entryFile: Path, files: seq<Path>)
    ensures var out := Output(env, sourceDir, entryFile, files);
      var s := Elems(Statements(env, sourceDir, files));
      |out| >= 5 + |s| && out[..4] == Preamble(entryFile, sourceDir)
      && StrictlySorted(out[4..4 + |s|]) && Elems(out[4..4 + |s|]) == s && out[4 + |s|] == ""
  {
    var s := Elems(Statements(env, sourceDir, files));
    var sorted := SortedOf(s);
    var out := Output(env, sourceDir, entryFile, files);
    assert out[4..4 + |s|] == sorted;
  }

  // ---------------------------------------------------------------------
  // The second pass, step by step
  // ---------------------------------------------------------------------

  /** The handled line numbers of one statement, added to `handled`. */
  method AddNodeLines(env: Env, sourceDir: Path, node: ImportNode, handled: set<int>) returns (handled': set<int>)
    ensures handled' == handled + NodeLines(Local(env, sourceDir), node)
  {
    match node {
      case Import(names, lineno) =>
        handled' := AddImportLines(env, sourceDir, names, lineno, handled);
      case ImportFrom(m, _, lineno) =>
        var local := false;
        if m.Some? && m.value != "" {
          local := SearchCandidatesOf(env, sourceDir, m.value);
        }
        handled' := if local then handled + LineAndBefore(lineno) else handled;
    }
  }

  /** The names of an `import`: its line is handled once one of them is local. */
  method AddImportLines(env: Env, sourceDir: Path, names: seq<string>, lineno: int, handled: set<int>) returns (handled': set<int>)
    ensures handled' == handled + (if LocalNames(Local(env, sourceDir), names) != [] then {lineno} else {})
  {
    handled' := handled;
    var j := 0;
    while j < |names|
      invariant 0 <= j <= |names|
      invariant handled' == handled + (if LocalNames(Local(env, sourceDir), names[..j]) != [] then {lineno} else {})
    {
      NamesPrefixStep(Local(env, sourceDir), names, j);
      handled' := AddNameLine(env, sourceDir, names[j], lineno, handled');
      j := j + 1;
    }
    assert names[..j] == names;
  }

  /** One name of an `import`: its statement's line is handled when the name is local. */
  method AddNameLine(env: Env, sourceDir: Path, name: string, lineno: int, handled: set<int>) returns (handled': set<int>)
    ensures handled' == handled + (if Local(env, sourceDir)(name) then {lineno} else {})
  {
    handled' := handled;
    var local := SearchCandidatesOf(env, sourceDir, name);
    if local {
      handled' := handled' + {lineno};
    }
  }

  /** `handled_import_lines`, collected statement by statement. */
  method CollectHandledLines(env: Env, sourceDir: Path, top: seq<ImportNode>) returns (handled: set<int>)
    ensures handled == HandledLines(Local(env, sourceDir), top)
  {
    handled := {};
    var k := 0;
    while k < |top|
      invariant 0 <= k <= |top|
      invariant handled == HandledLines(Local(env, sourceDir), top[..k])
    {
      assert top[..k + 1][..k] == top[..k];
      handled := AddNodeLines(env, sourceDir, top[k], handled);
      k := k + 1;
    }
    assert top[..k] == top;
  }

  /** The loop that writes the lines of a file whose numbers are not handled. */
  method WriteKeptLines(lines: seq<string>, handled: set<int>) returns (out: seq<string>)
    ensures out == KeptLines(lines, handled)
  {
    out := [];
    var i := 1;
    while i <= |lines|
      invariant 1 <= i <= |lines| + 1
      invariant out == KeptLines(lines[..i - 1], handled)
    {
      assert lines[..i][..i - 1] == lines[..i - 1];
      if i !in handled {
        out := out + [lines[i - 1]];
      }
      i := i + 1;
    }
    assert lines[..i - 1] == lines;
  }

  /** One file of the second pass. */
  method WriteSection(env: Env, sourceDir: Path, idx: nat, file: Path) returns (out: seq<string>)
    ensures out == Section(env, sourceDir, idx, file)
  {
    var content := Content(env.fs, file);
    var tree := env.parse(content);
    if tree.SyntaxError? {
      return [];
    }
    out := Header(idx, file);
    var handled := CollectHandledLines(env, sourceDir, tree.top);
    var kept := WriteKeptLines(Split(content, '\n'), handled);
    out := out + kept;
  }

  /** The second pass of `_merge_files`: the sections of the files, numbered from 1. */
  method SecondPass(env: Env, sourceDir: Path, files: seq<Path>) returns (out: seq<string>)
    ensures out == Bodies(env, sourceDir, files)
  {
    out := [];
    var i := 0;
    while i < |files|
      invariant 0 <= i <= |files|
      invariant out == Bodies(env, sourceDir, files[..i])
    {
      assert files[..i + 1][..i] == files[..i];
      var section := WriteSection(env, sourceDir, i + 1, files[i]);
      out := out + section;
      i := i + 1;
    }
    assert files[..i] == files;
  }
}
