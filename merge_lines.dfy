/**
 * The line-level logic inside `merge_files`: the import statements it
 * writes for external imports, the lines it keeps from a file's body, and
 * the `main` block it takes from the entry file.
 */
module MergeLines {
  import opened Wrappers
  import opened Strings
  import opened AstParser

  // ---------------------------------------------------------------------
  // external import statements
  // ---------------------------------------------------------------------

  /** `from M import n [as a]` or `import M [as a]`; an empty alias is falsy and adds nothing. */
  function ImportStatement(imp: ImportInfo): string
  {
    var head := if imp.isFromImport then "from " + imp.moduleName + " import " + imp.name
                else "import " + imp.moduleName;
    if imp.alias.Some? && imp.alias.value != "" then head + " as " + imp.alias.value else head
  }

  /** An import is external when its first dotted segment is not one of the local modules. */
  predicate IsExternal(imp: ImportInfo, localModules: set<string>) {
    Split(imp.moduleName, '.')[0] !in localModules
  }

  /** The statements of the external imports, in the order the imports were collected. */
  function ExternalStatements(imports: seq<ImportInfo>, localModules: set<string>): seq<string>
  {
    if imports == [] then []
    else
      var init, last := imports[..|imports| - 1], imports[|imports| - 1];
      ExternalStatements(init, localModules)
      + (if IsExternal(last, localModules) then [ImportStatement(last)] else [])
  }

  /** The statements are exactly those of the external imports: a local import is never written. */
  lemma {:induction false} ExternalStatementsMembers(imports: seq<ImportInfo>, localModules: set<string>)
    ensures forall x :: x in ExternalStatements(imports, localModules) <==>
      exists i :: 0 <= i < |imports| && IsExternal(imports[i], localModules) && ImportStatement(imports[i]) == x
    decreases |imports|
  {
    if imports != [] {
      var init, last := imports[..|imports| - 1], imports[|imports| - 1];
      ExternalStatementsMembers(init, localModules);
      assert forall i :: 0 <= i < |init| ==> imports[i] == init[i];
      forall x | x in ExternalStatements(imports, localModules)
        ensures exists i :: 0 <= i < |imports| && IsExternal(imports[i], localModules) && ImportStatement(imports[i]) == x
      {
        if x !in ExternalStatements(init, localModules) {
          assert IsExternal(imports[|imports| - 1], localModules);
        }
      }
    }
  }

  /** The statements with every repetition after the first left out. */
  function FirstSeen(stmts: seq<string>): seq<string>
  {
    if stmts == [] then []
    else
      var r := FirstSeen(stmts[..|stmts| - 1]);
      if stmts[|stmts| - 1] in r then r else r + [stmts[|stmts| - 1]]
  }

  /** Each statement is written once, and every collected statement is written. */
  lemma {:induction false} FirstSeenMembers(stmts: seq<string>)
    ensures Distinct(FirstSeen(stmts))
    ensures forall x :: x in FirstSeen(stmts) <==> x in stmts
    decreases |stmts|
  {
    if stmts != [] {
      var init, last := stmts[..|stmts| - 1], stmts[|stmts| - 1];
      FirstSeenMembers(init);
      assert forall x :: x in stmts <==> x in init || x == last;
    }
  }

  /** A statement seen earlier keeps its place: what later statements add comes after it. */
  lemma {:induction false} FirstSeenExtends(a: seq<string>, b: seq<string>)
    ensures |FirstSeen(a)| <= |FirstSeen(a + b)| && FirstSeen(a + b)[..|FirstSeen(a)|] == FirstSeen(a)
    decreases |b|
  {
    if b == [] {
      assert a + b == a;
    } else {
      var init := b[..|b| - 1];
      FirstSeenExtends(a, init);
      assert (a + b)[..|a + b| - 1] == a + init;
    }
  }

  lemma ExternalStatementsStep(imports: seq<ImportInfo>, i: nat, localModules: set<string>)
    requires i < |imports|
    ensures ExternalStatements(imports[..i + 1], localModules)
         == ExternalStatements(imports[..i], localModules)
            + (if IsExternal(imports[i], localModules) then [ImportStatement(imports[i])] else [])
  {
    TakeTake(imports, i, i + 1);
  }

  lemma FirstSeenStep(stmts: seq<string>, x: string)
    ensures FirstSeen(stmts + [x]) == if x in Elems(FirstSeen(stmts)) then FirstSeen(stmts) else FirstSeen(stmts) + [x]
  {
    TakeAppended(stmts, [x]);
  }

  /** One more import of the loop over `all_imports`. */
  lemma EmitStep(imports: seq<ImportInfo>, i: nat, localModules: set<string>, lines: seq<string>)
    requires i < |imports| && lines == FirstSeen(ExternalStatements(imports[..i], localModules))
    ensures var imp := imports[i];
      FirstSeen(ExternalStatements(imports[..i + 1], localModules))
      == if IsExternal(imp, localModules) && ImportStatement(imp) !in Elems(lines) then lines + [ImportStatement(imp)] else lines
  {
    var before := ExternalStatements(imports[..i], localModules);
    ExternalStatementsStep(imports, i, localModules);
    if IsExternal(imports[i], localModules) {
      FirstSeenStep(before, ImportStatement(imports[i]));
    } else {
      AppendEmpty(before);
    }
  }

  /**
   * The loop over `all_imports`: skip the local ones, format the rest and
   * add each statement the first time it appears.
   */
  method EmitExternalImports(allImports: seq<ImportInfo>, localModules: set<string>) returns (lines: seq<string>)
    ensures lines == FirstSeen(ExternalStatements(allImports, localModules))
  {
    lines := [];
    var processedImports: set<string> := {};
    var i := 0;
    while i < |allImports|
      invariant 0 <= i <= |allImports|
      invariant lines == FirstSeen(ExternalStatements(allImports[..i], localModules))
      invariant processedImports == Elems(lines)
    {
      EmitStep(allImports, i, localModules, lines);
      var imp := allImports[i];
      if IsExternal(imp, localModules) {
        var importStmt := ImportStatement(imp);
        if importStmt !in processedImports {
          ElemsSnoc(lines, importStmt);
          lines := lines + [importStmt];
          processedImports := processedImports + {importStmt};
        }
      }
      i := i + 1;
    }
    TakeAll(allImports);
  }

  // ---------------------------------------------------------------------
  // the body of a non-entry file
  // ---------------------------------------------------------------------

  /** A line the merger leaves out of a body: an import, `def main()` or the `__name__` guard. */
  predicate IsDropped(line: string) {
    var s := Strip(line);
    StartsWith(s, "import ") || StartsWith(s, "from ") || StartsWith(s, "def main()") || StartsWith(s, "if __name__")
  }

  /** The lines of a body that the merger keeps, in their order. */
  function KeptLines(lines: seq<string>): seq<string>
  {
    if lines == [] then []
    else KeptLines(lines[..|lines| - 1]) + (if IsDropped(lines[|lines| - 1]) then [] else [lines[|lines| - 1]])
  }

  /** A line is kept exactly when it is not one the merger drops. */
  lemma {:induction false} KeptLinesMembers(lines: seq<string>)
    ensures |KeptLines(lines)| <= |lines|
    ensures forall x :: x in KeptLines(lines) <==> x in lines && !IsDropped(x)
    decreases |lines|
  {
    if lines != [] {
      var init, last := lines[..|lines| - 1], lines[|lines| - 1];
      KeptLinesMembers(init);
      assert forall x :: x in lines <==> x in init || x == last;
    }
  }

  /** Filtering works line by line: the kept lines of two parts follow each other. */
  lemma {:induction false} KeptLinesAppend(a: seq<string>, b: seq<string>)
    ensures KeptLines(a + b) == KeptLines(a) + KeptLines(b)
    decreases |b|
  {
    if b == [] {
      assert a + b == a;
    } else {
      var init, last := b[..|b| - 1], b[|b| - 1];
      KeptLinesAppend(a, init);
      assert (a + b)[..|a + b| - 1] == a + init;
      assert (a + b)[|a + b| - 1] == last;
      assert KeptLines(a + b) == KeptLines(a + init) + (if IsDropped(last) then [] else [last]);
    }
  }

  /** The loop over a body's lines. */
  method FilterBody(lines: seq<string>) returns (fileContent: seq<string>)
    ensures fileContent == KeptLines(lines)
  {
    fileContent := [];
    var i := 0;
    while i < |lines|
      invariant 0 <= i <= |lines|
      invariant fileContent == KeptLines(lines[..i])
    {
      assert lines[..i + 1][..i] == lines[..i];
      var line := lines[i];
      if !IsDropped(line) {
        fileContent := fileContent + [line];
      }
      i := i + 1;
    }
    assert lines[..i] == lines;
  }

  // ---------------------------------------------------------------------
  // the entry file's main block
  // ---------------------------------------------------------------------

  predicate IsMainDef(line: string) {
    StartsWith(Strip(line), "def main()")
  }

  predicate IsNameGuard(line: string) {
    StartsWith(Strip(line), "if __name__")
  }

  /** The call the merger adds after the guard line. */
  const MainCall: string := "    main()"

  /**
   * The block taken from the entry file, from its `lines`, when `inMain`
   * says whether a `def main()` line was already met.
   */
  function EntryBlock(lines: seq<string>, inMain: bool): seq<string>
    decreases |lines|
  {
    if lines == [] then []
    else
      var line := lines[0];
      if IsMainDef(line) then [line] + EntryBlock(lines[1..], true)
      else if inMain && Strip(line) != "" && !IsNameGuard(line) then [line] + EntryBlock(lines[1..], inMain)
      else if IsNameGuard(line) then [line, MainCall]
      else EntryBlock(lines[1..], inMain)
  }

  /** Apart from the added call, the block holds lines of the file, none of them blank. */
  lemma {:induction false} EntryBlockFromFile(lines: seq<string>, inMain: bool)
    ensures forall i :: 0 <= i < |EntryBlock(lines, inMain)| ==>
      var x := EntryBlock(lines, inMain)[i];
      x == MainCall || (x in lines && Strip(x) != "")
    decreases |lines|
  {
    if lines != [] {
      EntryBlockFromFile(lines[1..], true);
      EntryBlockFromFile(lines[1..], inMain);
      assert forall x :: x in lines[1..] ==> x in lines;
      if IsMainDef(lines[0]) || IsNameGuard(lines[0]) {
        assert Strip(lines[0]) != "";
      }
    }
  }

  lemma MainDefIsNoGuard(line: string)
    requires IsMainDef(line)
    ensures !IsNameGuard(line)
  {
    assert Strip(line)[0] == "def main()"[0];
  }

  /** A file with a `__name__` guard line gets a block ending in that line and the added call. */
  lemma {:induction false} EntryBlockStopsAtGuard(lines: seq<string>, inMain: bool, g: nat)
    requires g < |lines| && IsNameGuard(lines[g])
    ensures var r := EntryBlock(lines, inMain);
      |r| >= 2 && r[|r| - 1] == MainCall && IsNameGuard(r[|r| - 2])
    decreases g
  {
    if !IsNameGuard(lines[0]) {
      var rest := lines[1..];
      assert rest[g - 1] == lines[g];
      var flag := inMain || IsMainDef(lines[0]);
      EntryBlockStopsAtGuard(rest, flag, g - 1);
      EntryBlockPastLine(lines, inMain);
      if EntryBlock(lines, inMain) != EntryBlock(rest, flag) {
        ConsKeepsEnd(lines[0], EntryBlock(rest, flag));
      }
    } else {
      EntryBlockAtGuard(lines, inMain);
    }
  }

  /** A line that is not a guard is kept or skipped, and the block goes on after it. */
  lemma EntryBlockPastLine(lines: seq<string>, inMain: bool)
    requires lines != [] && !IsNameGuard(lines[0])
    ensures var r := EntryBlock(lines[1..], inMain || IsMainDef(lines[0]));
      EntryBlock(lines, inMain) == r || EntryBlock(lines, inMain) == [lines[0]] + r
  {
  }

  /** The block stops at a guard line, and the call is added after it. */
  lemma EntryBlockAtGuard(lines: seq<string>, inMain: bool)
    requires lines != [] && IsNameGuard(lines[0])
    ensures EntryBlock(lines, inMain) == [lines[0], MainCall]
  {
    if IsMainDef(lines[0]) {
      MainDefIsNoGuard(lines[0]);
      assert false;
    }
  }

  lemma ConsKeepsEnd<T>(x: T, r: seq<T>)
    requires |r| >= 2
    ensures var c := [x] + r; |c| >= 2 && c[|c| - 1] == r[|r| - 1] && c[|c| - 2] == r[|r| - 2]
  {
  }

  /** A file without a guard line gets no added call: every line of its block is its own. */
  lemma {:induction false} EntryBlockWithoutGuard(lines: seq<string>, inMain: bool)
    requires forall i :: 0 <= i < |lines| ==> !IsNameGuard(lines[i])
    ensures forall x :: x in EntryBlock(lines, inMain) ==> x in lines
    decreases |lines|
  {
    if lines != [] {
      assert forall i :: 1 <= i < |lines| ==> lines[i] == lines[1..][i - 1];
      EntryBlockWithoutGuard(lines[1..], true);
      EntryBlockWithoutGuard(lines[1..], inMain);
      assert !IsNameGuard(lines[0]);
      assert forall x :: x in lines[1..] ==> x in lines;
    }
  }

  /** Without a `def main()` line, the block is at most the guard line and the call. */
  lemma {:induction false} EntryBlockNeedsMain(lines: seq<string>)
    requires forall i :: 0 <= i < |lines| ==> !IsMainDef(lines[i])
    ensures var r := EntryBlock(lines, false);
      r == [] || (|r| == 2 && IsNameGuard(r[0]) && r[1] == MainCall)
    decreases |lines|
  {
    if lines != [] {
      EntryBlockNeedsMain(lines[1..]);
    }
  }

  /** The loop that captures the entry file's block and stops after the guard. */
  method CaptureEntryBlock(lines: seq<string>) returns (mainPyContent: seq<string>)
    ensures mainPyContent == EntryBlock(lines, false)
  {
    mainPyContent := [];
    var inMainFunction := false;
    var i := 0;
    while i < |lines|
      invariant 0 <= i <= |lines|
      invariant mainPyContent + EntryBlock(lines[i..], inMainFunction) == EntryBlock(lines, false)
    {
      var line := lines[i];
      DropNext(lines, i);
      if IsMainDef(line) {
        AppendAssoc(mainPyContent, [line], EntryBlock(lines[i + 1..], true));
        inMainFunction := true;
        mainPyContent := mainPyContent + [line];
      } else if inMainFunction && Strip(line) != "" && !IsNameGuard(line) {
        AppendAssoc(mainPyContent, [line], EntryBlock(lines[i + 1..], inMainFunction));
        mainPyContent := mainPyContent + [line];
      } else if IsNameGuard(line) {
        mainPyContent := mainPyContent + [line, MainCall];
        return;
      }
      i := i + 1;
    }
  }
}
