/**
 * `deduplicate_imports`: the collected `(module, name)` pairs become import
 * statements. Whole-module imports and star imports become one statement
 * each; every other name is grouped under its module, and each module gets
 * one `from M import a, b` line. Plain statements come first, sorted, then
 * the grouped lines in module order, with names sorted.
 */
module ImportDedup {
  import opened Wrappers
  import opened Strings

  /** A collected import: the module and the imported name, `None` for `import M`. */
  type ImportPair = (string, Option<string>)

  /** The pair stands for a whole statement rather than one name under its module. */
  predicate IsSimple(p: ImportPair) {
    p.1 == None || p.1 == Some(p.0) || p.1 == Some("*")
  }

  /** The statement of a simple pair: `import M`, or `from M import *`. */
  function SimpleStatement(p: ImportPair): (r: string)
    requires IsSimple(p)
    ensures p.1 == None || p.1 == Some(p.0) ==> r == "import " + p.0
    ensures p.1 == Some("*") && p.0 != "*" ==> r == "from " + p.0 + " import *"
  {
    if p.1 == None || p.1 == Some(p.0) then "import " + p.0 else "from " + p.0 + " import *"
  }

  /** `from M import a, b`. */
  function FromLine(m: string, names: seq<string>): (r: string)
    ensures StartsWith(r, "from " + m + " import ")
  {
    "from " + m + " import " + Join(names, ", ")
  }

  /** The set `simple_imports` once the pairs of `s` went in. */
  ghost function SimpleOf(s: set<ImportPair>): set<string> {
    set p | p in s && IsSimple(p) :: SimpleStatement(p)
  }

  /** The keys of `from_imports` once the pairs of `s` went in. */
  ghost function ModulesOf(s: set<ImportPair>): set<string> {
    set p | p in s && !IsSimple(p) :: p.0
  }

  /** `from_imports[m]` once the pairs of `s` went in. */
  ghost function NamesOf(s: set<ImportPair>, m: string): set<string> {
    set p | p in s && !IsSimple(p) && p.0 == m :: p.1.value
  }

  /** One more pair: a simple one adds its statement, any other one its name under its module. */
  lemma AddPair(s: set<ImportPair>, p: ImportPair)
    ensures SimpleOf(s + {p}) == SimpleOf(s) + (if IsSimple(p) then {SimpleStatement(p)} else {})
    ensures ModulesOf(s + {p}) == ModulesOf(s) + (if IsSimple(p) then {} else {p.0})
    ensures forall m :: NamesOf(s + {p}, m) == NamesOf(s, m) + (if IsSimple(p) || p.0 != m then {} else {p.1.value})
  {
  }

  /** One grouped line per module of `modules`, in that order. */
  ghost function FromLines(s: set<ImportPair>, modules: seq<string>): (r: seq<string>)
    ensures |r| == |modules|
  {
    seq(|modules|, i requires 0 <= i < |modules| => FromLine(modules[i], SortedOf(NamesOf(s, modules[i]))))
  }

  /** The result of `deduplicate_imports(s)`. */
  ghost function Deduplicated(s: set<ImportPair>): seq<string> {
    SortedOf(SimpleOf(s)) + FromLines(s, SortedOf(ModulesOf(s)))
  }

  /**
   * The loop of `deduplicate_imports` that fills `simple_imports` and the
   * `from_imports` dictionary.
   */
  method CollectImports(allImports: seq<ImportPair>) returns (simpleImports: set<string>, fromImports: map<string, set<string>>)
    ensures simpleImports == SimpleOf(Elems(allImports))
    ensures fromImports.Keys == ModulesOf(Elems(allImports))
    ensures forall m :: m in fromImports ==> fromImports[m] == NamesOf(Elems(allImports), m)
  {
    fromImports := map[];
    simpleImports := {};
    var i := 0;
    while i < |allImports|
      invariant 0 <= i <= |allImports|
      invariant Collected(Elems(allImports[..i]), simpleImports, fromImports)
    {
      TakeNext(allImports, i);
      ElemsSnoc(allImports[..i], allImports[i]);
      simpleImports, fromImports := AddImport(Elems(allImports[..i]), allImports[i], simpleImports, fromImports);
      i := i + 1;
    }
    TakeAll(allImports);
  }

  /** What `simple_imports` and `from_imports` hold once the pairs of `pairs` went in. */
  ghost predicate Collected(pairs: set<ImportPair>, simpleImports: set<string>, fromImports: map<string, set<string>>) {
    && simpleImports == SimpleOf(pairs)
    && fromImports.Keys == ModulesOf(pairs)
    && forall m :: m in fromImports ==> fromImports[m] == NamesOf(pairs, m)
  }

  /** One pair of the loop of `deduplicate_imports`. */
  method AddImport(ghost pairs: set<ImportPair>, p: ImportPair, simpleImports: set<string>, fromImports: map<string, set<string>>)
    returns (simple': set<string>, from': map<string, set<string>>)
    requires Collected(pairs, simpleImports, fromImports)
    ensures Collected(pairs + {p}, simple', from')
  {
    AddPair(pairs, p);
    simple', from' := simpleImports, fromImports;
    var (moduleName, importedName) := p;
    if importedName == Some(moduleName) || importedName.None? {
      simple' := simpleImports + {"import " + moduleName};
    } else if importedName == Some("*") {
      simple' := simpleImports + {"from " + moduleName + " import *"};
    } else {
      var names := if moduleName in fromImports then fromImports[moduleName] else {};
      from' := fromImports[moduleName := names + {importedName.value}];
    }
  }

  /** `deduplicate_imports`: collect, then sort the statements and the grouped lines. */
  method DeduplicateImports(allImports: seq<ImportPair>) returns (formatted: seq<string>)
    ensures formatted == Deduplicated(Elems(allImports))
  {
    var simpleImports, fromImports := CollectImports(allImports);
    ghost var pairs := Elems(allImports);
    formatted := SortSet(simpleImports);
    var modules := SortSet(fromImports.Keys);
    ghost var simple := formatted;
    assert simple == SortedOf(SimpleOf(pairs));
    assert modules == SortedOf(ModulesOf(pairs));
    var k := 0;
    while k < |modules|
      invariant 0 <= k <= |modules|
      invariant formatted == simple + FromLines(pairs, modules[..k])
    {
      var m := modules[k];
      assert m in fromImports && fromImports[m] == NamesOf(pairs, m) by {
        assert m in Elems(modules);
      }
      var names := SortSet(fromImports[m]);
      NamesNonEmpty(pairs, m);
      if names != [] {
        formatted := formatted + [FromLine(m, names)];
      }
      FromLinesSnoc(pairs, modules, k);
      AppendAssoc(simple, FromLines(pairs, modules[..k]), [FromLine(m, names)]);
      k := k + 1;
    }
    TakeAll(modules);
  }

  lemma FromLinesSnoc(s: set<ImportPair>, modules: seq<string>, k: nat)
    requires k < |modules|
    ensures FromLines(s, modules[..k + 1]) == FromLines(s, modules[..k]) + [FromLine(modules[k], SortedOf(NamesOf(s, modules[k])))]
  {
  }

  /** Every key of `from_imports` holds at least one name, so `if names:` always holds. */
  lemma NamesNonEmpty(s: set<ImportPair>, m: string)
    requires m in ModulesOf(s)
    ensures NamesOf(s, m) != {}
  {
    var p :| p in s && !IsSimple(p) && p.0 == m;
    assert p.1.value in NamesOf(s, m);
  }

  /** Every pair is represented: by its own statement, or by the line of its module. */
  lemma DeduplicatedCoversEveryPair(s: set<ImportPair>, p: ImportPair)
    requires p in s
    ensures IsSimple(p) ==> SimpleStatement(p) in Deduplicated(s)
    ensures !IsSimple(p) ==>
      p.1.value in SortedOf(NamesOf(s, p.0))
      && FromLine(p.0, SortedOf(NamesOf(s, p.0))) in Deduplicated(s)
  {
    var simple := SortedOf(SimpleOf(s));
    var modules := SortedOf(ModulesOf(s));
    if IsSimple(p) {
      assert SimpleStatement(p) in Elems(simple);
      InEither(simple, FromLines(s, modules), SimpleStatement(p));
    } else {
      assert p.1.value in NamesOf(s, p.0);
      assert p.1.value in Elems(SortedOf(NamesOf(s, p.0)));
      assert p.0 in Elems(modules);
      FromLinesHas(s, modules, p.0);
      InEither(FromLines(s, modules), simple, FromLine(p.0, SortedOf(NamesOf(s, p.0))));
    }
  }

  lemma InEither<T>(a: seq<T>, b: seq<T>, x: T)
    requires x in a
    ensures x in a + b && x in b + a
  {
  }

  /** The grouped line of every listed module is among the grouped lines. */
  lemma FromLinesHas(s: set<ImportPair>, modules: seq<string>, m: string)
    requires m in modules
    ensures FromLine(m, SortedOf(NamesOf(s, m))) in FromLines(s, modules)
  {
    var k :| 0 <= k < |modules| && modules[k] == m;
    assert FromLines(s, modules)[k] == FromLine(m, SortedOf(NamesOf(s, m)));
  }

  /** Where the module name ends in `from M import ...`: the first space after "from ". */
  lemma FromLineShape(m: string, names: seq<string>)
    ensures |FromLine(m, names)| > 5 + |m| && FromLine(m, names)[5 + |m|] == ' '
    ensures forall i :: 0 <= i < |m| ==> FromLine(m, names)[5 + i] == m[i]
  {
  }

  /** Two grouped lines with the same text name the same module, when module names hold no space. */
  lemma FromLineInjective(a: string, na: seq<string>, b: string, nb: seq<string>)
    requires ' ' !in a && ' ' !in b
    requires FromLine(a, na) == FromLine(b, nb)
    ensures a == b && Join(na, ", ") == Join(nb, ", ")
  {
    var l := FromLine(a, na);
    FromLineShape(a, na);
    FromLineShape(b, nb);
    if |a| < |b| {
      assert false;
    } else if |b| < |a| {
      assert false;
    } else {
      assert a == l[5..5 + |a|];
      assert Join(na, ", ") == l[13 + |a|..];
    }
  }

  /** A join of names none of which is "*" is never "*" itself. */
  lemma JoinNotStar(names: seq<string>)
    requires forall i :: 0 <= i < |names| ==> names[i] != "*"
    ensures Join(names, ", ") != "*"
  {
    if |names| >= 2 {
      assert |Join(names, ", ")| >= 2;
    } else if |names| == 1 {
      assert Join(names, ", ") == names[0];
    }
  }

  /** A grouped line never repeats a plain statement. */
  lemma FromLineNotSimple(s: set<ImportPair>, m: string, p: ImportPair)
    requires m in ModulesOf(s) && p in s && IsSimple(p)
    requires forall q :: q in s ==> ' ' !in q.0
    ensures FromLine(m, SortedOf(NamesOf(s, m))) != SimpleStatement(p)
  {
    var names := SortedOf(NamesOf(s, m));
    var line := FromLine(m, names);
    var q :| q in s && !IsSimple(q) && q.0 == m;
    if p.1 == None || p.1 == Some(p.0) {
      assert line[0] == 'f';
      assert SimpleStatement(p)[0] == 'i';
    } else {
      forall i | 0 <= i < |names| ensures names[i] != "*" {
        assert names[i] in Elems(names);
      }
      JoinNotStar(names);
      if line == SimpleStatement(p) {
        FromLineInjective(m, names, p.0, ["*"]);
      }
    }
  }

  /** The grouped lines of distinct space-free modules are distinct. */
  lemma FromLinesDistinct(s: set<ImportPair>, modules: seq<string>)
    requires Distinct(modules) && forall i :: 0 <= i < |modules| ==> ' ' !in modules[i]
    ensures Distinct(FromLines(s, modules))
  {
    var lines := FromLines(s, modules);
    forall i, j | 0 <= i < j < |lines| ensures lines[i] != lines[j] {
      if lines[i] == lines[j] {
        FromLineInjective(modules[i], SortedOf(NamesOf(s, modules[i])), modules[j], SortedOf(NamesOf(s, modules[j])));
      }
    }
  }

  lemma DistinctConcat(a: seq<string>, b: seq<string>)
    requires Distinct(a) && Distinct(b) && Elems(a) !! Elems(b)
    ensures Distinct(a + b)
  {
    forall i, j | 0 <= i < j < |a + b| ensures (a + b)[i] != (a + b)[j] {
      if i < |a| <= j {
        assert (a + b)[i] in Elems(a) && (a + b)[j] in Elems(b);
      }
    }
  }

  /**
   * With module names free of spaces, as Python module names are, no
   * statement is emitted twice.
   */
  lemma DeduplicatedDistinct(s: set<ImportPair>)
    requires forall p :: p in s ==> ' ' !in p.0
    ensures Distinct(Deduplicated(s))
  {
    var simple := SortedOf(SimpleOf(s));
    var modules := SortedOf(ModulesOf(s));
    var lines := FromLines(s, modules);
    StrictlySortedDistinct(simple);
    StrictlySortedDistinct(modules);
    forall i | 0 <= i < |modules| ensures ' ' !in modules[i] {
      assert modules[i] in Elems(modules);
    }
    FromLinesDistinct(s, modules);
    forall x | x in Elems(simple) ensures x !in Elems(lines) {
      var p :| p in s && IsSimple(p) && SimpleStatement(p) == x;
      forall k | 0 <= k < |lines| ensures lines[k] != x {
        assert modules[k] in Elems(modules);
        FromLineNotSimple(s, modules[k], p);
      }
    }
    DistinctConcat(simple, lines);
  }
}
