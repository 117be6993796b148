/**
 * Python string operations the merger relies on: `str.split` with a
 * one-character separator, `str.join`, `str.replace` of one character,
 * `str.strip`, `startswith`/`endswith`, and the code-point order that
 * `sorted` uses on strings.
 */
module Strings {

  predicate StartsWith(s: string, prefix: string) {
    |prefix| <= |s| && s[..|prefix|] == prefix
  }

  predicate EndsWith(s: string, suffix: string) {
    |suffix| <= |s| && s[|s| - |suffix|..] == suffix
  }

  lemma EndsWithAppended(s: string, suffix: string)
    ensures EndsWith(s + suffix, suffix)
  {
    assert (s + suffix)[|s|..] == suffix;
  }

  lemma DropNext<T>(s: seq<T>, i: nat)
    requires i < |s|
    ensures s[i..] != [] && s[i..][0] == s[i] && s[i..][1..] == s[i + 1..]
  {
  }

  /** A list that maps another element by element still does after one more element each. */
  lemma SnocPointwise<A, B>(a: seq<A>, b: seq<B>, x: A, y: B, f: A -> B)
    requires |a| == |b| && forall i :: 0 <= i < |a| ==> b[i] == f(a[i])
    requires y == f(x)
    ensures forall i :: 0 <= i < |a| + 1 ==> (b + [y])[i] == f((a + [x])[i])
  {
  }

  /** Replacing the last element, seen from the second element on. */
  lemma ReplaceLastTail<T>(s: seq<T>, x: T)
    requires |s| >= 2
    ensures (s[..|s| - 1] + [x])[0] == s[0]
    ensures (s[..|s| - 1] + [x])[1..] == s[1..][..|s| - 2] + [x]
  {
  }

  /** A suffix of a sequence's tail is a suffix of the sequence. */
  lemma SuffixOfTail<T>(s: seq<T>, r: seq<T>)
    requires |s| >= 1 && |r| <= |s| - 1 && s[1..][|s| - 1 - |r|..] == r
    ensures |r| <= |s| && s[|s| - |r|..] == r
  {
  }

  /** The set of elements of a sequence. */
  function Elems<T>(s: seq<T>): set<T> {
    set x | x in s
  }

  /** Concatenation regroups; stated for any element type, so no elements are compared. */
  lemma AppendAssoc<T>(a: seq<T>, b: seq<T>, c: seq<T>)
    ensures a + (b + c) == a + b + c
  {
  }

  /** Taking every element, or a prefix of a prefix; stated for any element type. */
  lemma ConsTail<T>(x: T, s: seq<T>)
    ensures ([x] + s)[0] == x && ([x] + s)[1..] == s
  {
  }

  lemma AppendEmpty<T>(s: seq<T>)
    ensures s + [] == s
  {
  }

  lemma TakeAppended<T>(a: seq<T>, b: seq<T>)
    ensures (a + b)[..|a|] == a
  {
  }

  lemma TakeAll<T>(s: seq<T>)
    ensures s[..|s|] == s
  {
  }

  lemma TakeTake<T>(s: seq<T>, m: nat, n: nat)
    requires m <= n <= |s|
    ensures s[..n][..m] == s[..m]
  {
  }

  lemma TakeSnoc<T>(s: seq<T>)
    requires |s| > 0
    ensures s[..|s| - 1] + [s[|s| - 1]] == s
  {
  }

  lemma TakeNext<T>(s: seq<T>, i: nat)
    requires i < |s|
    ensures s[..i + 1] == s[..i] + [s[i]]
  {
  }

  /** Setting a key twice is setting it to the second value. */
  lemma UpdateTwice<K, V>(m: map<K, V>, k: K, v: V, w: V)
    ensures m[k := v][k := w] == m[k := w]
  {
  }

  /** A prefix of a prefix is a prefix, also after one more element. */
  lemma PrefixTrans<T>(a: seq<T>, b: seq<T>, c: seq<T>)
    requires |a| <= |b| <= |c| && b[..|a|] == a && c[..|b|] == b
    ensures c[..|a|] == a
  {
    assert c[..|a|] == c[..|b|][..|a|];
  }

  lemma PrefixKeep<T>(a: seq<T>, b: seq<T>, n: nat)
    requires n <= |a| <= |b| && b[..|a|] == a
    ensures b[..n] == a[..n]
  {
    assert b[..n] == b[..|a|][..n];
  }

  lemma PrefixSnoc<T>(a: seq<T>, b: seq<T>, x: T)
    requires |a| <= |b| && b[..|a|] == a
    ensures (b + [x])[..|a|] == a
  {
    assert (b + [x])[..|a|] == b[..|a|];
  }

  /** Taking an element out of a set makes it smaller. */
  lemma RemoveShrinks<T>(s: set<T>, x: T)
    requires x in s
    ensures |s - {x}| < |s|
  {
  }

  /** Marking one more element of `universe` done leaves fewer to do. */
  lemma MarkShrinks<T>(universe: set<T>, done: set<T>, x: T)
    requires x in universe && x !in done
    ensures universe - (done + {x}) < universe - done
  {
    assert x in universe - done;
  }

  lemma ElemsSnoc<T>(s: seq<T>, x: T)
    ensures Elems(s + [x]) == Elems(s) + {x}
  {
  }

  predicate Distinct<T(==)>(s: seq<T>) {
    forall i, j :: 0 <= i < j < |s| ==> s[i] != s[j]
  }

  // ---------------------------------------------------------------------
  // split / join / replace
  // ---------------------------------------------------------------------

  /** `s.split(sep)`: never empty, and no part holds the separator. */
  function Split(s: string, sep: char): (parts: seq<string>)
    ensures |parts| >= 1
    ensures forall i :: 0 <= i < |parts| ==> sep !in parts[i]
    ensures |parts| == 1 <==> sep !in s
    decreases |s|
  {
    if |s| == 0 then [""]
    else
      var rest := Split(s[1..], sep);
      if s[0] == sep then [""] + rest
      else [[s[0]] + rest[0]] + rest[1..]
  }

  /** `sep.join(parts)`. */
  function Join(parts: seq<string>, sep: string): string
  {
    if |parts| == 0 then ""
    else if |parts| == 1 then parts[0]
    else parts[0] + sep + Join(parts[1..], sep)
  }

  /** Joining the parts of a split with the same separator gives back the string. */
  lemma {:induction false} JoinSplit(s: string, sep: char)
    ensures Join(Split(s, sep), [sep]) == s
    decreases |s|
  {
    if |s| > 0 {
      var rest := Split(s[1..], sep);
      JoinSplit(s[1..], sep);
      assert Join(rest, [sep]) == s[1..];
      if s[0] == sep {
        assert Split(s, sep) == [""] + rest;
        assert ([""] + rest)[1..] == rest;
      } else {
        var parts := [[s[0]] + rest[0]] + rest[1..];
        assert Split(s, sep) == parts;
        if |rest| > 1 {
          assert parts[1..] == rest[1..];
          assert Join(rest, [sep]) == rest[0] + [sep] + Join(rest[1..], [sep]);
        }
      }
    }
  }

  /** Splitting a separator-free piece followed by the separator. */
  lemma {:induction false} SplitCons(a: string, sep: char, t: string)
    requires sep !in a
    ensures Split(a + [sep] + t, sep) == [a] + Split(t, sep)
    decreases |a|
  {
    if |a| == 0 {
      assert a + [sep] + t == [sep] + t;
      assert ([sep] + t)[1..] == t;
    } else {
      var s := a + [sep] + t;
      SplitCons(a[1..], sep, t);
      assert s[1..] == a[1..] + [sep] + t;
      assert s[0] == a[0] && s[0] != sep;
      var rest := Split(s[1..], sep);
      assert rest == [a[1..]] + Split(t, sep);
      ConsTail(a[1..], Split(t, sep));
      assert [a[0]] + a[1..] == a;
      assert Split(s, sep) == [[s[0]] + rest[0]] + rest[1..];
    }
  }

  lemma {:induction false} SplitNoSep(a: string, sep: char)
    requires sep !in a
    ensures Split(a, sep) == [a]
    decreases |a|
  {
    if |a| > 0 {
      SplitNoSep(a[1..], sep);
      assert [a[0]] + a[1..] == a;
    }
  }

  /** Splitting a join of separator-free parts gives back the parts. */
  lemma {:induction false} SplitJoin(parts: seq<string>, sep: char)
    requires |parts| >= 1
    requires forall i :: 0 <= i < |parts| ==> sep !in parts[i]
    ensures Split(Join(parts, [sep]), sep) == parts
    decreases |parts|
  {
    if |parts| == 1 {
      SplitNoSep(parts[0], sep);
    } else {
      SplitJoin(parts[1..], sep);
      SplitCons(parts[0], sep, Join(parts[1..], [sep]));
      assert [parts[0]] + parts[1..] == parts;
    }
  }

  /** `s.replace(a, b)` for single characters. */
  function Replace(s: string, a: char, b: char): string
    decreases |s|
  {
    if |s| == 0 then ""
    else [if s[0] == a then b else s[0]] + Replace(s[1..], a, b)
  }

  lemma {:induction false} ReplaceAt(s: string, a: char, b: char, i: nat)
    requires i < |s|
    ensures |Replace(s, a, b)| == |s|
    ensures Replace(s, a, b)[i] == if s[i] == a then b else s[i]
    decreases |s|
  {
    if i > 0 {
      ReplaceAt(s[1..], a, b, i - 1);
    } else if |s| > 1 {
      ReplaceAt(s[1..], a, b, 0);
    }
  }

  lemma ReplaceLength(s: string, a: char, b: char)
    ensures |Replace(s, a, b)| == |s|
  {
    if |s| > 0 {
      ReplaceAt(s, a, b, 0);
    }
  }

  /** Replacing a character is splitting on it and joining with the replacement. */
  lemma {:induction false} ReplaceIsSplitJoin(s: string, a: char, b: char)
    ensures Replace(s, a, b) == Join(Split(s, a), [b])
    decreases |s|
  {
    if |s| > 0 {
      ReplaceIsSplitJoin(s[1..], a, b);
      var rest := Split(s[1..], a);
      var tail := Join(rest, [b]);
      assert Replace(s, a, b) == [if s[0] == a then b else s[0]] + tail;
      if s[0] == a {
        var p := [""] + rest;
        assert Split(s, a) == p;
        ConsTail("", rest);
        assert Join(p, [b]) == "" + [b] + tail;
      } else if |rest| == 1 {
        assert Split(s, a) == [[s[0]] + rest[0]];
      } else {
        var p := [[s[0]] + rest[0]] + rest[1..];
        assert Split(s, a) == p;
        ConsTail([s[0]] + rest[0], rest[1..]);
        assert Join(p, [b]) == [s[0]] + rest[0] + [b] + Join(rest[1..], [b]);
        assert tail == rest[0] + [b] + Join(rest[1..], [b]);
      }
    }
  }

  /** After replacing `a` by a different character no `a` is left. */
  lemma {:induction false} ReplaceRemoves(s: string, a: char, b: char)
    requires a != b
    ensures a !in Replace(s, a, b)
    decreases |s|
  {
    if |s| > 0 {
      ReplaceRemoves(s[1..], a, b);
    }
  }

  /** Replacing a character that does not occur changes nothing. */
  lemma {:induction false} ReplaceAbsent(s: string, a: char, b: char)
    requires a !in s
    ensures Replace(s, a, b) == s
    decreases |s|
  {
    if |s| > 0 {
      ReplaceAbsent(s[1..], a, b);
      assert [s[0]] + s[1..] == s;
    }
  }

  /** A character in neither the parts nor the separator is not in their join. */
  lemma {:induction false} JoinAvoids(parts: seq<string>, sep: string, c: char)
    requires c !in sep
    requires forall i :: 0 <= i < |parts| ==> c !in parts[i]
    ensures c !in Join(parts, sep)
    decreases |parts|
  {
    if |parts| > 1 {
      JoinAvoids(parts[1..], sep, c);
    }
  }

  /** `s.count(c)`. */
  function Count(s: string, c: char): nat
    decreases |s|
  {
    if |s| == 0 then 0 else (if s[0] == c then 1 else 0) + Count(s[1..], c)
  }

  /** A split has one part more than there are separators. */
  lemma {:induction false} SplitCount(s: string, c: char)
    ensures |Split(s, c)| == Count(s, c) + 1
    decreases |s|
  {
    if |s| > 0 {
      SplitCount(s[1..], c);
    }
  }

  /** `c * n`. */
  function Repeat(c: char, n: nat): (r: string)
    ensures |r| == n && forall i :: 0 <= i < n ==> r[i] == c
  {
    if n == 0 then "" else [c] + Repeat(c, n - 1)
  }

  /** Index of the last occurrence of `c` (`str.rfind`), -1 when absent. */
  function RFind(s: string, c: char): (i: int)
    ensures -1 <= i < |s|
    ensures i >= 0 ==> s[i] == c && forall j :: i < j < |s| ==> s[j] != c
    ensures i == -1 ==> c !in s
    decreases |s|
  {
    if |s| == 0 then -1
    else if s[|s| - 1] == c then |s| - 1
    else RFind(s[..|s| - 1], c)
  }

  /** `str(n)` for a natural number. */
  function NatToString(n: nat): (r: string)
    ensures |r| >= 1
    ensures forall i :: 0 <= i < |r| ==> '0' <= r[i] <= '9'
  {
    if n < 10 then [Digit(n)] else NatToString(n / 10) + [Digit(n % 10)]
  }

  function Digit(d: nat): (c: char)
    requires d < 10
    ensures '0' <= c <= '9'
  {
    ['0', '1', '2', '3', '4', '5', '6', '7', '8', '9'][d]
  }

  // ---------------------------------------------------------------------
  // strip
  // ---------------------------------------------------------------------

  /** The characters for which Python's `str.isspace` holds. */
  predicate IsSpace(c: char) {
    ('\t' <= c <= '\r') || ('\U{1c}' <= c <= '\U{1f}') || c == ' ' || c == '\U{85}' || c == '\U{a0}'
    || c == '\U{1680}' || ('\U{2000}' <= c <= '\U{200a}') || c == '\U{2028}' || c == '\U{2029}'
    || c == '\U{202f}' || c == '\U{205f}' || c == '\U{3000}'
  }

  function LStrip(s: string): string
    decreases |s|
  {
    if |s| > 0 && IsSpace(s[0]) then LStrip(s[1..]) else s
  }

  function RStrip(s: string): string
    decreases |s|
  {
    if |s| > 0 && IsSpace(s[|s| - 1]) then RStrip(s[..|s| - 1]) else s
  }

  /** `s.strip()`: the result starts and ends with a non-space character. */
  function Strip(s: string): (r: string)
  {
    RStrip(LStrip(s))
  }

  /** How many white-space characters `s` starts with. */
  function LeadingSpaces(s: string): (n: nat)
    ensures n <= |s|
    decreases |s|
  {
    if |s| > 0 && IsSpace(s[0]) then 1 + LeadingSpaces(s[1..]) else 0
  }

  /** How many white-space characters `s` ends with. */
  function TrailingSpaces(s: string): (n: nat)
    ensures n <= |s|
    decreases |s|
  {
    if |s| > 0 && IsSpace(s[|s| - 1]) then 1 + TrailingSpaces(s[..|s| - 1]) else 0
  }

  lemma {:induction false} LStripShape(s: string)
    ensures LStrip(s) == s[LeadingSpaces(s)..]
    ensures forall i :: 0 <= i < LeadingSpaces(s) ==> IsSpace(s[i])
    ensures LStrip(s) == "" || !IsSpace(LStrip(s)[0])
    decreases |s|
  {
    if |s| > 0 && IsSpace(s[0]) {
      var t := s[1..];
      LStripShape(t);
      assert t[LeadingSpaces(t)..] == s[LeadingSpaces(s)..];
      forall i | 0 <= i < LeadingSpaces(s) ensures IsSpace(s[i]) {
        if i > 0 { assert s[i] == t[i - 1]; }
      }
    }
  }

  lemma {:induction false} RStripShape(s: string)
    ensures RStrip(s) == s[..|s| - TrailingSpaces(s)]
    ensures forall i :: |s| - TrailingSpaces(s) <= i < |s| ==> IsSpace(s[i])
    ensures RStrip(s) == "" || !IsSpace(RStrip(s)[|RStrip(s)| - 1])
    decreases |s|
  {
    if |s| > 0 && IsSpace(s[|s| - 1]) {
      var t := s[..|s| - 1];
      RStripShape(t);
      assert t[..|t| - TrailingSpaces(t)] == s[..|s| - TrailingSpaces(s)];
      forall i | |s| - TrailingSpaces(s) <= i < |s| ensures IsSpace(s[i]) {
        if i < |s| - 1 { assert s[i] == t[i]; }
      }
    }
  }

  /** `strip` removes exactly the leading and trailing white space. */
  lemma StripShape(s: string)
    ensures exists a, b ::
      (0 <= a <= b <= |s| && Strip(s) == s[a..b]
       && (forall i :: 0 <= i < a ==> IsSpace(s[i]))
       && (forall i :: b <= i < |s| ==> IsSpace(s[i])))
    ensures Strip(s) == "" || (!IsSpace(Strip(s)[0]) && !IsSpace(Strip(s)[|Strip(s)| - 1]))
  {
    LStripShape(s);
    var a := LeadingSpaces(s);
    var t := s[a..];
    RStripShape(t);
    var b := a + (|t| - TrailingSpaces(t));
    assert Strip(s) == s[a..b] by {
      assert Strip(s) == RStrip(t);
      assert t[..|t| - TrailingSpaces(t)] == s[a..b];
    }
    assert forall i :: b <= i < |s| ==> IsSpace(s[i]) by {
      forall i | b <= i < |s| ensures IsSpace(s[i]) { assert s[i] == t[i - a]; }
    }
    assert 0 <= a <= b <= |s|;
    if Strip(s) != "" {
      assert !IsSpace(RStrip(t)[|RStrip(t)| - 1]);
      assert !IsSpace(Strip(s)[0]) by {
        assert Strip(s)[0] == t[0] == LStrip(s)[0];
      }
    }
  }

  // ---------------------------------------------------------------------
  // Python's order on strings: lexicographic by code point
  // ---------------------------------------------------------------------

  predicate Less(a: string, b: string)
    decreases |a|
  {
    if |a| == 0 then |b| > 0
    else if |b| == 0 then false
    else if a[0] != b[0] then a[0] < b[0]
    else Less(a[1..], b[1..])
  }

  lemma {:induction false} LessIrreflexive(a: string)
    ensures !Less(a, a)
    decreases |a|
  {
    if |a| > 0 { LessIrreflexive(a[1..]); }
  }

  lemma {:induction false} LessTransitive(a: string, b: string, c: string)
    requires Less(a, b) && Less(b, c)
    ensures Less(a, c)
    decreases |a|
  {
    if |a| > 0 && |b| > 0 && |c| > 0 && a[0] == b[0] && b[0] == c[0] {
      LessTransitive(a[1..], b[1..], c[1..]);
    }
  }

  lemma {:induction false} LessTotal(a: string, b: string)
    requires a != b
    ensures Less(a, b) || Less(b, a)
    decreases |a|
  {
    if |a| > 0 && |b| > 0 && a[0] == b[0] {
      assert a == [a[0]] + a[1..] && b == [b[0]] + b[1..];
      LessTotal(a[1..], b[1..]);
    }
  }

  lemma {:induction false} LessAsymmetric(a: string, b: string)
    requires Less(a, b)
    ensures !Less(b, a)
  {
    if Less(b, a) {
      LessTransitive(a, b, a);
      LessIrreflexive(a);
    }
  }

  // ---------------------------------------------------------------------
  // sorted(list(some_set))
  // ---------------------------------------------------------------------

  predicate StrictlySorted(s: seq<string>) {
    forall i, j :: 0 <= i < j < |s| ==> Less(s[i], s[j])
  }

  predicate IsMinimum(m: string, s: set<string>) {
    m in s && forall x :: x in s && x != m ==> Less(m, x)
  }

  lemma {:induction false} MinimumExists(s: set<string>)
    requires s != {}
    ensures exists m :: IsMinimum(m, s)
    decreases |s|
  {
    var x :| x in s;
    if s != {x} {
      var rest := s - {x};
      MinimumExists(rest);
      var m :| IsMinimum(m, rest);
      if Less(m, x) {
        forall y | y in s && y != m ensures Less(m, y) {
          if y == x {} else { assert y in rest; }
        }
        assert IsMinimum(m, s);
      } else {
        LessTotal(m, x);
        forall y | y in s && y != x ensures Less(x, y) {
          if y != m { LessTransitive(x, m, y); }
        }
        assert IsMinimum(x, s);
      }
    } else {
      assert IsMinimum(x, s);
    }
  }

  lemma PrependMinimum(m: string, s: set<string>, rest: seq<string>)
    requires IsMinimum(m, s)
    requires StrictlySorted(rest) && Elems(rest) == s - {m}
    ensures StrictlySorted([m] + rest) && Elems([m] + rest) == s
  {
    forall j | 0 <= j < |rest| ensures Less(m, rest[j]) {
      assert rest[j] in Elems(rest);
    }
    assert Elems([m] + rest) == {m} + Elems(rest);
  }

  /** `sorted(list(s))`: the elements of `s` in increasing order, each once. */
  ghost function SortedOf(s: set<string>): (r: seq<string>)
    ensures StrictlySorted(r) && Elems(r) == s && |r| == |s|
    decreases |s|
  {
    if s == {} then []
    else
      MinimumExists(s);
      var m :| IsMinimum(m, s);
      var rest := SortedOf(s - {m});
      PrependMinimum(m, s, rest);
      [m] + rest
  }

  lemma {:induction false} StrictlySortedDistinct(s: seq<string>)
    requires StrictlySorted(s)
    ensures Distinct(s)
  {
    forall i, j | 0 <= i < j < |s| ensures s[i] != s[j] {
      if s[i] == s[j] { LessIrreflexive(s[i]); }
    }
  }

  /** A strictly sorted sequence is determined by its elements. */
  lemma {:induction false} SortedUnique(a: seq<string>, b: seq<string>)
    requires StrictlySorted(a) && StrictlySorted(b) && Elems(a) == Elems(b)
    ensures a == b
    decreases |a|
  {
    assert |a| > 0 ==> a[0] in Elems(b);
    assert |b| > 0 ==> b[0] in Elems(a);
    if |a| > 0 && |b| > 0 {
      if a[0] != b[0] {
        assert b[0] in Elems(a);
        var i :| 0 <= i < |a| && a[i] == b[0];
        assert a[0] in Elems(b);
        var j :| 0 <= j < |b| && b[j] == a[0];
        LessAsymmetric(a[0], a[i]);
        assert false;
      }
      forall x | x in Elems(a[1..]) ensures x in Elems(b[1..]) {
        var i :| 1 <= i < |a| && a[i] == x;
        assert x in Elems(b);
        if x == b[0] { LessIrreflexive(a[0]); }
      }
      forall x | x in Elems(b[1..]) ensures x in Elems(a[1..]) {
        var i :| 1 <= i < |b| && b[i] == x;
        assert x in Elems(a);
        if x == a[0] { LessIrreflexive(b[0]); }
      }
      SortedUnique(a[1..], b[1..]);
      assert a == [a[0]] + a[1..] && b == [b[0]] + b[1..];
    }
  }

  /** `sorted(list(s))`, computed by repeatedly taking the minimum. */
  method SortSet(s: set<string>) returns (r: seq<string>)
    ensures StrictlySorted(r) && Elems(r) == s
    ensures r == SortedOf(s)
  {
    r := [];
    var rest := s;
    while rest != {}
      invariant StrictlySorted(r)
      invariant Elems(r) + rest == s && Elems(r) !! rest
      invariant forall i, y :: 0 <= i < |r| && y in rest ==> Less(r[i], y)
      decreases |rest|
    {
      MinimumExists(rest);
      var m :| IsMinimum(m, rest);
      AppendMinimum(r, rest, s, m);
      r := r + [m];
      rest := rest - {m};
    }
    SortedUnique(r, SortedOf(s));
  }

  /** Appending the minimum of what is left keeps the loop invariant of `SortSet`. */
  lemma AppendMinimum(r: seq<string>, rest: set<string>, s: set<string>, m: string)
    requires StrictlySorted(r) && Elems(r) + rest == s && Elems(r) !! rest
    requires forall i, y :: 0 <= i < |r| && y in rest ==> Less(r[i], y)
    requires IsMinimum(m, rest)
    ensures StrictlySorted(r + [m]) && Elems(r + [m]) + (rest - {m}) == s && Elems(r + [m]) !! (rest - {m})
    ensures forall i, y :: 0 <= i < |r + [m]| && y in rest - {m} ==> Less((r + [m])[i], y)
  {
    ElemsSnoc(r, m);
    var r' := r + [m];
    assert forall i :: 0 <= i < |r| ==> r'[i] == r[i];
  }
}
