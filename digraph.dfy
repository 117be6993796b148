/**
 * Walks, reachability and cycles in a directed graph given by its successor
 * function. Both merge pipelines order files by a depth-first search over
 * such a graph; the lemmas here are what their correctness proofs share.
 */
module Digraph {
  import opened Strings

  /** The dependency graphs of both pipelines are keyed by strings: module names or file paths. */
  type Node = string

  /** A non-empty sequence of nodes, each a successor of the one before. */
  ghost predicate IsWalk<T(!new)>(succ: T -> set<T>, p: seq<T>) {
    |p| >= 1 && forall i :: 0 <= i < |p| - 1 ==> p[i + 1] in succ(p[i])
  }

  ghost predicate Reaches<T(!new)>(succ: T -> set<T>, a: T, b: T) {
    exists p :: IsWalk(succ, p) && p[0] == a && p[|p| - 1] == b
  }

  /** `n` lies on a cycle: a walk of at least one edge leads from `n` back to `n`. */
  ghost predicate OnCycle<T(!new)>(succ: T -> set<T>, n: T) {
    exists p :: IsWalk(succ, p) && |p| >= 2 && p[0] == n && p[|p| - 1] == n
  }

  ghost predicate Acyclic<T(!new)>(succ: T -> set<T>) {
    forall n :: !OnCycle(succ, n)
  }

  lemma ReachesRefl<T(!new)>(succ: T -> set<T>, a: T)
    ensures Reaches(succ, a, a)
  {
    assert IsWalk(succ, [a]);
  }

  /** A walk extended by one edge at its end. */
  lemma ReachesStep<T(!new)>(succ: T -> set<T>, a: T, b: T, c: T)
    requires Reaches(succ, a, b) && c in succ(b)
    ensures Reaches(succ, a, c)
  {
    var p :| IsWalk(succ, p) && p[0] == a && p[|p| - 1] == b;
    var q := p + [c];
    assert forall i :: 0 <= i < |q| - 1 ==> q[i + 1] in succ(q[i]) by {
      forall i | 0 <= i < |q| - 1 ensures q[i + 1] in succ(q[i]) {
        if i < |p| - 1 { assert q[i] == p[i] && q[i + 1] == p[i + 1]; }
      }
    }
    assert IsWalk(succ, q);
  }

  /** A walk extended by one edge at its start. */
  lemma ReachesPrepend<T(!new)>(succ: T -> set<T>, a: T, b: T, c: T)
    requires b in succ(a) && Reaches(succ, b, c)
    ensures Reaches(succ, a, c)
  {
    var p :| IsWalk(succ, p) && p[0] == b && p[|p| - 1] == c;
    var q := [a] + p;
    assert forall i :: 0 <= i < |q| - 1 ==> q[i + 1] in succ(q[i]) by {
      forall i | 0 <= i < |q| - 1 ensures q[i + 1] in succ(q[i]) {
        if i > 0 { assert q[i] == p[i - 1] && q[i + 1] == p[i]; }
      }
    }
    assert IsWalk(succ, q);
  }

  /** A walk from `a` to `b` closed by an edge `b -> a` is a cycle through `a`. */
  lemma CycleOfReach<T(!new)>(succ: T -> set<T>, a: T, b: T)
    requires Reaches(succ, a, b) && a in succ(b)
    ensures OnCycle(succ, a)
  {
    var p :| IsWalk(succ, p) && p[0] == a && p[|p| - 1] == b;
    var q := p + [a];
    assert forall i :: 0 <= i < |q| - 1 ==> q[i + 1] in succ(q[i]) by {
      forall i | 0 <= i < |q| - 1 ensures q[i + 1] in succ(q[i]) {
        if i < |p| - 1 { assert q[i] == p[i] && q[i + 1] == p[i + 1]; }
      }
    }
    assert IsWalk(succ, q);
  }

  /** Every suffix of a walk is a walk, so its first node reaches its last. */
  lemma WalkSuffixReaches<T(!new)>(succ: T -> set<T>, p: seq<T>, i: nat)
    requires IsWalk(succ, p) && i < |p|
    ensures Reaches(succ, p[i], p[|p| - 1])
  {
    var q := p[i..];
    assert forall k :: 0 <= k < |q| - 1 ==> q[k + 1] in succ(q[k]) by {
      forall k | 0 <= k < |q| - 1 ensures q[k + 1] in succ(q[k]) {
        assert q[k] == p[i + k] && q[k + 1] == p[i + k + 1];
      }
    }
    assert IsWalk(succ, q);
  }

  /**
   * Whenever a sequence `order` without repetitions is closed under edges
   * and places the target of every edge strictly after the edge's source,
   * no member lies on a cycle.
   */
  lemma NoCycleThroughRanked<T(!new)>(succ: T -> set<T>, order: seq<T>, n: T)
    requires Distinct(order)
    requires forall i, j :: 0 <= i < |order| && 0 <= j < |order| && order[j] in succ(order[i]) ==> i < j
    requires forall a, b :: a in order && b in succ(a) ==> b in order
    requires n in order
    ensures !OnCycle(succ, n)
  {
    if OnCycle(succ, n) {
      var p :| IsWalk(succ, p) && |p| >= 2 && p[0] == n && p[|p| - 1] == n;
      var i0 :| 0 <= i0 < |order| && order[i0] == n;
      var k := 0;
      var ik := i0;
      while k < |p| - 1
        invariant 0 <= k <= |p| - 1
        invariant 0 <= ik < |order| && order[ik] == p[k]
        invariant k > 0 ==> i0 < ik
      {
        assert p[k + 1] in succ(p[k]);
        assert p[k + 1] in order;
        var inext :| 0 <= inext < |order| && order[inext] == p[k + 1];
        ik, k := inext, k + 1;
      }
      // the walk is back at `n`, at a position strictly after the one it left
    }
  }

  /** The first step of a walk is an edge. */
  lemma WalkFirstEdge<T(!new)>(succ: T -> set<T>, p: seq<T>)
    requires IsWalk(succ, p) && |p| >= 2
    ensures p[1] in succ(p[0])
  {
  }

  /** A node without successors lies on no cycle. */
  lemma NoCycleWithoutSuccessors<T(!new)>(succ: T -> set<T>, n: T)
    requires succ(n) == {}
    ensures !OnCycle(succ, n)
  {
    if OnCycle(succ, n) {
      var p :| IsWalk(succ, p) && |p| >= 2 && p[0] == n && p[|p| - 1] == n;
      WalkFirstEdge(succ, p);
    }
  }

  /** A set that holds `a` and is closed under `succ` holds everything `a` reaches. */
  lemma ClosedContainsReachable<T(!new)>(succ: T -> set<T>, s: set<T>, a: T, b: T)
    requires a in s && forall x :: x in s ==> succ(x) <= s
    requires Reaches(succ, a, b)
    ensures b in s
  {
    var p :| IsWalk(succ, p) && p[0] == a && p[|p| - 1] == b;
    var k := 0;
    while k < |p| - 1
      invariant 0 <= k <= |p| - 1 && p[k] in s
    {
      assert p[k + 1] in succ(p[k]);
      k := k + 1;
    }
  }

  /**
   * The invariant of a worklist search from `a`: the nodes done and the
   * nodes pending stay inside `universe` and hold `a`, every successor of a
   * done node is done or pending, and `a` reaches all of them.
   */
  ghost predicate Frontier<T(!new)>(succ: T -> set<T>, a: T, done: set<T>, pending: set<T>, universe: set<T>) {
    && done + pending <= universe
    && a in done + pending
    && (forall x :: x in done ==> succ(x) <= done + pending)
    && (forall x :: x in done + pending ==> Reaches(succ, a, x))
  }

  /** Finishing a pending node and queueing its successors keeps the invariant. */
  lemma FrontierStep<T(!new)>(succ: T -> set<T>, a: T, done: set<T>, pending: set<T>, universe: set<T>, f: T)
    requires Frontier(succ, a, done, pending, universe)
    requires f in pending && f !in done && succ(f) <= universe
    ensures Frontier(succ, a, done + {f}, pending - {f} + succ(f), universe)
  {
    forall c | c in succ(f) ensures Reaches(succ, a, c) {
      ReachesStep(succ, a, f, c);
    }
    assert done + {f} + (pending - {f} + succ(f)) == done + pending + succ(f);
  }

  /** Dropping a pending node that is done already keeps the invariant. */
  lemma FrontierSkip<T(!new)>(succ: T -> set<T>, a: T, done: set<T>, pending: set<T>, universe: set<T>, f: T)
    requires Frontier(succ, a, done, pending, universe) && f in done
    ensures Frontier(succ, a, done, pending - {f}, universe)
  {
    assert done + (pending - {f}) == done + pending;
  }
}
