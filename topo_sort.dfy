/**
 * `topological_sort_files`: a depth-first search with a set of finished
 * nodes (`visited`) and a set of nodes on the current path (`temp`), which
 * stops at the first node it meets again on its own path, and otherwise
 * returns the reversed post-order.
 *
 * The neighbours of a node form a Python set, whose iteration order is not
 * specified; the model picks them in an arbitrary order and promises nothing
 * that depends on it.
 */
module TopoSort {
  import opened Wrappers
  import opened Strings
  import opened Paths
  import opened Digraph
  import opened AstParser

  /** `dependency_graph.get(node, set())` as a successor function. */
  ghost function Succ(g: Graph): Node -> set<Node> {
    n => if n in g.succ then g.succ[n] else {}
  }

  /** Every node the search can meet: the keys and everything they point to. */
  ghost function Vertices(g: Graph): set<Node> {
    g.succ.Keys + (set n, m | n in g.succ && m in g.succ[n] :: m)
  }

  lemma SuccInVertices(g: Graph, v: Node)
    ensures Succ(g)(v) <= Vertices(g)
  {
  }

  /** The outcome: the files in order, or the node that closed a cycle. */
  datatype SortOutcome = Sorted(paths: seq<Path>) | Circular(node: Node)

  /** The message of the ValueError raised on a cycle. */
  function CycleMessage(node: Node): (m: string)
    ensures StartsWith(m, "Circular dependency detected: ") && EndsWith(m, node)
  {
    "Circular dependency detected: " + node
  }

  /**
   * The state of the search between visits: `order` lists the finished
   * nodes once each, a finished node's successors are all finished, and
   * each successor was finished before the node itself.
   */
  ghost predicate Finished(g: Graph, visited: set<Node>, order: seq<Node>) {
    Distinct(order) && Elems(order) == visited && visited <= Vertices(g)
    && (forall v :: v in visited ==> Succ(g)(v) <= visited)
    && (forall i, j :: 0 <= i < |order| && 0 <= j < |order| && order[j] in Succ(g)(order[i]) ==> j < i)
  }

  /**
   * `visit(node)`. `stack` is the current path of the search, whose nodes
   * are `temp`; `node` is a successor of its last node. On a cycle the node
   * met again is returned; otherwise `node` is finished and `temp` is as
   * it was.
   */
  method Visit(g: Graph, node: Node, temp: set<Node>, visited: set<Node>, order: seq<Node>, ghost stack: seq<Node>)
    returns (cycle: Option<Node>, temp': set<Node>, visited': set<Node>, order': seq<Node>)
    requires ValidGraph(g) && node in Vertices(g)
    requires Finished(g, visited, order)
    requires Distinct(stack) && Elems(stack) == temp && temp <= Vertices(g) && temp !! visited
    requires stack != [] ==> IsWalk(Succ(g), stack) && node in Succ(g)(stack[|stack| - 1])
    decreases Vertices(g) - temp
    ensures cycle.Some? ==> OnCycle(Succ(g), cycle.value)
    ensures cycle.None? ==>
      node in visited' && temp' == temp && visited <= visited' && visited' !! temp
      && Finished(g, visited', order') && |order| <= |order'| && order'[..|order|] == order
  {
    if node in temp {
      ghost var k :| 0 <= k < |stack| && stack[k] == node;
      WalkSuffixReaches(Succ(g), stack, k);
      CycleOfReach(Succ(g), node, stack[|stack| - 1]);
      return Some(node), temp, visited, order;
    }
    if node in visited {
      return None, temp, visited, order;
    }
    temp', visited', order' := temp + {node}, visited, order;
    var neighbours := if node in g.succ then g.succ[node] else {};
    SuccInVertices(g, node);
    ghost var path := stack + [node];
    ExtendPath(g, stack, node, temp);
    while neighbours != {}
      invariant neighbours <= Succ(g)(node)
      invariant temp' == temp + {node} && visited' !! temp'
      invariant Finished(g, visited', order')
      invariant visited <= visited' && |order| <= |order'| && order'[..|order|] == order
      invariant forall w :: w in Succ(g)(node) && w !in neighbours ==> w in visited'
      decreases neighbours
    {
      var neighbour :| neighbour in neighbours;
      neighbours := neighbours - {neighbour};
      ghost var prefix := order';
      cycle, temp', visited', order' := Visit(g, neighbour, temp', visited', order', path);
      if cycle.Some? {
        return;
      }
      assert order'[..|order|] == prefix[..|order|];
    }
    FinishNode(g, visited', order', node);
    ghost var before := order';
    temp' := temp' - {node};
    visited' := visited' + {node};
    order' := order' + [node];
    assert order'[..|order|] == before[..|order|];
    return None, temp', visited', order';
  }

  /** The search path extended by `node`, a successor of its last node, is again a path. */
  lemma ExtendPath(g: Graph, stack: seq<Node>, node: Node, temp: set<Node>)
    requires Distinct(stack) && Elems(stack) == temp && node !in temp
    requires stack != [] ==> IsWalk(Succ(g), stack) && node in Succ(g)(stack[|stack| - 1])
    ensures IsWalk(Succ(g), stack + [node])
    ensures Distinct(stack + [node]) && Elems(stack + [node]) == temp + {node}
  {
    var path := stack + [node];
    forall i | 0 <= i < |path| - 1 ensures path[i + 1] in Succ(g)(path[i]) {
      if i < |stack| - 1 { assert path[i] == stack[i] && path[i + 1] == stack[i + 1]; }
    }
    assert Elems(path) == temp + {node};
  }

  /** Appending a node whose successors are all finished keeps the search state. */
  lemma FinishNode(g: Graph, visited: set<Node>, order: seq<Node>, node: Node)
    requires Finished(g, visited, order)
    requires node !in visited && node in Vertices(g) && Succ(g)(node) <= visited
    ensures Finished(g, visited + {node}, order + [node])
  {
    var order' := order + [node];
    assert Elems(order') == visited + {node};
    forall i | 0 <= i < |order| ensures order[i] != node {
      assert order[i] in Elems(order);
    }
    forall i | 0 <= i < |order| ensures node !in Succ(g)(order[i]) {
      assert order[i] in Elems(order);
    }
    forall i, j | 0 <= i < |order'| && 0 <= j < |order'| && order'[j] in Succ(g)(order'[i])
      ensures j < i
    {
      if i < |order| {
        assert order'[i] == order[i];
        assert j < |order|;
        assert order'[j] == order[j];
      } else {
        assert order'[j] in visited;
        assert j < |order|;
      }
    }
  }

  /** `order[::-1]` */
  function Reverse(s: seq<Node>): (r: seq<Node>)
    ensures |r| == |s| && forall i :: 0 <= i < |s| ==> r[i] == s[|s| - 1 - i]
  {
    if s == [] then [] else Reverse(s[1..]) + [s[0]]
  }

  /** Once every key is visited, so is every node of the graph. */
  lemma AllKeysVisited(g: Graph, visited: set<Node>, order: seq<Node>)
    requires ValidGraph(g) && Finished(g, visited, order)
    requires forall k :: 0 <= k < |g.keys| ==> g.keys[k] in visited
    ensures visited == Vertices(g)
  {
    forall v | v in Vertices(g) ensures v in visited {
      if v !in g.succ {
        var n :| n in g.succ && v in g.succ[n];
        assert n in Elems(g.keys);
        assert v in Succ(g)(n);
      } else {
        assert v in Elems(g.keys);
      }
    }
  }

  /** Reversing the finishing order puts every file before the files it depends on. */
  lemma ReverseSorts(g: Graph, order: seq<Node>)
    requires Finished(g, Elems(order), order)
    ensures var nodes := Reverse(order);
      Distinct(nodes) && Elems(nodes) == Elems(order)
      && (forall i, j :: 0 <= i < |nodes| && 0 <= j < |nodes| && nodes[j] in Succ(g)(nodes[i]) ==> i < j)
  {
    var nodes := Reverse(order);
    forall v | v in Elems(order) ensures v in Elems(nodes) {
      var k :| 0 <= k < |order| && order[k] == v;
      assert nodes[|order| - 1 - k] == v;
    }
  }

  /**
   * `topological_sort_files`: visit every key in the dictionary's order.
   * On success every node of the graph appears exactly once, and every
   * file comes before the files it depends on.
   */
  method TopologicalSortFiles(g: Graph) returns (r: SortOutcome, ghost nodes: seq<Node>)
    requires ValidGraph(g)
    ensures r.Circular? ==> OnCycle(Succ(g), r.node)
    ensures r.Sorted? ==>
      |r.paths| == |nodes| && (forall i :: 0 <= i < |nodes| ==> r.paths[i] == FromString(nodes[i]))
      && Distinct(nodes) && Elems(nodes) == Vertices(g)
      && (forall i, j :: 0 <= i < |nodes| && 0 <= j < |nodes| && nodes[j] in Succ(g)(nodes[i]) ==> i < j)
  {
    var temp: set<Node> := {};
    var visited: set<Node> := {};
    var order: seq<Node> := [];
    var i := 0;
    while i < |g.keys|
      invariant 0 <= i <= |g.keys|
      invariant temp == {}
      invariant Finished(g, visited, order)
      invariant forall k :: 0 <= k < i ==> g.keys[k] in visited
    {
      var node := g.keys[i];
      assert node in Elems(g.keys);
      if node !in visited {
        var cycle;
        cycle, temp, visited, order := Visit(g, node, temp, visited, order, []);
        if cycle.Some? {
          return Circular(cycle.value), [];
        }
      }
      i := i + 1;
    }
    AllKeysVisited(g, visited, order);
    var reversed := Reverse(order);
    nodes := reversed;
    ReverseSorts(g, order);
    r := Sorted(seq(|reversed|, k requires 0 <= k < |reversed| => FromString(reversed[k])));
  }

  /**
   * The search succeeds exactly when the graph has no cycle: a cycle is
   * always reported, and an acyclic graph is always sorted.
   */
  lemma SortedIffAcyclic(g: Graph, r: SortOutcome, nodes: seq<Node>)
    requires ValidGraph(g)
    requires r.Circular? ==> OnCycle(Succ(g), r.node)
    requires r.Sorted? ==>
      (Distinct(nodes) && Elems(nodes) == Vertices(g)
       && (forall i, j :: 0 <= i < |nodes| && 0 <= j < |nodes| && nodes[j] in Succ(g)(nodes[i]) ==> i < j))
    ensures r.Sorted? <==> Acyclic(Succ(g))
  {
    if r.Sorted? {
      forall n ensures !OnCycle(Succ(g), n) {
        if n in Vertices(g) {
          forall a, b | a in nodes && b in Succ(g)(a) ensures b in nodes {
            SuccInVertices(g, a);
          }
          NoCycleThroughRanked(Succ(g), nodes, n);
        } else {
          assert n !in g.succ;
          NoCycleWithoutSuccessors(Succ(g), n);
        }
      }
    } else {
      assert !Acyclic(Succ(g));
    }
  }
}
