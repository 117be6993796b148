/**
 * The depth-first search of `PyCombiner._get_merge_order`: a node is
 * marked visited before its dependencies are searched, each dependency is
 * searched in the order the file imports it, and the node is appended to
 * the order once all of them are done (post-order). There is no cycle
 * detection: a node met again while it is still on the current path is
 * simply skipped, so the search always ends.
 */
module MergeOrder {
  import opened Strings
  import opened Digraph

  /** `dependency_graph`: file path strings to the ordered paths they import. */
  type Graph = map<Node, seq<Node>>

  /** `dependency_graph.get(node, [])` as a successor function. */
  ghost function Succ(g: Graph): Node -> set<Node> {
    n => if n in g then Elems(g[n]) else {}
  }

  /** Every node of the graph: the keys and everything they point to. */
  ghost function Vertices(g: Graph): set<Node> {
    g.Keys + (set n, m | n in g && m in g[n] :: m)
  }

  lemma SuccInVertices(g: Graph, v: Node)
    ensures Succ(g)(v) <= Vertices(g)
  {
    forall m | m in Succ(g)(v) ensures m in Vertices(g) {
      assert v in g && m in g[v];
    }
  }

  /** Some node of `roots` reaches `v`. */
  ghost predicate ReachableFrom(g: Graph, roots: seq<Node>, v: Node) {
    exists r :: r in roots && Reaches(Succ(g), r, v)
  }

  /**
   * The state of the search between two steps. `order` holds the finished
   * nodes once each and `stack` the path of nodes still being searched;
   * together they are `visited`. Every successor of a finished node is
   * visited. A successor of a finished node either finished before it or
   * lies with it on a cycle; the latter holds in particular for every
   * successor that is still on the path.
   */
  ghost predicate Search(g: Graph, visited: set<Node>, order: seq<Node>, stack: seq<Node>) {
    Distinct(order) && Distinct(stack) && Elems(order) !! Elems(stack)
    && visited == Elems(order) + Elems(stack)
    && (stack != [] ==> IsWalk(Succ(g), stack))
    && (forall i :: 0 <= i < |order| ==> Succ(g)(order[i]) <= visited)
    && (forall i, j :: 0 <= i < |order| && 0 <= j < |order| && order[j] in Succ(g)(order[i]) ==>
          j < i || OnCycle(Succ(g), order[i]))
    && (forall i, v :: 0 <= i < |order| && v in Succ(g)(order[i]) && v in stack ==> OnCycle(Succ(g), order[i]))
  }

  /** An edge back from `u` to a node `v` that reaches `u` closes a cycle through `u`. */
  lemma CycleThroughEdge(g: Graph, u: Node, v: Node)
    requires v in Succ(g)(u) && Reaches(Succ(g), v, u)
    ensures OnCycle(Succ(g), u)
  {
    var p :| IsWalk(Succ(g), p) && p[0] == v && p[|p| - 1] == u;
    var q := [u] + p;
    forall i | 0 <= i < |q| - 1 ensures q[i + 1] in Succ(g)(q[i]) {
      if i > 0 { assert q[i] == p[i - 1] && q[i + 1] == p[i]; }
    }
    assert IsWalk(Succ(g), q);
  }

  /** Marking a fresh successor of the path's last node visited pushes it on the path. */
  lemma EnterNode(g: Graph, visited: set<Node>, order: seq<Node>, stack: seq<Node>, node: Node)
    requires Search(g, visited, order, stack) && node !in visited
    requires stack != [] ==> node in Succ(g)(stack[|stack| - 1])
    ensures Search(g, visited + {node}, order, stack + [node])
  {
    var path := stack + [node];
    assert Elems(path) == Elems(stack) + {node};
    forall i, j | 0 <= i < j < |path| ensures path[i] != path[j] {
      if j == |stack| { assert path[i] in Elems(stack); }
    }
    if stack != [] {
      forall i | 0 <= i < |path| - 1 ensures path[i + 1] in Succ(g)(path[i]) {
        if i < |stack| - 1 { assert path[i] == stack[i] && path[i + 1] == stack[i + 1]; }
      }
    }
    forall i, v | 0 <= i < |order| && v in Succ(g)(order[i]) && v in path
      ensures OnCycle(Succ(g), order[i])
    {
      if v == node { assert false; }
      assert v in stack;
    }
  }

  /** Appending the path's last node, whose successors are all visited, pops it off the path. */
  lemma FinishNode(g: Graph, visited: set<Node>, order: seq<Node>, stack: seq<Node>, node: Node)
    requires Search(g, visited, order, stack + [node])
    requires Succ(g)(node) <= visited
    ensures Search(g, visited, order + [node], stack)
  {
    var path := stack + [node];
    var order' := order + [node];
    assert node in Elems(path);
    assert Elems(path) == Elems(stack) + {node};
    forall i | 0 <= i < |order| ensures order[i] != node {
      assert order[i] in Elems(order);
    }
    forall i, j | 0 <= i < j < |stack| ensures stack[i] != stack[j] {
      assert stack[i] == path[i] && stack[j] == path[j];
    }
    forall i | 0 <= i < |stack| ensures stack[i] != node {
      assert stack[i] == path[i] && node == path[|stack|];
    }
    if stack != [] {
      forall i | 0 <= i < |stack| - 1 ensures stack[i + 1] in Succ(g)(stack[i]) {
        assert stack[i] == path[i] && stack[i + 1] == path[i + 1];
      }
    }
    // every successor of `node` still on the path reaches `node` along it
    forall v | v in Succ(g)(node) && v in path ensures OnCycle(Succ(g), node) {
      var k :| 0 <= k < |path| && path[k] == v;
      if |path| >= 2 {
        WalkSuffixReaches(Succ(g), path, k);
      } else {
        ReachesRefl(Succ(g), node);
      }
      CycleThroughEdge(g, node, v);
    }
    forall i, j | 0 <= i < |order'| && 0 <= j < |order'| && order'[j] in Succ(g)(order'[i])
      ensures j < i || OnCycle(Succ(g), order'[i])
    {
      if i < |order| {
        assert order'[i] == order[i];
        if j == |order| { assert order'[j] in path; }
        else { assert order'[j] == order[j]; }
      } else if j == |order| {
        assert order'[j] in path;
      }
    }
    forall i, v | 0 <= i < |order'| && v in Succ(g)(order'[i]) && v in stack
      ensures OnCycle(Succ(g), order'[i])
    {
      assert v in path;
      if i < |order| { assert order'[i] == order[i]; }
    }
  }

  /** The nodes a search from a successor `dep` newly visits are reachable from `node`. */
  lemma ReachedThrough(g: Graph, node: Node, dep: Node, visited: set<Node>, before: set<Node>, after: set<Node>)
    requires dep in Succ(g)(node)
    requires forall v :: v in before && v !in visited ==> Reaches(Succ(g), node, v)
    requires forall v :: v in after && v !in before ==> Reaches(Succ(g), dep, v)
    ensures forall v :: v in after && v !in visited ==> Reaches(Succ(g), node, v)
  {
    forall v | v in after && v !in visited ensures Reaches(Succ(g), node, v) {
      if v !in before {
        ReachesPrepend(Succ(g), node, dep, v);
      }
    }
  }

  /**
   * `visit(file_path)`. `stack` is the current path of the search and
   * `node` a successor of its last node. Afterwards `node` is visited, the
   * order has only grown at its end, every newly visited node is reachable
   * from `node`, and a node that was not visited before is the last one
   * appended.
   */
  method Visit(g: Graph, node: Node, visited: set<Node>, order: seq<Node>, ghost stack: seq<Node>, ghost universe: set<Node>)
    returns (visited': set<Node>, order': seq<Node>)
    requires Vertices(g) <= universe && node in universe && visited <= universe
    requires Search(g, visited, order, stack)
    requires stack != [] ==> node in Succ(g)(stack[|stack| - 1])
    decreases universe - visited, 1
    ensures Search(g, visited', order', stack)
    ensures visited <= visited' <= universe && node in visited'
    ensures |order| <= |order'| && order'[..|order|] == order
    ensures node !in visited ==> |order| < |order'| && order'[|order'| - 1] == node
    ensures forall v :: v in visited' && v !in visited ==> Reaches(Succ(g), node, v)
  {
    if node in visited {
      return visited, order;
    }
    EnterNode(g, visited, order, stack, node);
    visited', order' := VisitDependencies(g, node, visited, visited + {node}, order, stack, universe);
    FinishNode(g, visited', order', stack, node);
    PrefixSnoc(order, order', node);
    order' := order' + [node];
  }

  /**
   * The loop of `visit` over `dependency_graph.get(file_path, [])`, once
   * `node` is marked visited and pushed on the path: afterwards every
   * successor of `node` is visited, and whatever is newly visited is
   * reachable from `node`.
   */
  method VisitDependencies(g: Graph, node: Node, ghost visited0: set<Node>, visited: set<Node>, order: seq<Node>,
                           ghost stack: seq<Node>, ghost universe: set<Node>)
    returns (visited': set<Node>, order': seq<Node>)
    requires Vertices(g) <= universe && node in universe && visited <= universe
    requires visited == visited0 + {node} && node !in visited0
    requires Search(g, visited, order, stack + [node])
    decreases universe - visited0, 0
    ensures Search(g, visited', order', stack + [node])
    ensures visited <= visited' <= universe && Succ(g)(node) <= visited'
    ensures |order| <= |order'| && order'[..|order|] == order
    ensures forall v :: v in visited' && v !in visited0 ==> Reaches(Succ(g), node, v)
  {
    ghost var path := stack + [node];
    ReachesRefl(Succ(g), node);
    visited', order' := visited, order;
    var deps := if node in g then g[node] else [];
    var k := 0;
    while k < |deps|
      invariant 0 <= k <= |deps|
      invariant Search(g, visited', order', path)
      invariant visited <= visited' <= universe
      invariant |order| <= |order'| && order'[..|order|] == order
      invariant forall m :: 0 <= m < k ==> deps[m] in visited'
      invariant forall v :: v in visited' && v !in visited0 ==> Reaches(Succ(g), node, v)
    {
      assert deps[k] in Succ(g)(node);
      SuccInVertices(g, node);
      ghost var before, prefix := visited', order';
      visited', order' := Visit(g, deps[k], visited', order', path, universe);
      ReachedThrough(g, node, deps[k], visited0, before, visited');
      PrefixTrans(order, prefix, order');
      forall m | 0 <= m < k + 1 ensures deps[m] in visited' {
        if m < k { assert deps[m] in before; }
      }
      k := k + 1;
    }
    assert Succ(g)(node) <= visited' by {
      forall v | v in Succ(g)(node) ensures v in visited' {
        var m :| 0 <= m < |deps| && deps[m] == v;
      }
    }
  }

  /**
   * What `_get_merge_order` returns, over the string nodes: every node once,
   * exactly the nodes the roots reach; its first `entryCount` nodes are
   * exactly those the entry reaches, ending with the entry itself; every
   * dependency of a listed node is listed, and before it unless the two lie
   * on a cycle.
   */
  ghost predicate IsMergeOrder(g: Graph, entry: Node, files: seq<Node>, nodes: seq<Node>, entryCount: nat) {
    Distinct(nodes) && 1 <= entryCount <= |nodes| && nodes[entryCount - 1] == entry
    && (forall v :: v in nodes[..entryCount] <==> Reaches(Succ(g), entry, v))
    && (forall v :: v in nodes <==> ReachableFrom(g, [entry] + files, v))
    && (forall i :: 0 <= i < |nodes| ==> Succ(g)(nodes[i]) <= Elems(nodes))
    && (forall i, j :: 0 <= i < |nodes| && 0 <= j < |nodes| && nodes[j] in Succ(g)(nodes[i]) ==>
          j < i || OnCycle(Succ(g), nodes[i]))
  }

  /**
   * On an acyclic graph the merge order lists every dependency of a file
   * before the file, and every file listed before the entry is one the
   * entry reaches.
   */
  lemma {:induction false} AcyclicMergeOrder(g: Graph, entry: Node, files: seq<Node>, nodes: seq<Node>, entryCount: nat)
    requires IsMergeOrder(g, entry, files, nodes, entryCount) && Acyclic(Succ(g))
    ensures forall i, v :: 0 <= i < |nodes| && v in Succ(g)(nodes[i]) ==>
      exists j :: 0 <= j < i && nodes[j] == v
    ensures forall i :: 0 <= i < entryCount ==> Reaches(Succ(g), entry, nodes[i])
  {
    forall i, v | 0 <= i < |nodes| && v in Succ(g)(nodes[i]) ensures exists j :: 0 <= j < i && nodes[j] == v {
      assert v in Elems(nodes);
      var j :| 0 <= j < |nodes| && nodes[j] == v;
      assert !OnCycle(Succ(g), nodes[i]);
      assert j < i;
    }
    forall i | 0 <= i < entryCount ensures Reaches(Succ(g), entry, nodes[i]) {
      assert nodes[i] == nodes[..entryCount][i];
    }
  }

  /** A search state without a path is closed under successors, so it holds all its nodes reach. */
  lemma ClosedSearch(g: Graph, visited: set<Node>, order: seq<Node>, a: Node, b: Node)
    requires Search(g, visited, order, []) && a in visited && Reaches(Succ(g), a, b)
    ensures b in visited
  {
    forall x | x in visited ensures Succ(g)(x) <= visited {
      var i :| 0 <= i < |order| && order[i] == x;
    }
    ClosedContainsReachable(Succ(g), visited, a, b);
  }
}
