/** The graph a library pass receives, and the depth-first topological sort of its nodes. */
module GraphSort {
  import opened JsonValue

  /** A `Node*` is the position of the node in the graph's node vector; any other integer stands
      for a pointer that is null or not owned by the graph. */
  datatype Entry = Entry(node: int, entry: int)

  datatype Node = Node(
    op: string,
    name: string,
    inputs: seq<Entry>,
    outputs: seq<Entry>,
    subgraphs: seq<Graph>,
    attrs: map<string, string>)

  datatype Graph = Graph(
    nodes: seq<Node>,
    inputs: seq<int>,
    outputs: seq<Entry>,
    attrs: map<string, JsonVal>)

  predicate IsNode(g: Graph, n: int) { 0 <= n < |g.nodes| }

  function AllNodes(g: Graph): set<nat> { set n: nat | n < |g.nodes| && IsNode(g, n) }

  /** `o` consumes an output of `n`. */
  ghost predicate Feeds(g: Graph, n: int, o: int) {
    IsNode(g, n) && IsNode(g, o) && exists e | e in g.nodes[n].outputs :: e.node == o
  }

  ghost predicate IsPath(g: Graph, p: seq<nat>) {
    forall k | 0 < k < |p| :: Feeds(g, p[k - 1], p[k])
  }

  /** No path returns to where it started. */
  ghost predicate Acyclic(g: Graph) {
    forall p: seq<nat> | IsPath(g, p) && |p| > 1 :: p[0] != p[|p| - 1]
  }

  predicate Distinct(s: seq<nat>) { forall i, j | 0 <= i < j < |s| :: s[i] != s[j] }

  /** Every listed node is preceded by all nodes that consume its outputs. */
  ghost predicate ConsumersFirst(g: Graph, s: seq<nat>) {
    forall k, o | 0 <= k < |s| && Feeds(g, s[k], o) :: o in s[..k]
  }

  /** The state of the traversal: nodes are still to visit, finished, or on the recursion stack. */
  ghost predicate Traversal(g: Graph, toVisit: set<nat>, sorted: seq<nat>, stack: seq<nat>) {
    && IsPath(g, stack)
    && Distinct(sorted)
    && (forall n :: n in toVisit || n in sorted || n in stack <==> IsNode(g, n))
    && (forall n | n in sorted :: n !in toVisit && n !in stack)
    && (forall n | n in stack :: n !in toVisit)
    && (Acyclic(g) ==> ConsumersFirst(g, sorted))
  }

  /** Under acyclicity a consumer of the top of the stack is not itself on the stack. */
  lemma NoBackEdge(g: Graph, stack: seq<nat>, o: int)
    requires stack != [] && IsPath(g, stack) && Acyclic(g) && Feeds(g, stack[|stack| - 1], o)
    ensures o !in stack
  {
    if o in stack {
      var i :| 0 <= i < |stack| && stack[i] == o;
      var cycle := stack[i..] + [o];
      forall k | 0 < k < |cycle| ensures Feeds(g, cycle[k - 1], cycle[k]) {
        if k < |cycle| - 1 { assert cycle[k - 1] == stack[i + k - 1] && cycle[k] == stack[i + k]; }
      }
      assert false by { assert IsPath(g, cycle) && |cycle| > 1; }
    }
  }

  /** Finishing the top of the stack. */
  lemma FinishTop(g: Graph, toVisit: set<nat>, sorted: seq<nat>, stack: seq<nat>, n: nat)
    requires Traversal(g, toVisit, sorted, stack + [n]) && n !in stack
    requires forall o | Feeds(g, n, o) :: o !in toVisit
    ensures Traversal(g, toVisit, sorted + [n], stack)
  {
    var path := stack + [n];
    assert path[|path| - 1] == n;
    forall k | 0 < k < |stack| ensures Feeds(g, stack[k - 1], stack[k]) {
      assert path[k - 1] == stack[k - 1] && path[k] == stack[k];
    }
    forall m ensures m in path <==> m in stack || m == n {}
    if Acyclic(g) {
      var s := sorted + [n];
      forall k, o | 0 <= k < |s| && Feeds(g, s[k], o) ensures o in s[..k] {
        if k == |sorted| {
          NoBackEdge(g, path, o);
          assert s[..k] == sorted;
        } else {
          assert s[..k] == sorted[..k] && s[k] == sorted[k];
        }
      }
    }
  }

  ghost predicate HasProducer(g: Graph, n: int) { exists p :: Feeds(g, p, n) }

  /** `_dfs_util`: visits `n` and everything reachable from it that is still to visit. */
  method Visit(g: Graph, n: nat, pending: set<nat>, done: seq<nat>, ghost stack: seq<nat>)
    returns (toVisit: set<nat>, sorted: seq<nat>)
    requires n in pending && Traversal(g, pending, done, stack)
    requires stack != [] ==> Feeds(g, stack[|stack| - 1], n)
    ensures Traversal(g, toVisit, sorted, stack)
    ensures toVisit <= pending - {n} && done <= sorted
    ensures forall m | m in pending && m !in toVisit && m != n :: HasProducer(g, m)
    decreases |pending|
  {
    toVisit, sorted := pending - {n}, done;
    ghost var path := stack + [n];
    PushTop(g, pending, done, stack, n);
    var j := 0;
    while j < |g.nodes[n].outputs|
      invariant 0 <= j <= |g.nodes[n].outputs|
      invariant toVisit <= pending - {n} && Traversal(g, toVisit, sorted, path) && done <= sorted
      invariant forall m | m in pending && m !in toVisit && m != n :: HasProducer(g, m)
      invariant forall k | 0 <= k < j :: g.nodes[n].outputs[k].node !in toVisit
    {
      var o := g.nodes[n].outputs[j].node;
      if o in toVisit {
        SmallerSet(toVisit, pending, n);
        assert Feeds(g, n, o);
        toVisit, sorted := Visit(g, o, toVisit, sorted, path);
      }
      j := j + 1;
    }
    FinishTop(g, toVisit, sorted, stack, n);
    sorted := sorted + [n];
  }

  lemma PushTop(g: Graph, toVisit: set<nat>, sorted: seq<nat>, stack: seq<nat>, n: nat)
    requires n in toVisit && Traversal(g, toVisit, sorted, stack)
    requires stack != [] ==> Feeds(g, stack[|stack| - 1], n)
    ensures Traversal(g, toVisit - {n}, sorted, stack + [n])
  {
  }

  lemma SmallerSet(a: set<nat>, b: set<nat>, n: nat)
    requires a <= b - {n} && n in b
    ensures |a| < |b|
  {
    var rest := b - {n} - a;
    assert b == a + rest + {n};
  }

  /** In an order with consumers first, positions go down along every path. */
  lemma {:induction false} PathDescends(g: Graph, s: seq<nat>, p: seq<nat>, i: nat)
    requires ConsumersFirst(g, s) && IsPath(g, p) && |p| > 1 && i < |s| && s[i] == p[0]
    ensures exists j :: 0 <= j < i && s[j] == p[|p| - 1]
    decreases |p|
  {
    assert Feeds(g, p[0], p[1]);
    assert p[1] in s[..i];
    var j :| 0 <= j < i && s[j] == p[1];
    if |p| > 2 {
      var q := p[1..];
      assert forall k | 0 < k < |q| :: q[k - 1] == p[k] && q[k] == p[k + 1];
      PathDescends(g, s, q, j);
    }
  }

  lemma OrderedMeansAcyclic(g: Graph, s: seq<nat>)
    requires ConsumersFirst(g, s) && Distinct(s) && forall n | IsNode(g, n) :: n in s
    ensures Acyclic(g)
  {
    forall p: seq<nat> | IsPath(g, p) && |p| > 1 ensures p[0] != p[|p| - 1] {
      assert Feeds(g, p[0], p[1]);
      var i :| 0 <= i < |s| && s[i] == p[0];
      PathDescends(g, s, p, i);
    }
  }

  /** An order `topological_sort` may return: every node once, and consumers first whenever some
      order has that property. */
  ghost predicate SortResult(g: Graph, sorted: seq<nat>) {
    && Distinct(sorted)
    && (forall n :: n in sorted <==> IsNode(g, n))
    && (ConsumersFirst(g, sorted) <==> Acyclic(g))
  }

  ghost predicate Precedes(s: seq<nat>, x: int, y: int) { exists i, j :: 0 <= i < j < |s| && s[i] == x && s[j] == y }

  /** Input `b` is a node without producers that does not occur among the inputs before. */
  ghost predicate NewSource(g: Graph, b: nat)
    requires b < |g.inputs|
  {
    IsNode(g, g.inputs[b]) && !HasProducer(g, g.inputs[b]) && g.inputs[b] !in g.inputs[..b]
  }

  /** Among the first `n` inputs, one without producers is listed after all inputs before it. */
  ghost predicate InputsInOrder(g: Graph, sorted: seq<nat>, n: nat)
    requires n <= |g.inputs|
  {
    forall a, b | 0 <= a < b < n && IsNode(g, g.inputs[a]) && NewSource(g, b) :: Precedes(sorted, g.inputs[a], g.inputs[b])
  }

  lemma LongerKeepsOrder(g: Graph, s: seq<nat>, t: seq<nat>, n: nat)
    requires n <= |g.inputs| && InputsInOrder(g, s, n) && s <= t
    ensures InputsInOrder(g, t, n)
  {
    forall a, b | 0 <= a < b < n && IsNode(g, g.inputs[a]) && NewSource(g, b)
      ensures Precedes(t, g.inputs[a], g.inputs[b])
    {
      var i, j :| 0 <= i < j < |s| && s[i] == g.inputs[a] && s[j] == g.inputs[b];
      assert t[i] == s[i] && t[j] == s[j];
    }
  }

  lemma PrecedesLater(s: seq<nat>, t: seq<nat>, x: int, y: int)
    requires s <= t && x in s && y !in s && y in t
    ensures Precedes(t, x, y)
  {
    var i :| 0 <= i < |s| && s[i] == x;
    assert t == s + t[|s|..];
    var j :| |s| <= j < |t| && t[j] == y;
    assert t[i] == s[i];
  }

  /** The first `n` inputs have been looked at: those that are nodes are finished, and nodes without
      producers wait unless they are among these inputs. */
  ghost predicate InputsSeen(g: Graph, toVisit: set<nat>, sorted: seq<nat>, n: nat)
    requires n <= |g.inputs|
  {
    && InputsInOrder(g, sorted, n)
    && (forall a | 0 <= a < n && IsNode(g, g.inputs[a]) :: g.inputs[a] in sorted)
    && (forall m: nat | IsNode(g, m) && !HasProducer(g, m) && m !in g.inputs[..n] :: m in toVisit)
  }

  /** Looking at input `n`, which is visited when it still has to be. */
  lemma NextInput(g: Graph, toVisit: set<nat>, sorted: seq<nat>, toVisit': set<nat>, sorted': seq<nat>, n: nat)
    requires n < |g.inputs| && InputsSeen(g, toVisit, sorted, n)
    requires Traversal(g, toVisit, sorted, []) && Traversal(g, toVisit', sorted', [])
    requires if g.inputs[n] in toVisit then
      && sorted <= sorted' && g.inputs[n] in sorted'
      && forall m | m in toVisit && m !in toVisit' && m != g.inputs[n] :: HasProducer(g, m)
      else toVisit' == toVisit && sorted' == sorted
    ensures InputsSeen(g, toVisit', sorted', n + 1)
  {
    hide HasProducer, ConsumersFirst, Acyclic, Precedes, IsPath;
    assert g.inputs[..n + 1] == g.inputs[..n] + [g.inputs[n]];
    var x := g.inputs[n];
    if x in toVisit {
      LongerKeepsOrder(g, sorted, sorted', n);
      forall a | 0 <= a < n && IsNode(g, g.inputs[a]) ensures Precedes(sorted', g.inputs[a], x) {
        PrecedesLater(sorted, sorted', g.inputs[a], x);
      }
      forall a | 0 <= a < n && IsNode(g, g.inputs[a]) ensures g.inputs[a] in sorted' {
        assert g.inputs[a] in sorted;
      }
    }
  }

  /** `topological_sort`. The next root is an arbitrary member of the unordered set. */
  method TopologicalSort(g: Graph) returns (sorted: seq<nat>)
    ensures SortResult(g, sorted)
    ensures InputsInOrder(g, sorted, |g.inputs|)
  {
    hide HasProducer, Precedes;
    var toVisit := AllNodes(g);
    sorted := [];
    var i := 0;
    while i < |g.inputs|
      invariant 0 <= i <= |g.inputs|
      invariant Traversal(g, toVisit, sorted, []) && InputsSeen(g, toVisit, sorted, i)
    {
      ghost var toVisit0, sorted0 := toVisit, sorted;
      if g.inputs[i] in toVisit {
        toVisit, sorted := Visit(g, g.inputs[i], toVisit, sorted, []);
      }
      NextInput(g, toVisit0, sorted0, toVisit, sorted, i);
      i := i + 1;
    }
    while |toVisit| > 0
      invariant Traversal(g, toVisit, sorted, []) && InputsInOrder(g, sorted, |g.inputs|)
      decreases toVisit
    {
      var n :| n in toVisit;
      ghost var sorted0 := sorted;
      toVisit, sorted := Visit(g, n, toVisit, sorted, []);
      LongerKeepsOrder(g, sorted0, sorted, |g.inputs|);
    }
    if ConsumersFirst(g, sorted) { OrderedMeansAcyclic(g, sorted); }
  }
}
