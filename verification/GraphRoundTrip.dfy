/** Reading back an emitted graph yields the same graph up to the numbering of its nodes. */
module GraphRoundTrip {
  import opened JsonValue
  import opened GraphSort
  import opened GraphJson

  // ----- isomorphic graphs -----

  /** Node `k` of `h` is node `order[k]` of `g`. */
  ghost predicate IsoWith(g: Graph, h: Graph, order: seq<nat>)
    decreases g, 0
  {
    && |h.nodes| == |order| == |g.nodes| && Distinct(order) && Lists(g, order)
    && (forall k | 0 <= k < |order| :: SameNode(g.nodes[order[k]], h.nodes[k], order))
    && SameEntries(g.outputs, h.outputs, order)
    && (forall k | 0 <= k < |order| :: order[k] in g.inputs <==> k in h.inputs)
    && h.attrs == g.attrs
  }

  ghost predicate Isomorphic(g: Graph, h: Graph)
    decreases g, 1
  {
    exists order :: IsoWith(g, h, order)
  }

  /** The same references, in the same order, after renumbering. */
  ghost predicate SameEntries(gs: seq<Entry>, hs: seq<Entry>, order: seq<nat>) {
    |gs| == |hs| && forall j | 0 <= j < |gs| :: SameEntry(gs[j], hs[j], order)
  }

  ghost predicate SameEntry(ge: Entry, he: Entry, order: seq<nat>) {
    0 <= he.node < |order| && order[he.node] == ge.node && he.entry == ge.entry
  }

  ghost predicate SameNode(gn: Node, hn: Node, order: seq<nat>)
    decreases gn, 2
  {
    && hn.op == gn.op && hn.name == gn.name && hn.attrs == gn.attrs
    && SameEntries(gn.inputs, hn.inputs, order)
    && NoRepeats(gn.outputs) && NoRepeats(hn.outputs)
    && (forall c, j | 0 <= c < |order| :: Entry(order[c], j) in gn.outputs <==> Entry(c, j) in hn.outputs)
    && |hn.subgraphs| == |gn.subgraphs|
    && forall s | 0 <= s < |gn.subgraphs| :: Isomorphic(gn.subgraphs[s], hn.subgraphs[s])
  }

  predicate NoRepeats(es: seq<Entry>) { forall i, j | 0 <= i < j < |es| :: es[i] != es[j] }

  // ----- which graphs can be serialized -----

  /** Edges recorded on both ends, all references inside the graph. */
  ghost predicate Consistent(g: Graph) {
    && (forall n, j | IsNode(g, n) && 0 <= j < |g.nodes[n].inputs| :: IsNode(g, g.nodes[n].inputs[j].node))
    && (forall p, n, j | IsNode(g, p) :: Entry(n, j) in g.nodes[p].outputs <==> UsesInput(g, n, j, p))
    && (forall p | IsNode(g, p) :: NoRepeats(g.nodes[p].outputs))
    && (forall i | 0 <= i < |g.outputs| :: IsNode(g, g.outputs[i].node))
  }

  /** Input `j` of node `n` is an output of node `p`. */
  predicate UsesInput(g: Graph, n: int, j: int, p: int) {
    IsNode(g, n) && 0 <= j < |g.nodes[n].inputs| && g.nodes[n].inputs[j].node == p
  }

  ghost predicate InputsAreNulls(g: Graph) {
    forall n | IsNode(g, n) :: n in g.inputs <==> g.nodes[n].op == "null"
  }

  ghost predicate Serializable(g: Graph)
    decreases g, 1
  {
    Consistent(g) && Acyclic(g) && SubsSerializable(g) && InputsAreNulls(g) && g.attrs.Keys !! RESERVED
  }

  ghost predicate SubsSerializable(g: Graph)
    decreases g, 0
  {
    forall n, s | IsNode(g, n) && 0 <= s < |g.nodes[n].subgraphs| :: Serializable(g.nodes[n].subgraphs[s])
  }

  // ----- the emitted order -----

  lemma {:induction false} PositionOf(order: seq<nat>, k: nat)
    requires Distinct(order) && k < |order|
    ensures Position(order, order[k]) == k
    decreases |order|
  {
    var last := |order| - 1;
    if k < last { PositionOf(order[..last], k); }
  }

  lemma {:induction false} DistinctCount(s: seq<nat>, n: nat)
    requires Distinct(s) && forall m: nat :: m in s <==> m < n
    ensures |s| == n
  {
    assert |s| > 0 ==> s[0] in s;
    if n > 0 {
      assert n - 1 in s;
      var i :| 0 <= i < |s| && s[i] == n - 1;
      var t := s[..i] + s[i + 1..];
      forall m: nat ensures m in t <==> m < n - 1 {
        if m < n - 1 { assert m in s; }
        if m in t { assert m in s; }
      }
      DistinctCount(t, n - 1);
    }
  }

  /** The emitted order numbers the nodes, and its positions go down from consumer to producer. */
  lemma EmittedOrder(g: Graph, sorted: seq<nat>)
    requires SortResult(g, sorted) && Lists(g, sorted)
    ensures var order := Reverse(sorted);
      Lists(g, order) && Distinct(order) && |order| == |g.nodes| && forall n | IsNode(g, n) :: n in order
  {
    var order := Reverse(sorted);
    DistinctCount(sorted, |g.nodes|);
    forall n | IsNode(g, n) ensures n in order {
      var i :| 0 <= i < |sorted| && sorted[i] == n;
      assert order[|sorted| - 1 - i] == n;
    }
  }

  lemma ReversePosition(sorted: seq<nat>, i: nat)
    requires Distinct(sorted) && i < |sorted|
    ensures Position(Reverse(sorted), sorted[i]) == |sorted| - 1 - i
  {
    hide Position;
    var order, k := Reverse(sorted), |sorted| - 1 - i;
    assert order[k] == sorted[i] && Distinct(order);
    PositionOf(order, k);
  }

  /** An input is an edge of the graph the sort follows. */
  lemma InputFeeds(g: Graph, n: nat, j: nat)
    requires Consistent(g) && n < |g.nodes| && j < |g.nodes[n].inputs|
    ensures Feeds(g, g.nodes[n].inputs[j].node, n)
  {
    assert IsNode(g, n);
    var p := g.nodes[n].inputs[j].node;
    assert UsesInput(g, n, j, p) && Entry(n, j) in g.nodes[p].outputs;
  }

  /** In the order emitted for an acyclic graph, every input comes before the node using it. */
  lemma ProducersFirst(g: Graph, sorted: seq<nat>, k: nat, j: nat)
    requires SortResult(g, sorted) && Lists(g, sorted) && Acyclic(g) && Consistent(g)
    requires k < |sorted| && j < |g.nodes[Reverse(sorted)[k]].inputs|
    ensures Position(Reverse(sorted), g.nodes[Reverse(sorted)[k]].inputs[j].node) < k
  {
    hide Acyclic, Consistent, Position, Feeds;
    var l := |sorted| - 1;
    var n := sorted[l - k];
    var p := g.nodes[n].inputs[j].node;
    InputFeeds(g, n, j);
    assert IsNode(g, p) by { FeedsNodes(g, p, n); }
    var i :| 0 <= i < |sorted| && sorted[i] == p;
    assert n in sorted[..i];
    ReversePosition(sorted, i);
  }

  lemma FeedsNodes(g: Graph, p: int, n: int)
    requires Feeds(g, p, n)
    ensures IsNode(g, p) && IsNode(g, n)
  {
  }

  // ----- output lists are the inverse of input lists -----

  lemma {:induction false} UsesMembers(es: seq<Entry>, n: nat, p: int)
    ensures forall x :: x in Uses(es, n, p) <==> x.node == n && 0 <= x.entry < |es| && es[x.entry].node == p
    ensures NoRepeats(Uses(es, n, p))
    decreases |es|
  {
    if es != [] { UsesMembers(es[..|es| - 1], n, p); }
  }

  lemma {:induction false} ConsumersMembers(ins: seq<seq<Entry>>, p: int)
    ensures forall x :: x in Consumers(ins, p) <==>
      0 <= x.node < |ins| && 0 <= x.entry < |ins[x.node]| && ins[x.node][x.entry].node == p
    ensures NoRepeats(Consumers(ins, p))
    decreases |ins|
  {
    if ins != [] {
      var l := |ins| - 1;
      ConsumersMembers(ins[..l], p);
      UsesMembers(ins[l], l, p);
      var a, b := Consumers(ins[..l], p), Uses(ins[l], l, p);
      forall i, j | 0 <= i < j < |a + b| ensures (a + b)[i] != (a + b)[j] {
        if i < |a| <= j { assert a[i] in a && b[j - |a|] in b; }
      }
    }
  }

  lemma {:induction false} NullNodesMembers(nodes: seq<Node>)
    ensures forall k :: k in NullNodes(nodes) <==> 0 <= k < |nodes| && nodes[k].op == "null"
    ensures forall i, j | 0 <= i < j < |NullNodes(nodes)| :: NullNodes(nodes)[i] < NullNodes(nodes)[j]
    decreases |nodes|
  {
    if nodes != [] {
      var init := nodes[..|nodes| - 1];
      NullNodesMembers(init);
      forall i | 0 <= i < |NullNodes(init)| ensures NullNodes(init)[i] < |init| {
        assert NullNodes(init)[i] in NullNodes(init);
      }
    }
  }

  // ----- reading one node back -----

  /** What reading the emitted node `gn` yields, before output lists are filled. */
  ghost predicate NodeRead(gn: Node, hn: Node, order: seq<nat>) {
    && hn.op == gn.op && hn.name == gn.name && hn.attrs == gn.attrs
    && SameEntries(gn.inputs, hn.inputs, order)
    && |hn.subgraphs| == |gn.subgraphs|
    && forall s | 0 <= s < |gn.subgraphs| :: Isomorphic(gn.subgraphs[s], hn.subgraphs[s])
  }

  lemma NodeFields(order: seq<nat>, n: Node, subs: seq<JsonVal>)
    requires |subs| == |n.subgraphs|
    ensures var x := NodeJson(order, n, subs);
      && StrOf(Field(x, "op")) == n.op && StrOf(Field(x, "name")) == n.name
      && Items(Field(x, "inputs")) == EntriesJson(order, n.inputs).list
      && ReadStrings(Field(x, "attrs")) == n.attrs
      && Items(Field(x, "subgraphs")) == subs
  {
    assert ReadStrings(StringsJson(n.attrs)) == n.attrs;
    if n.subgraphs == [] { assert subs == []; }
  }

  lemma EntryReadBack(order: seq<nat>, e: Entry)
    requires Distinct(order) && e.node in order
    ensures var x := EntryJson(order, e);
      |Items(x)| >= 2 && ReadEntry(x) == Entry(Position(order, e.node), e.entry) && SameEntry(e, ReadEntry(x), order)
  {
    var k :| 0 <= k < |order| && order[k] == e.node;
    PositionOf(order, k);
  }

  /** The fields `fromJson` looks up in an emitted graph value. */
  lemma GraphFields(g: Graph, order: seq<nat>, subs: seq<seq<JsonVal>>)
    requires |subs| == |g.nodes| && Lists(g, order)
    ensures var v := GraphValue(g, order, subs);
      && Items(Field(v, "nodes")) == NodesJson(g, order, subs)
      && Items(Field(v, "heads")) == EntriesJson(order, g.outputs).list
      && v.entries - RESERVED == g.attrs - RESERVED
  {
  }

  // ----- reading the whole graph back -----

  lemma {:induction false} SubgraphsReadBack(n: Node, x: JsonVal, subs: seq<JsonVal>, k: nat)
    requires SubsEmitted(n, subs) && Items(Field(x, "subgraphs")) == subs && k <= |subs|
    requires forall s | 0 <= s < |n.subgraphs| :: Serializable(n.subgraphs[s])
    ensures var r := ReadGraphs(x, k); r.Some? && forall s | 0 <= s < k :: Isomorphic(n.subgraphs[s], r.value[s])
    decreases n, 2, k
  {
    hide Serializable, Isomorphic, Emits, ReadGraph;
    if k > 0 {
      SubgraphsReadBack(n, x, subs, k - 1);
      EmittedGraphReadsBack(n.subgraphs[k - 1], subs[k - 1]);
    }
  }

  lemma InputsReadBack(g: Graph, sorted: seq<nat>, x: JsonVal, k: nat)
    requires SortResult(g, sorted) && Lists(g, sorted) && Acyclic(g) && Consistent(g) && k < |sorted|
    requires Items(Field(x, "inputs")) == EntriesJson(Reverse(sorted), g.nodes[Reverse(sorted)[k]].inputs).list
    ensures InputsOk(x, k)
    ensures SameEntries(g.nodes[Reverse(sorted)[k]].inputs, ReadInputs(x, k), Reverse(sorted))
  {
    var order, n := Reverse(sorted), g.nodes[Reverse(sorted)[k]];
    EmittedOrder(g, sorted);
    forall j | 0 <= j < |n.inputs|
      ensures InputOk(EntryJson(order, n.inputs[j]), k)
      ensures SameEntry(n.inputs[j], ReadEntry(EntryJson(order, n.inputs[j])), order)
    {
      assert IsNode(g, n.inputs[j].node);
      EntryReadBack(order, n.inputs[j]);
      ProducersFirst(g, sorted, k, j);
    }
  }

  /** The node `fromJson` makes of the value `x`, when it makes one. */
  function NodeOf(x: JsonVal, k: nat): Node
    requires InputsOk(x, k) && ReadGraphs(x, |Items(Field(x, "subgraphs"))|).Some?
  {
    Node(StrOf(Field(x, "op")), StrOf(Field(x, "name")), ReadInputs(x, k), [],
         ReadGraphs(x, |Items(Field(x, "subgraphs"))|).value, ReadStrings(Field(x, "attrs")))
  }

  lemma {:induction false} NodeReadsBack(g: Graph, sorted: seq<nat>, subs: seq<JsonVal>, k: nat)
    requires SortResult(g, sorted) && Lists(g, sorted) && k < |sorted|
    requires Consistent(g) && Acyclic(g) && SubsSerializable(g)
    requires SubsEmitted(g.nodes[Reverse(sorted)[k]], subs)
    ensures var n := g.nodes[Reverse(sorted)[k]]; var x := NodeJson(Reverse(sorted), n, subs);
      && InputsOk(x, k) && ReadGraphs(x, |Items(Field(x, "subgraphs"))|).Some?
      && NodeRead(n, NodeOf(x, k), Reverse(sorted))
    decreases g, 0
  {
    hide Isomorphic, Emits, ReadGraph, ReadGraphs, ReadInputs, ReadStrings, NodeJson, SameEntries;
    hide SortResult, Consistent, Acyclic, Serializable;
    assert IsNode(g, Reverse(sorted)[k]);
    var order := Reverse(sorted);
    var n := g.nodes[order[k]];
    var x := NodeJson(order, n, subs);
    NodeFields(order, n, subs);
    SubgraphsReadBack(n, x, subs, |subs|);
    InputsReadBack(g, sorted, x, k);
  }

  lemma {:induction false} NodesReadBack(g: Graph, v: JsonVal, sorted: seq<nat>, subs: seq<seq<JsonVal>>, k: nat)
    requires EmitsWith(g, v, sorted, subs) && k <= |sorted|
    requires Consistent(g) && Acyclic(g) && SubsSerializable(g)
    ensures |Items(Field(v, "nodes"))| == |sorted|
    ensures var r := ReadNodes(v, k);
      r.Some? && forall i | 0 <= i < k :: NodeRead(g.nodes[Reverse(sorted)[i]], r.value[i], Reverse(sorted))
    decreases g, 1, k
  {
    hide NodeRead, Emits, ReadGraph, ReadGraphs, ReadInputs, ReadStrings, InputsOk, GraphValue, NodeJson;
    hide SortResult, Consistent, Acyclic, SubsSerializable;
    var order := Reverse(sorted);
    GraphFields(g, order, subs);
    if k > 0 {
      NodesReadBack(g, v, sorted, subs, k - 1);
      var n := order[k - 1];
      assert Items(Field(v, "nodes"))[k - 1] == NodeJson(order, g.nodes[n], subs[n]);
      NodeReadsBack(g, sorted, subs[n], k - 1);
    }
  }

  /** An edge recorded in the original is recorded in the graph that was read, and the other way round. */
  lemma OutputReadBack(g: Graph, order: seq<nat>, nodes: seq<Node>, k: nat, c: nat, j: int)
    requires Consistent(g) && Lists(g, order) && Distinct(order) && |order| == |nodes| && k < |order| && c < |order|
    requires SameEntries(g.nodes[order[c]].inputs, nodes[c].inputs, order)
    ensures Entry(order[c], j) in g.nodes[order[k]].outputs <==> Entry(c, j) in Consumers(InputLists(nodes), k)
  {
    ConsumersMembers(InputLists(nodes), k);
    assert IsNode(g, order[k]);
    assert Entry(order[c], j) in g.nodes[order[k]].outputs <==> UsesInput(g, order[c], j, order[k]);
    assert InputLists(nodes)[c] == nodes[c].inputs;
    if 0 <= j < |nodes[c].inputs| {
      assert SameEntry(g.nodes[order[c]].inputs[j], nodes[c].inputs[j], order);
    }
  }

  lemma EdgesOnce(g: Graph, n: nat, nodes: seq<Node>, k: nat)
    requires Consistent(g) && n < |g.nodes|
    ensures NoRepeats(g.nodes[n].outputs) && NoRepeats(Consumers(InputLists(nodes), k))
  {
    ConsumersMembers(InputLists(nodes), k);
    assert IsNode(g, n);
  }

  /** Filling the output lists turns nodes that were read back into nodes of an isomorphic graph. */
  lemma OutputsReadBack(g: Graph, order: seq<nat>, nodes: seq<Node>, k: nat)
    requires Consistent(g) && Lists(g, order) && Distinct(order) && |order| == |nodes| == |g.nodes| && k < |order|
    requires forall i | 0 <= i < |order| :: NodeRead(g.nodes[order[i]], nodes[i], order)
    ensures SameNode(g.nodes[order[k]], WithOutputs(nodes)[k], order)
  {
    hide Isomorphic, Consumers, InputLists, SameEntries, Distinct, NoRepeats, Consistent;
    var gn, hn := g.nodes[order[k]], WithOutputs(nodes)[k];
    assert NodeRead(gn, nodes[k], order);
    EdgesOnce(g, order[k], nodes, k);
    forall c, j | 0 <= c < |order| ensures Entry(order[c], j) in gn.outputs <==> Entry(c, j) in hn.outputs {
      assert NodeRead(g.nodes[order[c]], nodes[c], order);
      OutputReadBack(g, order, nodes, k, c, j);
    }
  }

  lemma HeadsReadBack(g: Graph, v: JsonVal, order: seq<nat>)
    requires Consistent(g) && Lists(g, order) && Distinct(order) && forall n | IsNode(g, n) :: n in order
    requires Items(Field(v, "heads")) == EntriesJson(order, g.outputs).list
    ensures HeadsOk(v)
    ensures var hs := Items(Field(v, "heads"));
      |hs| == |g.outputs| && forall i | 0 <= i < |hs| :: SameEntry(g.outputs[i], ReadHead(hs[i], |order|), order)
  {
    forall i | 0 <= i < |g.outputs|
      ensures var x := EntryJson(order, g.outputs[i]);
        |Items(x)| >= 2 && SameEntry(g.outputs[i], ReadHead(x, |order|), order)
    {
      assert IsNode(g, g.outputs[i].node);
      EntryReadBack(order, g.outputs[i]);
    }
  }

  /** Whatever order the topological sort picks, reading the emitted value yields a graph
      isomorphic to the original, nested subgraphs included. */
  lemma {:induction false} EmittedGraphReadsBack(g: Graph, v: JsonVal)
    requires Emits(g, v) && Serializable(g)
    ensures ReadGraph(v).Some? && Isomorphic(g, ReadGraph(v).value)
    decreases g, 1
  {
    var sorted, subs :| EmitsWith(g, v, sorted, subs);
    EmittedOrder(g, sorted);
    GraphFields(g, Reverse(sorted), subs);
    NodesReadBack(g, v, sorted, subs, |sorted|);
    HeadsReadBack(g, v, Reverse(sorted));
    GraphReadsBack(g, v, Reverse(sorted));
  }

  lemma NullsReadBack(g: Graph, order: seq<nat>, nodes: seq<Node>)
    requires InputsAreNulls(g) && Lists(g, order) && |order| == |nodes|
    requires forall k | 0 <= k < |order| :: NodeRead(g.nodes[order[k]], nodes[k], order)
    ensures forall k | 0 <= k < |order| :: order[k] in g.inputs <==> k in NullNodes(nodes)
  {
    NullNodesMembers(nodes);
    forall k | 0 <= k < |order| ensures order[k] in g.inputs <==> k in NullNodes(nodes) {
      assert NodeRead(g.nodes[order[k]], nodes[k], order);
      assert IsNode(g, order[k]);
    }
  }

  lemma GraphReadsBack(g: Graph, v: JsonVal, order: seq<nat>)
    requires Consistent(g) && InputsAreNulls(g) && g.attrs.Keys !! RESERVED && v.Map?
    requires Lists(g, order) && Distinct(order) && |order| == |g.nodes| && forall n | IsNode(g, n) :: n in order
    requires |Items(Field(v, "nodes"))| == |order| && ReadNodes(v, |order|).Some?
    requires forall k | 0 <= k < |order| :: NodeRead(g.nodes[order[k]], ReadNodes(v, |order|).value[k], order)
    requires HeadsOk(v) && v.entries - RESERVED == g.attrs - RESERVED
    requires var hs := Items(Field(v, "heads"));
      |hs| == |g.outputs| && forall i | 0 <= i < |hs| :: SameEntry(g.outputs[i], ReadHead(hs[i], |order|), order)
    ensures ReadGraph(v).Some? && IsoWith(g, ReadGraph(v).value, order)
  {
    hide ReadNodes, SameNode, Consistent, ReadHead, NodeRead, NullNodes, InputsAreNulls, Distinct;
    var nodes := ReadNodes(v, |order|).value;
    forall k | 0 <= k < |order| ensures SameNode(g.nodes[order[k]], WithOutputs(nodes)[k], order) {
      OutputsReadBack(g, order, nodes, k);
    }
    NullsReadBack(g, order, nodes);
    assert g.attrs - RESERVED == g.attrs;
  }

  // ----- what exactly is needed -----

  lemma {:induction false} UnsetInputStops(v: JsonVal, i: nat, k: nat)
    requires i < k <= |Items(Field(v, "nodes"))| && !InputsOk(Items(Field(v, "nodes"))[i], i)
    ensures ReadNodes(v, k).None?
    decreases k
  {
    if i < k - 1 { UnsetInputStops(v, i, k - 1); }
  }

  lemma ConsumingInput(g: Graph, p: nat, o: nat) returns (j: nat)
    requires Consistent(g) && Feeds(g, p, o)
    ensures UsesInput(g, o, j, p)
  {
    var e :| e in g.nodes[p].outputs && e.node == o;
    assert e == Entry(o, e.entry) && UsesInput(g, o, e.entry, p);
    j := e.entry;
  }

  /** A consumer emitted no later than its producer. */
  lemma LateProducer(g: Graph, sorted: seq<nat>, k: nat, o: nat) returns (i: nat, j: nat)
    requires SortResult(g, sorted) && Lists(g, sorted) && Consistent(g)
    requires k < |sorted| && Feeds(g, sorted[k], o) && o !in sorted[..k]
    ensures i < |sorted| && Reverse(sorted)[i] == o && j < |g.nodes[o].inputs|
    ensures Position(Reverse(sorted), g.nodes[o].inputs[j].node) >= i
  {
    hide Acyclic, ConsumersFirst, Consistent, Position, Feeds;
    FeedsNodes(g, sorted[k], o);
    j := ConsumingInput(g, sorted[k], o);
    var c := ListedLater(sorted, k, o);
    ReversePosition(sorted, k);
    i := |sorted| - 1 - c;
  }

  lemma ListedLater(sorted: seq<nat>, k: nat, o: nat) returns (c: nat)
    requires o in sorted && k <= |sorted| && o !in sorted[..k]
    ensures k <= c < |sorted| && sorted[c] == o
  {
    assert sorted == sorted[..k] + sorted[k..];
    var d :| 0 <= d < |sorted| - k && sorted[k..][d] == o;
    c := k + d;
  }

  /** Its input names a node that is not set yet. */
  lemma LateInputRefused(order: seq<nat>, n: Node, subs: seq<JsonVal>, i: nat, j: nat)
    requires |subs| == |n.subgraphs| && j < |n.inputs| && Position(order, n.inputs[j].node) >= i
    ensures !InputsOk(NodeJson(order, n, subs), i)
  {
    var x := NodeJson(order, n, subs);
    NodeFields(order, n, subs);
    assert Items(Field(x, "inputs"))[j] == EntryJson(order, n.inputs[j]);
    assert !InputOk(Items(Field(x, "inputs"))[j], i);
  }

  /** When its subgraphs are serializable, an emitted graph with consistent edges reads back
      exactly when it is acyclic: on a cycle `fromJson` meets an input whose node is not set. */
  lemma ReadsBackExactlyWhenAcyclic(g: Graph, v: JsonVal)
    requires Emits(g, v) && Consistent(g) && SubsSerializable(g)
    ensures ReadGraph(v).Some? <==> Acyclic(g)
  {
    hide ReadNodes, Consistent, SubsSerializable, InputsOk, NodeJson, SubsEmitted;
    var sorted, subs :| EmitsWith(g, v, sorted, subs);
    var order := Reverse(sorted);
    EmittedOrder(g, sorted);
    GraphFields(g, order, subs);
    if Acyclic(g) {
      NodesReadBack(g, v, sorted, subs, |sorted|);
      HeadsReadBack(g, v, order);
    } else {
      var k, o :| 0 <= k < |sorted| && Feeds(g, sorted[k], o) && o !in sorted[..k];
      SubsCount(g.nodes[o], subs[o]);
      var i, j := LateProducer(g, sorted, k, o);
      LateInputRefused(order, g.nodes[o], subs[o], i, j);
      UnsetInputStops(v, i, |sorted|);
    }
  }

  lemma SubsCount(n: Node, subs: seq<JsonVal>)
    requires SubsEmitted(n, subs)
    ensures |subs| == |n.subgraphs|
  {
  }

  /** What reading back always does to the parts that need a condition: attributes under reserved
      keys are lost, and the inputs become the "null" nodes in emitted order. */
  lemma AttributesAndInputsReadBack(g: Graph, v: JsonVal, sorted: seq<nat>, subs: seq<seq<JsonVal>>)
    requires EmitsWith(g, v, sorted, subs) && Consistent(g) && Acyclic(g) && SubsSerializable(g)
    ensures ReadGraph(v).Some?
    ensures ReadGraph(v).value.attrs == g.attrs - {"nodes", "heads", "node_row_ptr", "arg_nodes"}
    ensures forall k :: k in ReadGraph(v).value.inputs <==> 0 <= k < |sorted| && g.nodes[Reverse(sorted)[k]].op == "null"
  {
    hide ReadNodes, Consistent, SubsSerializable, Acyclic, NullNodes;
    var order := Reverse(sorted);
    EmittedOrder(g, sorted);
    GraphFields(g, order, subs);
    NodesReadBack(g, v, sorted, subs, |sorted|);
    HeadsReadBack(g, v, order);
    var nodes := ReadNodes(v, |sorted|).value;
    NullNodesMembers(nodes);
    assert forall k | 0 <= k < |sorted| :: NodeRead(g.nodes[order[k]], nodes[k], order);
  }

  /** The emitted "arg_nodes" list says where each graph input is emitted. */
  lemma ArgNodesEmitted(g: Graph, v: JsonVal, sorted: seq<nat>, subs: seq<seq<JsonVal>>, i: nat)
    requires EmitsWith(g, v, sorted, subs) && i < |g.inputs| && IsNode(g, g.inputs[i])
    ensures var args := Items(Field(v, "arg_nodes"));
      |args| == |g.inputs| && 0 <= NumOf(args[i]) < |sorted| && Reverse(sorted)[NumOf(args[i])] == g.inputs[i]
  {
    hide SubsEmitted;
    var order := Reverse(sorted);
    EmittedOrder(g, sorted);
    var k :| 0 <= k < |order| && order[k] == g.inputs[i];
    PositionOf(order, k);
    assert Field(v, "arg_nodes") == PositionsJson(order, g.inputs);
  }
}
