/** The loops of `Graph::toJson` and `Graph::fromJson`, proved against their specifications. */
module GraphIo {
  import opened JsonValue
  import opened JsonParser
  import opened JsonStrict
  import opened JsonTermination
  import opened GraphSort
  import opened GraphJson
  import opened GraphRoundTrip
  import opened GraphMeaning
  import opened GraphText

  // ----- graph to JSON -----

  /** `nodeMap[n]` on a `std::map`: a missing key reads as 0. */
  function Lookup(m: map<nat, nat>, n: int): nat { if n in m then m[n] else 0 }

  ghost predicate Numbers(m: map<nat, nat>, order: seq<nat>) { forall n: int :: Lookup(m, n) == Position(order, n) }

  method NumberNodes(sorted: seq<nat>) returns (nodeMap: map<nat, nat>)
    ensures Numbers(nodeMap, Reverse(sorted))
  {
    ghost var order := Reverse(sorted);
    nodeMap := map[];
    var i := |sorted| - 1;
    while i >= 0
      invariant -1 <= i < |sorted|
      invariant Numbers(nodeMap, order[..|sorted| - 1 - i])
    {
      var k := |sorted| - 1 - i;
      NumbersStep(nodeMap, order, k);
      nodeMap := nodeMap[sorted[i] := k];
      i := i - 1;
    }
    assert order[..|sorted|] == order;
  }

  lemma NumbersStep(m: map<nat, nat>, order: seq<nat>, k: nat)
    requires k < |order| && Numbers(m, order[..k])
    ensures Numbers(m[order[k] := k], order[..k + 1])
  {
    var m1, order1 := m[order[k] := k], order[..k + 1];
    assert order1[..k] == order[..k] && order1[k] == order[k];
    forall n: int ensures Lookup(m1, n) == Position(order1, n) {
      assert Lookup(m, n) == Position(order[..k], n);
    }
  }

  method EntryToJson(nodeMap: map<nat, nat>, e: Entry, ghost order: seq<nat>) returns (v: JsonVal)
    requires Numbers(nodeMap, order)
    ensures v == EntryJson(order, e)
  {
    hide FromInt, Position;
    var out := [FromInt(Lookup(nodeMap, e.node))];
    out := out + [FromInt(e.entry)];
    out := out + [FromInt(0)];
    v := List(out);
  }

  method EntriesToJson(nodeMap: map<nat, nat>, es: seq<Entry>, ghost order: seq<nat>) returns (v: JsonVal)
    requires Numbers(nodeMap, order)
    ensures v == EntriesJson(order, es)
  {
    hide Numbers, EntryJson;
    var list: seq<JsonVal> := [];
    for i := 0 to |es|
      invariant |list| == i && forall k | 0 <= k < i :: list[k] == EntryJson(order, es[k])
    {
      var entry := EntryToJson(nodeMap, es[i], order);
      list := list + [entry];
    }
    v := List(list);
  }

  method SubgraphsToJson(n: Node) returns (subs: seq<JsonVal>)
    ensures SubsEmitted(n, subs)
    decreases n, 2
  {
    subs := [];
    for s := 0 to |n.subgraphs|
      invariant |subs| == s && forall k | 0 <= k < s :: Emits(n.subgraphs[k], subs[k])
    {
      var sub := ToJson(n.subgraphs[s]);
      subs := subs + [sub];
    }
  }

  method NodeToJson(nodeMap: map<nat, nat>, n: Node, ghost order: seq<nat>) returns (v: JsonVal, ghost subs: seq<JsonVal>)
    requires Numbers(nodeMap, order)
    ensures SubsEmitted(n, subs) && v == NodeJson(order, n, subs)
    decreases n, 3
  {
    var entries: map<string, JsonVal> := map["op" := Str(n.op)];
    entries := entries["name" := Str(n.name)];
    var inputs := EntriesToJson(nodeMap, n.inputs, order);
    entries := entries["inputs" := inputs];
    var list := SubgraphsToJson(n);
    subs := list;
    if |n.subgraphs| > 0 {
      entries := entries["subgraphs" := List(list)];
    }
    entries := entries["attrs" := StringsJson(n.attrs)];
    assert entries == NodeJson(order, n, subs).entries;
    v := Map(entries);
  }

  method NodesToJson(g: Graph, nodeMap: map<nat, nat>, sorted: seq<nat>)
    returns (list: seq<JsonVal>, ghost subs: seq<seq<JsonVal>>)
    requires Numbers(nodeMap, Reverse(sorted)) && SortResult(g, sorted) && Lists(g, sorted)
    ensures |subs| == |g.nodes| && forall n | 0 <= n < |g.nodes| :: SubsEmitted(g.nodes[n], subs[n])
    ensures list == NodesJson(g, Reverse(sorted), subs)
    decreases g, 0
  {
    hide SubsEmitted, NodeJson, Numbers, SortResult;
    ghost var order := Reverse(sorted);
    EmittedOrder(g, sorted);
    list := [];
    subs := seq(|g.nodes|, _ => []);
    var i := |sorted| - 1;
    while i >= 0
      invariant -1 <= i < |sorted| && |list| == |sorted| - 1 - i && |subs| == |g.nodes|
      invariant forall k | 0 <= k < |list| ::
        list[k] == NodeJson(order, g.nodes[order[k]], subs[order[k]]) && SubsEmitted(g.nodes[order[k]], subs[order[k]])
    {
      var v;
      ghost var ss;
      assert order[|list|] == sorted[i];
      v, ss := NodeToJson(nodeMap, g.nodes[sorted[i]], order);
      list := list + [v];
      subs := subs[sorted[i] := ss];
      i := i - 1;
    }
    forall n | 0 <= n < |g.nodes| ensures SubsEmitted(g.nodes[n], subs[n]) {
      assert IsNode(g, n);
      var k :| 0 <= k < |order| && order[k] == n;
    }
  }

  method IndicesToJson(n: nat) returns (v: JsonVal)
    ensures v == IndicesJson(n)
  {
    hide FromInt;
    var list: seq<JsonVal> := [];
    for i := 0 to n
      invariant |list| == i && forall k | 0 <= k < i :: list[k] == FromInt(k)
    {
      list := list + [FromInt(i)];
    }
    v := List(list);
  }

  method PositionsToJson(nodeMap: map<nat, nat>, ns: seq<int>, ghost order: seq<nat>) returns (v: JsonVal)
    requires Numbers(nodeMap, order)
    ensures v == PositionsJson(order, ns)
  {
    hide FromInt, Position;
    var list: seq<JsonVal> := [];
    for i := 0 to |ns|
      invariant |list| == i && forall k | 0 <= k < i :: list[k] == FromInt(Position(order, ns[k]))
    {
      list := list + [FromInt(Lookup(nodeMap, ns[i]))];
    }
    v := List(list);
  }

  /** `Graph::toJson`. */
  method ToJson(g: Graph) returns (v: JsonVal)
    ensures Emits(g, v)
    decreases g, 1
  {
    hide SubsEmitted, NodesJson, Numbers, SortResult, EntriesJson, IndicesJson, PositionsJson;
    var entries := g.attrs;
    var sorted := TopologicalSort(g);
    SortLists(g, sorted);
    ghost var order := Reverse(sorted);
    var nodeMap := NumberNodes(sorted);
    var rowPtr := IndicesToJson(|g.nodes|);
    entries := entries["node_row_ptr" := rowPtr];
    var args := PositionsToJson(nodeMap, g.inputs, order);
    entries := entries["arg_nodes" := args];
    var heads := EntriesToJson(nodeMap, g.outputs, order);
    entries := entries["heads" := heads];
    ghost var subs;
    var list;
    list, subs := NodesToJson(g, nodeMap, sorted);
    entries := entries["nodes" := List(list)];
    v := Map(entries);
    assert entries == GraphValue(g, order, subs).entries;
    assert EmitsWith(g, v, sorted, subs);
  }

  lemma SortLists(g: Graph, sorted: seq<nat>)
    requires SortResult(g, sorted)
    ensures Lists(g, sorted)
  {
    forall i | 0 <= i < |sorted| ensures sorted[i] < |g.nodes| { assert sorted[i] in sorted; }
  }

  /** `Graph::toString`. */
  method ToString(g: Graph) returns (s: string)
    ensures exists v :: Emits(g, v) && s == Dump(v) && Strict(v, s)
  {
    var v := ToJson(g);
    s := Dump(v);
    DumpStrict(v);
  }

  // ----- JSON to graph -----

  /** The output lists of `nodes` after `done` inputs of the next node have been connected. */
  ghost predicate Connected(nodes: seq<Node>, base: seq<Node>, done: seq<Entry>) {
    && |nodes| == |base|
    && forall p | 0 <= p < |nodes| ::
         nodes[p] == base[p].(outputs := Consumers(InputLists(base), p) + Uses(done, |base|, p))
  }

  /** Connecting one more input appends to the output list of its node only. */
  lemma ConnectStep(nodes: seq<Node>, base: seq<Node>, done: seq<Entry>, e: Entry)
    requires Connected(nodes, base, done) && 0 <= e.node < |nodes|
    ensures Connected(nodes[e.node := nodes[e.node].(outputs := nodes[e.node].outputs + [Entry(|nodes|, |done|)])],
                      base, done + [e])
  {
    assert (done + [e])[..|done|] == done;
    forall p | 0 <= p < |nodes|
      ensures Uses(done + [e], |base|, p) == Uses(done, |base|, p) + if p == e.node then [Entry(|nodes|, |done|)] else []
    {
    }
  }

  lemma {:induction false} UsesNone(es: seq<Entry>, n: nat, p: int)
    requires forall j | 0 <= j < |es| :: es[j].node != p
    ensures Uses(es, n, p) == []
    decreases |es|
  {
    if es != [] { UsesNone(es[..|es| - 1], n, p); }
  }

  lemma {:induction false} ConsumersNone(ins: seq<seq<Entry>>, p: int)
    requires forall n, j | 0 <= n < |ins| && 0 <= j < |ins[n]| :: ins[n][j].node < p
    ensures Consumers(ins, p) == []
    decreases |ins|
  {
    if ins != [] {
      ConsumersNone(ins[..|ins| - 1], p);
      UsesNone(ins[|ins| - 1], |ins| - 1, p);
    }
  }

  /** Inputs name earlier nodes only. */
  ghost predicate Backward(nodes: seq<Node>) {
    forall n, j | 0 <= n < |nodes| && 0 <= j < |nodes[n].inputs| :: nodes[n].inputs[j].node < n
  }

  /** Adding the finished node. */
  lemma ConnectNode(nodes: seq<Node>, base: seq<Node>, node: Node)
    requires Connected(nodes, base, node.inputs) && Backward(base) && node.outputs == []
    requires forall j | 0 <= j < |node.inputs| :: node.inputs[j].node < |base|
    ensures Connected(nodes + [node], base + [node], []) && Backward(base + [node])
  {
    hide Uses;
    var base1, ins := base + [node], InputLists(base);
    assert InputLists(base1) == ins + [node.inputs] && (ins + [node.inputs])[..|base|] == ins;
    ConsumersNone(InputLists(base1), |base|);
    forall p ensures Uses([], |base1|, p) == [] { UsesNone([], |base1|, p); }
    forall p | 0 <= p < |base1|
      ensures (nodes + [node])[p] == base1[p].(outputs := Consumers(InputLists(base1), p) + Uses([], |base1|, p))
    {
      if p < |base| { assert Consumers(InputLists(base1), p) == Consumers(ins, p) + Uses(node.inputs, |base|, p); }
    }
  }

  lemma {:induction false} NoneStays(v: JsonVal, i: nat, k: nat)
    requires i <= k <= |Items(Field(v, "nodes"))| && ReadNodes(v, i).None?
    ensures ReadNodes(v, k).None?
    decreases k
  {
    hide ReadGraph, ReadGraphs, InputsOk, ReadInputs, ReadStrings;
    if i < k { NoneStays(v, i, k - 1); }
  }

  method SubgraphsFromJson(x: JsonVal) returns (r: Option<seq<Graph>>)
    ensures r == ReadGraphs(x, |Items(Field(x, "subgraphs"))|)
    decreases x, 0
  {
    hide ReadGraph;
    var list := Items(Field(x, "subgraphs"));
    var graphs: seq<Graph> := [];
    for s := 0 to |list|
      invariant ReadGraphs(x, s) == Some(graphs)
    {
      var sub := FromJson(list[s]);
      if sub.None? {
        SubgraphNoneStays(x, s + 1, |list|);
        return None;
      }
      graphs := graphs + [sub.value];
    }
    r := Some(graphs);
  }

  lemma {:induction false} SubgraphNoneStays(x: JsonVal, i: nat, k: nat)
    requires i <= k <= |Items(Field(x, "subgraphs"))| && ReadGraphs(x, i).None?
    ensures ReadGraphs(x, k).None?
    decreases k
  {
    if i < k { SubgraphNoneStays(x, i, k - 1); }
  }

  /** Connects the inputs of the node about to be added to the nodes built so far. */
  method ConnectInputs(x: JsonVal, before: seq<Node>, ghost base: seq<Node>)
    returns (ok: bool, inputs: seq<Entry>, nodes: seq<Node>)
    requires Connected(before, base, [])
    ensures ok == InputsOk(x, |before|)
    ensures ok ==> inputs == ReadInputs(x, |before|) && Connected(nodes, base, inputs)
  {
    hide Connected;
    var list := Items(Field(x, "inputs"));
    ok, inputs, nodes := true, [], before;
    for j := 0 to |list|
      invariant |inputs| == j && |nodes| == |before| && Connected(nodes, base, inputs)
      invariant forall k | 0 <= k < j :: InputOk(list[k], |before|) && inputs[k] == ReadEntry(list[k])
    {
      var input := Items(list[j]);
      if |input| < 2 || !(0 <= NumOf(input[0]) < |nodes|) {
        assert !InputOk(list[j], |before|);
        return false, inputs, nodes;
      }
      var entry := Entry(NumOf(input[0]), NumOf(input[1]));
      var other := nodes[entry.node];
      ConnectStep(nodes, base, inputs, entry);
      nodes := nodes[entry.node := other.(outputs := other.outputs + [Entry(|nodes|, j)])];
      inputs := inputs + [entry];
      ConnectedLength(nodes, base, inputs);
    }
  }

  lemma ConnectedLength(nodes: seq<Node>, base: seq<Node>, done: seq<Entry>)
    requires Connected(nodes, base, done)
    ensures |nodes| == |base|
  {
  }

  /** The loop of `fromJson` over the nodes. */
  method NodesFromJson(v: JsonVal) returns (ok: bool, nodes: seq<Node>, inputs: seq<nat>)
    ensures var base := ReadNodes(v, |Items(Field(v, "nodes"))|);
      ok == base.Some? && (ok ==> nodes == WithOutputs(base.value) && inputs == NullNodes(base.value))
    decreases v, 1
  {
    hide Connected, Backward, InputsOk, ReadInputs, ReadGraphs, ReadStrings, WithOutputs;
    var list := Items(Field(v, "nodes"));
    nodes, inputs := [], [];
    ghost var base: seq<Node> := [];
    NoneConnected();
    for i := 0 to |list|
      invariant |nodes| == i && ReadNodes(v, i) == Some(base) && inputs == NullNodes(base)
      invariant Connected(nodes, base, []) && Backward(base)
    {
      var x := list[i];
      var op, name := StrOf(Field(x, "op")), StrOf(Field(x, "name"));
      if op == "null" {
        inputs := inputs + [i];
      }
      var attrs := ReadStrings(Field(x, "attrs"));
      var subgraphs := SubgraphsFromJson(x);
      var connectable, entries, connected := ConnectInputs(x, nodes, base);
      if subgraphs.None? || !connectable {
        NoneStays(v, i + 1, |list|);
        return false, nodes, inputs;
      }
      var node := Node(op, name, entries, [], subgraphs.value, attrs);
      EntriesBackward(x, i);
      ConnectNode(connected, base, node);
      ConnectedLength(connected, base, entries);
      nodes := connected + [node];
      assert (base + [node])[..|base|] == base;
      base := base + [node];
    }
    AllConnected(nodes, base);
    ok := true;
  }

  method HeadsFromJson(v: JsonVal, count: nat) returns (ok: bool, outputs: seq<Entry>)
    ensures var heads := Items(Field(v, "heads"));
      && ok == HeadsOk(v)
      && (ok ==> |outputs| == |heads| && forall k | 0 <= k < |heads| :: outputs[k] == ReadHead(heads[k], count))
  {
    var heads := Items(Field(v, "heads"));
    ok, outputs := true, [];
    for i := 0 to |heads|
      invariant |outputs| == i
      invariant forall k | 0 <= k < i :: |Items(heads[k])| >= 2 && outputs[k] == ReadHead(heads[k], count)
    {
      if |Items(heads[i])| < 2 { return false, outputs; }
      outputs := outputs + [ReadHead(heads[i], count)];
    }
  }

  /** `Graph::fromJson`; `None` where the source dereferences a null pointer or reads past a list. */
  method FromJson(v: JsonVal) returns (r: Option<Graph>)
    ensures r == ReadGraph(v)
    decreases v, 2
  {
    hide ReadNodes, HeadsOk, ReadHead, NullNodes;
    var ok, nodes, inputs := NodesFromJson(v);
    if !ok { return None; }
    var okHeads, outputs := HeadsFromJson(v, |nodes|);
    if !okHeads { return None; }
    r := Some(Graph(nodes, inputs, outputs, if v.Map? then v.entries - RESERVED else map[]));
    assert outputs == ReadGraph(v).value.outputs;
  }

  lemma NoneConnected()
    ensures Connected([], [], []) && Backward([])
  {
  }

  lemma AllConnected(nodes: seq<Node>, base: seq<Node>)
    requires Connected(nodes, base, [])
    ensures nodes == WithOutputs(base)
  {
    forall p | 0 <= p < |nodes| ensures nodes[p] == WithOutputs(base)[p] {
      assert Consumers(InputLists(base), p) + Uses([], |base|, p) == Consumers(InputLists(base), p);
    }
  }

  lemma EntriesBackward(x: JsonVal, i: nat)
    requires InputsOk(x, i)
    ensures forall j | 0 <= j < |ReadInputs(x, i)| :: ReadInputs(x, i)[j].node < i
  {
  }

  /** `Graph::fromString`, on a text whose brackets do not mismatch. */
  method FromString(json: string) returns (r: Option<Graph>)
    requires !Mismatch(json, 0, [])
    ensures r == FromText(json)
  {
    var parsed := ParseText(json);
    if parsed == OutOfRange { return None; }
    r := FromJson(parsed.v);
  }

  /** A pass that loads what another one saved works on the same graph. */
  method SaveAndLoad(g: Graph) returns (h: Graph)
    requires Serializable(g) && Writable(g)
    ensures Isomorphic(g, h) && Evaluable(g) && Evaluable(h) && Meaning(g) == Meaning(h)
  {
    hide *;
    var text := ToString(g);
    ghost var v :| Emits(g, v) && text == Dump(v);
    TextRoundTrip(g, v);
    LoadableText(text);
    var loaded := FromString(text);
    h := loaded.value;
  }

  lemma LoadableText(text: string)
    requires FromText(text).Some?
    ensures !Mismatch(text, 0, [])
  {
    HangExactlyOnMismatch(text);
  }
}
