/** What `Graph::fromJson` does with an arbitrary JSON value: on which values it builds a graph, and
    how every part of that graph is read off the value. */
module GraphReading {
  import opened JsonValue
  import opened GraphSort
  import opened GraphJson
  import opened GraphRoundTrip

  /** The string stored in a value: a number keeps its digits, anything else has none. */
  predicate IsText(t: string, v: JsonVal) {
    match v
    case Str(s) => t == s
    case Num(_, digits) => t == digits
    case _ => t == ""
  }

  /** The number stored in a value; -1 when it has none. */
  predicate IsNumberOf(n: int, v: JsonVal) { if v.Num? then n == v.num else n == -1 }

  predicate EntryReads(x: JsonVal, e: Entry) {
    |Items(x)| >= 2 && IsNumberOf(e.node, Items(x)[0]) && IsNumberOf(e.entry, Items(x)[1])
  }

  predicate StringsRead(v: JsonVal, attrs: map<string, string>) {
    if v.Map? then attrs.Keys == v.entries.Keys && forall k | k in attrs :: IsText(attrs[k], v.entries[k])
    else attrs == map[]
  }

  /** Node `i` is read off `x`: its inputs name earlier nodes. */
  ghost predicate NodeReads(x: JsonVal, n: Node, i: nat) {
    var xs, subs := Items(Field(x, "inputs")), Items(Field(x, "subgraphs"));
    && IsText(n.op, Field(x, "op")) && IsText(n.name, Field(x, "name"))
    && StringsRead(Field(x, "attrs"), n.attrs)
    && |n.inputs| == |xs|
    && (forall j | 0 <= j < |xs| :: EntryReads(xs[j], n.inputs[j]) && 0 <= n.inputs[j].node < i)
    && |n.subgraphs| == |subs|
    && (forall s | 0 <= s < |subs| :: ReadGraph(subs[s]) == Some(n.subgraphs[s]))
  }

  /** A head that names no node is kept as a null reference. */
  predicate HeadReads(x: JsonVal, e: Entry, count: nat) {
    && |Items(x)| >= 2 && IsNumberOf(e.entry, Items(x)[1])
    && var n := Items(x)[0];
       if n.Num? && 0 <= n.num < count then e.node == n.num else e.node == -1
  }

  /** By consumer, then by input; in particular without repeats. */
  predicate InOrder(es: seq<Entry>) {
    forall a, b | 0 <= a < b < |es| ::
      es[a].node < es[b].node || (es[a].node == es[b].node && es[a].entry < es[b].entry)
  }

  ghost predicate GraphReads(v: JsonVal, h: Graph) {
    var xs, heads := Items(Field(v, "nodes")), Items(Field(v, "heads"));
    && |h.nodes| == |xs|
    && (forall i | 0 <= i < |xs| :: NodeReads(xs[i], h.nodes[i], i))
    && (forall p, n, j | IsNode(h, p) :: Entry(n, j) in h.nodes[p].outputs <==> UsesInput(h, n, j, p))
    && (forall p | IsNode(h, p) :: InOrder(h.nodes[p].outputs))
    && (forall a, b | 0 <= a < b < |h.inputs| :: h.inputs[a] < h.inputs[b])
    && (forall n :: n in h.inputs <==> IsNode(h, n) && h.nodes[n].op == "null")
    && |h.outputs| == |heads|
    && (forall i | 0 <= i < |heads| :: HeadReads(heads[i], h.outputs[i], |xs|))
    && h.attrs == if v.Map? then v.entries - {"nodes", "heads", "node_row_ptr", "arg_nodes"} else map[]
  }

  /** An input names an earlier node. */
  predicate NamesEarlier(x: JsonVal, i: nat) {
    |Items(x)| >= 2 && Items(x)[0].Num? && 0 <= Items(x)[0].num < i
  }

  ghost predicate NodeReadable(x: JsonVal, i: nat) {
    var xs, subs := Items(Field(x, "inputs")), Items(Field(x, "subgraphs"));
    && (forall j | 0 <= j < |xs| :: NamesEarlier(xs[j], i))
    && (forall s | 0 <= s < |subs| :: ReadGraph(subs[s]).Some?)
  }

  /** Every input names an earlier node, every head is a pair, every subgraph can be read. */
  ghost predicate Readable(v: JsonVal) {
    var xs, heads := Items(Field(v, "nodes")), Items(Field(v, "heads"));
    && (forall i | 0 <= i < |xs| :: NodeReadable(xs[i], i))
    && (forall i | 0 <= i < |heads| :: |Items(heads[i])| >= 2)
  }

  lemma {:induction false} SubgraphsRead(x: JsonVal, k: nat)
    requires k <= |Items(Field(x, "subgraphs"))|
    ensures var subs, r := Items(Field(x, "subgraphs")), ReadGraphs(x, k);
      && (r.Some? <==> forall s | 0 <= s < k :: ReadGraph(subs[s]).Some?)
      && (r.Some? ==> forall s | 0 <= s < k :: ReadGraph(subs[s]) == Some(r.value[s]))
    decreases k
  {
    hide ReadGraph;
    if k > 0 { SubgraphsRead(x, k - 1); }
  }

  lemma InputsReadable(x: JsonVal, i: nat)
    ensures InputsOk(x, i) <==> forall j | 0 <= j < |Items(Field(x, "inputs"))| :: NamesEarlier(Items(Field(x, "inputs"))[j], i)
  {
    var xs := Items(Field(x, "inputs"));
    forall j | 0 <= j < |xs| ensures InputOk(xs[j], i) <==> NamesEarlier(xs[j], i) {
    }
  }

  /** The nodes before their outputs are filled in. */
  lemma {:induction false} NodesReadOff(v: JsonVal, k: nat)
    requires k <= |Items(Field(v, "nodes"))|
    ensures var xs, r := Items(Field(v, "nodes")), ReadNodes(v, k);
      && (r.Some? <==> forall i | 0 <= i < k :: NodeReadable(xs[i], i))
      && (r.Some? ==> forall i | 0 <= i < k :: NodeReads(xs[i], r.value[i], i))
    decreases k
  {
    hide ReadGraph, ReadGraphs, InputsOk, ReadInputs, ReadStrings, NodeReads, NodeReadable;
    if k > 0 {
      NodesReadOff(v, k - 1);
      var x, i := Items(Field(v, "nodes"))[k - 1], k - 1;
      NodeReadableWhen(x, i);
      if ReadNodes(v, k).Some? { NodeReadOff(x, ReadNodes(v, k).value[i], i); }
    }
  }

  lemma NodeReadableWhen(x: JsonVal, i: nat)
    ensures NodeReadable(x, i) <==> InputsOk(x, i) && ReadGraphs(x, |Items(Field(x, "subgraphs"))|).Some?
  {
    hide ReadGraph, ReadGraphs, InputsOk;
    InputsReadable(x, i);
    SubgraphsRead(x, |Items(Field(x, "subgraphs"))|);
  }

  lemma NodeReadOff(x: JsonVal, n: Node, i: nat)
    requires InputsOk(x, i) && ReadGraphs(x, |Items(Field(x, "subgraphs"))|).Some?
    requires n == Node(StrOf(Field(x, "op")), StrOf(Field(x, "name")), ReadInputs(x, i), [],
                       ReadGraphs(x, |Items(Field(x, "subgraphs"))|).value, ReadStrings(Field(x, "attrs")))
    ensures NodeReads(x, n, i)
  {
    hide ReadGraph, ReadGraphs;
    SubgraphsRead(x, |Items(Field(x, "subgraphs"))|);
  }

  lemma {:induction false} UsesInOrder(es: seq<Entry>, n: nat, p: int)
    ensures InOrder(Uses(es, n, p))
    decreases |es|
  {
    if es != [] {
      UsesInOrder(es[..|es| - 1], n, p);
      var before := Uses(es[..|es| - 1], n, p);
      UsesMembers(es[..|es| - 1], n, p);
      assert forall a | 0 <= a < |before| :: before[a] in before;
    }
  }

  lemma {:induction false} ConsumersInOrder(ins: seq<seq<Entry>>, p: int)
    ensures InOrder(Consumers(ins, p))
    decreases |ins|
  {
    if ins != [] {
      var l := |ins| - 1;
      var before, last := Consumers(ins[..l], p), Uses(ins[l], l, p);
      ConsumersInOrder(ins[..l], p);
      ConsumersMembers(ins[..l], p);
      UsesInOrder(ins[l], l, p);
      UsesMembers(ins[l], l, p);
      assert forall a | 0 <= a < |before| :: before[a] in before;
      assert forall a | 0 <= a < |last| :: last[a] in last;
    }
  }

  /** On every JSON value: `fromJson` builds a graph exactly when the value is readable, and then
      every node, edge, head and attribute is the one written. */
  lemma GraphReadOff(v: JsonVal)
    ensures ReadGraph(v).Some? <==> Readable(v)
    ensures ReadGraph(v).Some? ==> GraphReads(v, ReadGraph(v).value)
  {
    hide ReadNodes, NodeReadable, NodeReads, Consumers, NullNodes;
    NodesReadOff(v, |Items(Field(v, "nodes"))|);
    if ReadGraph(v).Some? {
      var nodes, h := ReadNodes(v, |Items(Field(v, "nodes"))|).value, ReadGraph(v).value;
      OutputsReadOff(nodes, h);
      NullNodesMembers(nodes);
      forall i | 0 <= i < |nodes| ensures NodeReads(Items(Field(v, "nodes"))[i], h.nodes[i], i) {
        OutputsDoNotMatter(Items(Field(v, "nodes"))[i], nodes[i], h.nodes[i].outputs, i);
      }
    }
  }

  lemma OutputsDoNotMatter(x: JsonVal, n: Node, outputs: seq<Entry>, i: nat)
    requires NodeReads(x, n, i)
    ensures NodeReads(x, n.(outputs := outputs), i)
  {
    hide ReadGraph;
  }

  lemma OutputsReadOff(nodes: seq<Node>, h: Graph)
    requires h.nodes == WithOutputs(nodes)
    ensures forall p, n, j | IsNode(h, p) :: Entry(n, j) in h.nodes[p].outputs <==> UsesInput(h, n, j, p)
    ensures forall p | IsNode(h, p) :: InOrder(h.nodes[p].outputs)
  {
    hide Consumers, NoRepeats, InOrder;
    forall p | IsNode(h, p)
      ensures InOrder(h.nodes[p].outputs)
      ensures forall n, j :: Entry(n, j) in h.nodes[p].outputs <==> UsesInput(h, n, j, p)
    {
      ConsumersMembers(InputLists(nodes), p);
      ConsumersInOrder(InputLists(nodes), p);
    }
  }
}
