/** The round trip through text: `Graph::toString` followed by `Graph::fromString`. */
module GraphText {
  import opened JsonValue
  import opened JsonParser
  import opened JsonGrammar
  import opened JsonRoundTrip
  import opened JsonTermination
  import opened GraphSort
  import opened GraphJson
  import opened GraphRoundTrip
  import opened GraphMeaning

  // ----- graphs whose text keeps all strings and numbers -----

  predicate EntryOk(e: Entry) { 0 <= e.entry <= INT_MAX }

  predicate StringsOk(attrs: map<string, string>) { forall k | k in attrs :: StringOk(k) && StringOk(attrs[k]) }

  ghost predicate NodeWritable(n: Node) {
    && StringOk(n.op) && StringOk(n.name) && StringsOk(n.attrs)
    && (forall j | 0 <= j < |n.inputs| :: EntryOk(n.inputs[j]))
    && forall s | 0 <= s < |n.subgraphs| :: Writable(n.subgraphs[s])
  }

  ghost predicate Writable(g: Graph) {
    && |g.nodes| <= INT_MAX
    && (forall k | k in g.attrs :: StringOk(k) && Printable(g.attrs[k]))
    && (forall i | 0 <= i < |g.outputs| :: EntryOk(g.outputs[i]))
    && forall n | 0 <= n < |g.nodes| :: NodeWritable(g.nodes[n])
  }

  // ----- an emitted value can be printed -----

  lemma IntPrintable(n: int)
    requires 0 <= n <= INT_MAX
    ensures Printable(FromInt(n))
  {
  }

  lemma {:induction false} PositionBound(order: seq<nat>, n: int)
    ensures Position(order, n) <= |order|
    decreases |order|
  {
    if order != [] { PositionBound(order[..|order| - 1], n); }
  }

  lemma EntriesPrintable(order: seq<nat>, es: seq<Entry>)
    requires |order| <= INT_MAX && forall j | 0 <= j < |es| :: EntryOk(es[j])
    ensures Printable(EntriesJson(order, es))
  {
    forall j | 0 <= j < |es| ensures Printable(EntryJson(order, es[j])) {
      PositionBound(order, es[j].node);
      IntPrintable(Position(order, es[j].node));
      IntPrintable(es[j].entry);
      IntPrintable(0);
    }
  }

  ghost predicate EntriesOk(m: map<string, JsonVal>) { forall k | k in m :: StringOk(k) && Printable(m[k]) }

  lemma EntriesOkPrintable(m: map<string, JsonVal>)
    requires EntriesOk(m)
    ensures Printable(Map(m))
  {
  }

  lemma ListPrintable(xs: seq<JsonVal>)
    requires forall i | 0 <= i < |xs| :: Printable(xs[i])
    ensures Printable(List(xs))
  {
  }

  lemma KeysOk()
    ensures StringOk("op") && StringOk("name") && StringOk("inputs") && StringOk("attrs") && StringOk("subgraphs")
    ensures StringOk("node_row_ptr") && StringOk("arg_nodes") && StringOk("heads") && StringOk("nodes")
  {
  }

  lemma NodeFromParts(order: seq<nat>, n: Node, subs: seq<JsonVal>)
    requires Printable(Str(n.op)) && Printable(Str(n.name)) && Printable(StringsJson(n.attrs))
    requires Printable(EntriesJson(order, n.inputs)) && Printable(List(subs))
    ensures Printable(NodeJson(order, n, subs))
  {
    hide StringOk, EntriesJson, StringsJson, Printable;
    KeysOk();
    EntriesOkPrintable(NodeJson(order, n, subs).entries);
  }

  lemma StringsPrintable(attrs: map<string, string>)
    requires StringsOk(attrs)
    ensures Printable(StringsJson(attrs))
  {
    hide StringOk;
    assert EntriesOk(StringsJson(attrs).entries);
  }

  lemma {:induction false} NodePrintable(order: seq<nat>, n: Node, subs: seq<JsonVal>)
    requires |order| <= INT_MAX && NodeWritable(n) && SubsEmitted(n, subs)
    ensures Printable(NodeJson(order, n, subs))
    decreases n, 1
  {
    hide StringOk, EntriesJson, StringsJson, Emits, Writable, NodeJson;
    assert Printable(Str(n.op)) && Printable(Str(n.name));
    EntriesPrintable(order, n.inputs);
    StringsPrintable(n.attrs);
    forall s | 0 <= s < |subs| ensures Printable(subs[s]) { EmittedPrintable(n.subgraphs[s], subs[s]); }
    ListPrintable(subs);
    NodeFromParts(order, n, subs);
  }

  lemma PositionsPrintable(order: seq<nat>, ns: seq<int>)
    requires |order| <= INT_MAX
    ensures Printable(PositionsJson(order, ns))
  {
    forall i | 0 <= i < |ns| ensures Printable(FromInt(Position(order, ns[i]))) {
      PositionBound(order, ns[i]);
      IntPrintable(Position(order, ns[i]));
    }
  }

  lemma IndicesPrintable(n: nat)
    requires n <= INT_MAX
    ensures Printable(IndicesJson(n))
  {
    forall i | 0 <= i < n ensures Printable(FromInt(i)) { IntPrintable(i); }
  }

  lemma GraphFromParts(g: Graph, order: seq<nat>, subs: seq<seq<JsonVal>>)
    requires Writable(g) && |subs| == |g.nodes| == |order| && Lists(g, order)
    requires Printable(List(NodesJson(g, order, subs)))
    ensures Printable(GraphValue(g, order, subs))
  {
    hide StringOk, EntriesJson, NodesJson, NodeWritable, PositionsJson, IndicesJson, Printable;
    KeysOk();
    PositionsPrintable(order, g.inputs);
    IndicesPrintable(|g.nodes|);
    EntriesPrintable(order, g.outputs);
    EntriesOkPrintable(GraphValue(g, order, subs).entries);
  }

  /** Every value emitted for a writable graph survives printing and parsing. */
  lemma {:induction false} EmittedPrintable(g: Graph, v: JsonVal)
    requires Emits(g, v) && Writable(g)
    ensures Printable(v)
    decreases g, 0
  {
    hide NodeJson, Printable, SubsEmitted, SortResult, EntriesOk;
    var sorted, subs :| EmitsWith(g, v, sorted, subs);
    var order := Reverse(sorted);
    EmittedOrder(g, sorted);
    forall i | 0 <= i < |order| ensures Printable(NodesJson(g, order, subs)[i]) {
      NodePrintable(order, g.nodes[order[i]], subs[order[i]]);
    }
    ListPrintable(NodesJson(g, order, subs));
    GraphFromParts(g, order, subs);
  }

  // ----- the round trip -----

  /** `Graph::fromString`; `None` when parsing throws or hangs, or the graph cannot be built. */
  function FromText(json: string): Option<Graph> {
    if Parse(json).Ret? then ReadGraph(Parse(json).v) else None
  }

  /** For every acyclic, consistent graph and every order its nodes may be emitted in, the text
      reads back to an isomorphic graph whose heads compute the same expressions. */
  lemma TextRoundTrip(g: Graph, v: JsonVal)
    requires Emits(g, v) && Serializable(g) && Writable(g)
    ensures FromText(Dump(v)).Some?
    ensures var h := FromText(Dump(v)).value;
      Isomorphic(g, h) && Evaluable(g) && Evaluable(h) && Meaning(g) == Meaning(h)
  {
    hide *;
    EmittedPrintable(g, v);
    PrintableReadsBack(g, v);
    EmittedGraphReadsBack(g, v);
    SerializableEvaluable(g, v);
    var h := FromText(Dump(v)).value;
    IsomorphicEvaluable(g, h);
    IsomorphicSameMeaning(g, h);
  }

  lemma PrintableReadsBack(g: Graph, v: JsonVal)
    requires Printable(v)
    ensures FromText(Dump(v)) == ReadGraph(v)
  {
    hide ReadGraph;
    RoundTripExactly(v);
  }
}
