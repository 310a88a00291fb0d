/** What an emitted graph value holds, field by field, whether or not `fromJson` reads the field. */
module GraphEmitted {
  import opened JsonValue
  import opened JsonStrict
  import opened GraphSort
  import opened GraphJson
  import opened GraphRoundTrip

  /** `x` is the number `n`, written in plain decimal notation. */
  predicate IsNumber(x: JsonVal, n: int) { x.Num? && x.num == n && IsDecimal(x.digits, n) }

  /** `x` is the index at which node `n` is emitted, or 0 when `n` is no node of the graph. */
  predicate IsIndexOf(x: JsonVal, n: int, order: seq<nat>) {
    && x.Num? && IsNumber(x, x.num)
    && if n in order then 0 <= x.num < |order| && order[x.num] == n else x.num == 0
  }

  /** `x` is the triple of the producer's index, its output number, and 0. */
  predicate IsReference(x: JsonVal, e: Entry, order: seq<nat>) {
    && x.List? && |x.list| == 3
    && IsIndexOf(x.list[0], e.node, order) && IsNumber(x.list[1], e.entry) && IsNumber(x.list[2], 0)
  }

  predicate IsReferences(x: JsonVal, es: seq<Entry>, order: seq<nat>) {
    x.List? && |x.list| == |es| && forall i | 0 <= i < |es| :: IsReference(x.list[i], es[i], order)
  }

  predicate IsStrings(x: JsonVal, attrs: map<string, string>) {
    x.Map? && x.entries.Keys == attrs.Keys && forall k | k in attrs :: x.entries[k] == Str(attrs[k])
  }

  /** `x` is node `n` with its subgraphs emitted as `subs`. */
  predicate IsNodeValue(x: JsonVal, n: Node, order: seq<nat>, subs: seq<JsonVal>) {
    && x.Map?
    && x.entries.Keys == {"op", "name", "inputs", "attrs"} + (if n.subgraphs == [] then {} else {"subgraphs"})
    && x.entries["op"] == Str(n.op) && x.entries["name"] == Str(n.name)
    && IsReferences(x.entries["inputs"], n.inputs, order) && IsStrings(x.entries["attrs"], n.attrs)
    && (n.subgraphs != [] ==> x.entries["subgraphs"] == List(subs))
  }

  // ----- numbers and references -----

  lemma IntIsNumber(n: int)
    ensures IsNumber(FromInt(n), n)
  {
    IntText(n);
  }

  lemma {:induction false} UnknownNode(order: seq<nat>, n: int)
    requires n !in order
    ensures Position(order, n) == 0
    decreases |order|
  {
    if order != [] { UnknownNode(order[..|order| - 1], n); }
  }

  lemma IndexEmitted(order: seq<nat>, n: int)
    requires Distinct(order)
    ensures IsIndexOf(FromInt(Position(order, n)), n, order)
  {
    hide Position;
    IntIsNumber(Position(order, n));
    if n in order {
      var k :| 0 <= k < |order| && order[k] == n;
      PositionOf(order, k);
    } else {
      UnknownNode(order, n);
    }
  }

  lemma ReferencesEmitted(order: seq<nat>, es: seq<Entry>)
    requires Distinct(order)
    ensures IsReferences(EntriesJson(order, es), es, order)
  {
    hide FromInt, IsNumber, IsIndexOf;
    forall i | 0 <= i < |es| ensures IsReference(EntryJson(order, es[i]), es[i], order) {
      IndexEmitted(order, es[i].node);
      IntIsNumber(es[i].entry);
      IntIsNumber(0);
    }
  }

  lemma NodeEmitted(order: seq<nat>, n: Node, subs: seq<JsonVal>)
    requires Distinct(order) && |subs| == |n.subgraphs|
    ensures IsNodeValue(NodeJson(order, n, subs), n, order, subs)
  {
    hide IsReferences, EntriesJson;
    ReferencesEmitted(order, n.inputs);
    assert IsStrings(StringsJson(n.attrs), n.attrs);
  }

  // ----- the emitted value -----

  /** The keys of an emitted graph: its attributes, and the four reserved keys, which take precedence. */
  lemma KeysEmitted(g: Graph, v: JsonVal)
    requires Emits(g, v)
    ensures v.Map? && v.entries.Keys == g.attrs.Keys + {"node_row_ptr", "arg_nodes", "heads", "nodes"}
    ensures forall k | k in g.attrs && k !in {"node_row_ptr", "arg_nodes", "heads", "nodes"} :: v.entries[k] == g.attrs[k]
  {
    hide SubsEmitted, SortResult, NodesJson, EntriesJson, IndicesJson, PositionsJson;
  }

  /** The row pointers are the numbers from 0 up to the number of nodes. */
  lemma RowPointersEmitted(g: Graph, v: JsonVal)
    requires Emits(g, v)
    ensures var rows := Field(v, "node_row_ptr");
      rows.List? && |rows.list| == |g.nodes| && forall i | 0 <= i < |g.nodes| :: IsNumber(rows.list[i], i)
  {
    hide SubsEmitted, SortResult, NodesJson, EntriesJson, PositionsJson, FromInt, IsNumber;
    var sorted, subs :| EmitsWith(g, v, sorted, subs);
    assert Field(v, "node_row_ptr") == IndicesJson(|g.nodes|);
    forall i | 0 <= i < |g.nodes| ensures IsNumber(FromInt(i), i) { IntIsNumber(i); }
  }

  /** Arguments, heads and nodes, in an order that lists every node once. */
  lemma ContentsEmitted(g: Graph, v: JsonVal, sorted: seq<nat>, subs: seq<seq<JsonVal>>)
    requires EmitsWith(g, v, sorted, subs)
    ensures var order, args := Reverse(sorted), Field(v, "arg_nodes");
      args.List? && |args.list| == |g.inputs| && forall i | 0 <= i < |g.inputs| :: IsIndexOf(args.list[i], g.inputs[i], order)
    ensures IsReferences(Field(v, "heads"), g.outputs, Reverse(sorted))
    ensures var order, nodes := Reverse(sorted), Field(v, "nodes");
      && nodes.List? && |nodes.list| == |order| == |g.nodes|
      && forall i | 0 <= i < |order| :: IsNodeValue(nodes.list[i], g.nodes[order[i]], order, subs[order[i]])
  {
    hide SubsEmitted, SortResult, EntriesJson, IsReferences, IsIndexOf, IsNodeValue, NodeJson, FromInt, Position;
    var order := Reverse(sorted);
    EmittedOrder(g, sorted);
    assert Field(v, "heads") == EntriesJson(order, g.outputs);
    assert Field(v, "arg_nodes") == PositionsJson(order, g.inputs);
    assert Field(v, "nodes") == List(NodesJson(g, order, subs));
    forall i | 0 <= i < |g.inputs| ensures IsIndexOf(FromInt(Position(order, g.inputs[i])), g.inputs[i], order) {
      IndexEmitted(order, g.inputs[i]);
    }
    ReferencesEmitted(order, g.outputs);
    forall i | 0 <= i < |order|
      ensures IsNodeValue(NodeJson(order, g.nodes[order[i]], subs[order[i]]), g.nodes[order[i]], order, subs[order[i]])
    {
      SubsCount(g.nodes[order[i]], subs[order[i]]);
      NodeEmitted(order, g.nodes[order[i]], subs[order[i]]);
    }
  }
}
