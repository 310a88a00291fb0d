/** Converting a graph to a JSON value (`Graph::toJson`) and back (`Graph::fromJson`). */
module GraphJson {
  import opened JsonValue
  import opened GraphSort

  const RESERVED := {"nodes", "heads", "node_row_ptr", "arg_nodes"}

  // ----- reading JSON fields -----

  /** `v.map[key]`: a missing key yields a default value, of type ERR. */
  function Field(v: JsonVal, key: string): JsonVal {
    if v.Map? && key in v.entries then v.entries[key] else Err
  }

  function Items(v: JsonVal): seq<JsonVal> { if v.List? then v.list else [] }

  function StrOf(v: JsonVal): string { match v case Str(s) => s case Num(_, d) => d case _ => "" }

  function NumOf(v: JsonVal): int { if v.Num? then v.num else -1 }

  // ----- graph to JSON -----

  /** The index of a node in the emitted list; `nodeMap[n]` yields 0 for an unknown node. */
  function Position(order: seq<nat>, n: int): nat {
    if order == [] then 0
    else if order[|order| - 1] == n then |order| - 1
    else Position(order[..|order| - 1], n)
  }

  function Reverse(s: seq<nat>): seq<nat> { seq(|s|, i requires 0 <= i < |s| => s[|s| - 1 - i]) }

  function EntryJson(order: seq<nat>, e: Entry): JsonVal {
    List([FromInt(Position(order, e.node)), FromInt(e.entry), FromInt(0)])
  }

  function EntriesJson(order: seq<nat>, es: seq<Entry>): JsonVal {
    List(seq(|es|, i requires 0 <= i < |es| => EntryJson(order, es[i])))
  }

  function IndicesJson(n: nat): JsonVal { List(seq(n, i => FromInt(i))) }

  function PositionsJson(order: seq<nat>, ns: seq<int>): JsonVal {
    List(seq(|ns|, i requires 0 <= i < |ns| => FromInt(Position(order, ns[i]))))
  }

  function StringsJson(attrs: map<string, string>): JsonVal { Map(map k | k in attrs :: Str(attrs[k])) }

  function NodeJson(order: seq<nat>, n: Node, subs: seq<JsonVal>): JsonVal {
    Map(map["op" := Str(n.op), "name" := Str(n.name),
            "inputs" := EntriesJson(order, n.inputs), "attrs" := StringsJson(n.attrs)]
        + if n.subgraphs == [] then map[] else map["subgraphs" := List(subs)])
  }

  /** Every listed number is a node of `g`. */
  predicate Lists(g: Graph, order: seq<nat>) { forall i | 0 <= i < |order| :: order[i] < |g.nodes| }

  function NodesJson(g: Graph, order: seq<nat>, subs: seq<seq<JsonVal>>): seq<JsonVal>
    requires |subs| == |g.nodes| && Lists(g, order)
  {
    seq(|order|, i requires 0 <= i < |order| => NodeJson(order, g.nodes[order[i]], subs[order[i]]))
  }

  /** The emitted value when nodes are listed in `order` and the subgraphs of node `n` are emitted
      as `subs[n]`. Reserved keys replace attributes of the same name. */
  function GraphValue(g: Graph, order: seq<nat>, subs: seq<seq<JsonVal>>): JsonVal
    requires |subs| == |g.nodes| && Lists(g, order)
  {
    Map(g.attrs + map[
      "node_row_ptr" := IndicesJson(|g.nodes|),
      "arg_nodes" := PositionsJson(order, g.inputs),
      "heads" := EntriesJson(order, g.outputs),
      "nodes" := List(NodesJson(g, order, subs))])
  }

  /** `v` is a value `toJson` may return for `g`, given the freedom of the topological sort. */
  ghost predicate Emits(g: Graph, v: JsonVal)
    decreases g, 1
  {
    exists sorted, subs :: EmitsWith(g, v, sorted, subs)
  }

  ghost predicate EmitsWith(g: Graph, v: JsonVal, sorted: seq<nat>, subs: seq<seq<JsonVal>>)
    decreases g, 0
  {
    && SortResult(g, sorted)
    && Lists(g, sorted)
    && |subs| == |g.nodes|
    && (forall n | 0 <= n < |g.nodes| :: SubsEmitted(g.nodes[n], subs[n]))
    && v == GraphValue(g, Reverse(sorted), subs)
  }

  ghost predicate SubsEmitted(n: Node, subs: seq<JsonVal>)
    decreases n, 2
  {
    |subs| == |n.subgraphs| && forall s | 0 <= s < |subs| :: Emits(n.subgraphs[s], subs[s])
  }

  // ----- JSON to graph -----

  datatype Option<T> = None | Some(value: T)

  /** The consumers of node `p` among the inputs of node `n`. */
  function Uses(es: seq<Entry>, n: nat, p: int): seq<Entry> {
    if es == [] then []
    else Uses(es[..|es| - 1], n, p) + if es[|es| - 1].node == p then [Entry(n, |es| - 1)] else []
  }

  /** The consumers of node `p`, in node and input order: the inverse of all input lists. */
  function Consumers(ins: seq<seq<Entry>>, p: int): seq<Entry> {
    if ins == [] then [] else Consumers(ins[..|ins| - 1], p) + Uses(ins[|ins| - 1], |ins| - 1, p)
  }

  function ReadEntry(x: JsonVal): Entry
    requires |Items(x)| >= 2
  {
    Entry(NumOf(Items(x)[0]), NumOf(Items(x)[1]))
  }

  /** An input of node `i` must name an earlier node: the pointer of any other is not set yet. */
  predicate InputOk(x: JsonVal, i: nat) { |Items(x)| >= 2 && 0 <= NumOf(Items(x)[0]) < i }

  predicate InputsOk(node: JsonVal, i: nat) {
    var xs := Items(Field(node, "inputs"));
    forall j | 0 <= j < |xs| :: InputOk(xs[j], i)
  }

  function ReadInputs(node: JsonVal, i: nat): seq<Entry>
    requires InputsOk(node, i)
  {
    var xs := Items(Field(node, "inputs"));
    seq(|xs|, j requires 0 <= j < |xs| => ReadEntry(xs[j]))
  }

  function ReadStrings(v: JsonVal): map<string, string> {
    if v.Map? then map k | k in v.entries :: StrOf(v.entries[k]) else map[]
  }

  /** A head that names no node gets a null pointer, written -1. */
  function ReadHead(x: JsonVal, count: nat): Entry
    requires |Items(x)| >= 2
  {
    var e := ReadEntry(x);
    if 0 <= e.node < count then e else Entry(-1, e.entry)
  }

  predicate HeadsOk(v: JsonVal) {
    var xs := Items(Field(v, "heads"));
    forall j | 0 <= j < |xs| :: |Items(xs[j])| >= 2
  }

  /** The first `k` nodes, before any output list is filled; `None` when building them
      dereferences a null pointer or reads past the end of a list. */
  function ReadNodes(v: JsonVal, k: nat): (r: Option<seq<Node>>)
    requires k <= |Items(Field(v, "nodes"))|
    ensures r.Some? ==> |r.value| == k
    decreases v, 0, k
  {
    if k == 0 then Some([])
    else
      var x := Items(Field(v, "nodes"))[k - 1];
      var before, subs := ReadNodes(v, k - 1), ReadGraphs(x, |Items(Field(x, "subgraphs"))|);
      if before.None? || subs.None? || !InputsOk(x, k - 1) then None
      else Some(before.value + [Node(StrOf(Field(x, "op")), StrOf(Field(x, "name")), ReadInputs(x, k - 1), [],
                                     subs.value, ReadStrings(Field(x, "attrs")))])
  }

  /** The first `k` subgraphs of the node value `x`. */
  function ReadGraphs(x: JsonVal, k: nat): (r: Option<seq<Graph>>)
    requires k <= |Items(Field(x, "subgraphs"))|
    ensures r.Some? ==> |r.value| == k
    decreases x, 0, k
  {
    if k == 0 then Some([])
    else
      var before, last := ReadGraphs(x, k - 1), ReadGraph(Items(Field(x, "subgraphs"))[k - 1]);
      if before.None? || last.None? then None else Some(before.value + [last.value])
  }

  function InputLists(nodes: seq<Node>): seq<seq<Entry>> {
    seq(|nodes|, n requires 0 <= n < |nodes| => nodes[n].inputs)
  }

  function WithOutputs(nodes: seq<Node>): seq<Node> {
    seq(|nodes|, p requires 0 <= p < |nodes| => nodes[p].(outputs := Consumers(InputLists(nodes), p)))
  }

  /** The nodes whose operator is "null", in order: these become the graph's inputs. */
  function NullNodes(nodes: seq<Node>): seq<nat> {
    if nodes == [] then []
    else NullNodes(nodes[..|nodes| - 1]) + if nodes[|nodes| - 1].op == "null" then [|nodes| - 1] else []
  }

  /** What `fromJson` builds from `v`. */
  function ReadGraph(v: JsonVal): Option<Graph>
    decreases v, 1
  {
    var nodes := ReadNodes(v, |Items(Field(v, "nodes"))|);
    if nodes.None? || !HeadsOk(v) then None
    else
      var heads := Items(Field(v, "heads"));
      Some(Graph(WithOutputs(nodes.value), NullNodes(nodes.value),
                 seq(|heads|, i requires 0 <= i < |heads| => ReadHead(heads[i], |nodes.value|)),
                 if v.Map? then v.entries - RESERVED else map[]))
  }
}
