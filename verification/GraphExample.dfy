/** A small graph that meets the conditions of the round-trip theorems. */
module GraphExample {
  import opened JsonValue
  import opened JsonGrammar
  import opened GraphSort
  import opened GraphJson
  import opened GraphRoundTrip
  import opened GraphText

  /** One operator applied to one input. */
  const ReluGraph := Graph(
    [Node("null", "x", [], [Entry(1, 0)], [], map[]),
     Node("relu", "y", [Entry(0, 0)], [], [], map[])],
    [0], [Entry(1, 0)], map[])

  lemma ReluConsistent()
    ensures Consistent(ReluGraph)
  {
    var g := ReluGraph;
    assert g.nodes[0].outputs == [Entry(1, 0)] && g.nodes[1].outputs == [];
    assert g.nodes[0].inputs == [] && g.nodes[1].inputs == [Entry(0, 0)];
    forall p, n, j | IsNode(g, p) ensures Entry(n, j) in g.nodes[p].outputs <==> UsesInput(g, n, j, p) {
      assert p == 0 || p == 1;
    }
  }

  lemma ReluAcyclic()
    ensures Acyclic(ReluGraph)
  {
    var g, s := ReluGraph, [1, 0];
    assert s[..0] == [] && s[..1] == [1];
    forall k, o | 0 <= k < |s| && Feeds(g, s[k], o) ensures o in s[..k] {
      assert g.nodes[0].outputs == [Entry(1, 0)] && g.nodes[1].outputs == [];
    }
    OrderedMeansAcyclic(g, s);
  }

  lemma ReluWritable()
    ensures Writable(ReluGraph)
  {
    assert StringOk("null") && StringOk("x") && StringOk("relu") && StringOk("y");
    assert NodeWritable(ReluGraph.nodes[0]) && NodeWritable(ReluGraph.nodes[1]);
  }

  lemma ReluGraphQualifies()
    ensures Serializable(ReluGraph) && Writable(ReluGraph)
  {
    hide Consistent, Acyclic, Writable;
    ReluConsistent();
    ReluAcyclic();
    ReluWritable();
    assert 0 in ReluGraph.inputs && 1 !in ReluGraph.inputs;
  }
}
