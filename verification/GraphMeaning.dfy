/** What a graph computes, and that isomorphic graphs compute the same. */
module GraphMeaning {
  import opened JsonValue
  import opened GraphSort
  import opened GraphJson
  import opened GraphRoundTrip

  /** The expression a node stands for: its operator applied to the expressions of its inputs,
      with the expressions of its subgraphs' heads. Any operator semantics is a function of it. */
  datatype Term = Term(op: string, name: string, attrs: map<string, string>, subs: seq<seq<Arg>>, args: seq<Arg>)
  datatype Arg = Arg(term: Term, entry: int)

  /** `rank` goes down from every node to its inputs. */
  ghost predicate RankedBy(g: Graph, rank: seq<nat>) {
    && |rank| == |g.nodes|
    && forall n, j | IsNode(g, n) && 0 <= j < |g.nodes[n].inputs| ::
         IsNode(g, g.nodes[n].inputs[j].node) && rank[g.nodes[n].inputs[j].node] < rank[n]
  }

  ghost predicate Evaluable(g: Graph) {
    && (exists rank :: RankedBy(g, rank))
    && (forall i | 0 <= i < |g.outputs| :: IsNode(g, g.outputs[i].node))
    && forall n, s | IsNode(g, n) && 0 <= s < |g.nodes[n].subgraphs| :: Evaluable(g.nodes[n].subgraphs[s])
  }

  ghost function Rank(g: Graph): (rank: seq<nat>)
    requires Evaluable(g)
    ensures RankedBy(g, rank)
  {
    var rank :| RankedBy(g, rank); rank
  }

  ghost function TermOf(g: Graph, n: nat): Term
    requires Evaluable(g) && n < |g.nodes|
    decreases g, 0, Rank(g)[n]
  {
    var x := g.nodes[n];
    Term(x.op, x.name, x.attrs,
         seq(|x.subgraphs|, s requires 0 <= s < |x.subgraphs| => Meaning(x.subgraphs[s])),
         seq(|x.inputs|, j requires 0 <= j < |x.inputs| => Arg(TermOf(g, x.inputs[j].node), x.inputs[j].entry)))
  }

  /** The heads of a graph, in order. */
  ghost function Meaning(g: Graph): seq<Arg>
    requires Evaluable(g)
    decreases g, 1, 0
  {
    seq(|g.outputs|, i requires 0 <= i < |g.outputs| => Arg(TermOf(g, g.outputs[i].node), g.outputs[i].entry))
  }

  // ----- graphs that can be evaluated -----

  lemma {:induction false} IsomorphicEvaluable(g: Graph, h: Graph)
    requires Isomorphic(g, h) && Evaluable(g)
    ensures Evaluable(h)
  {
    var order :| IsoWith(g, h, order);
    var rank := Rank(g);
    var hrank := seq(|order|, k requires 0 <= k < |order| => rank[order[k]]);
    forall n, j | IsNode(h, n) && 0 <= j < |h.nodes[n].inputs|
      ensures IsNode(h, h.nodes[n].inputs[j].node) && hrank[h.nodes[n].inputs[j].node] < hrank[n]
    {
      assert SameNode(g.nodes[order[n]], h.nodes[n], order);
      assert SameEntry(g.nodes[order[n]].inputs[j], h.nodes[n].inputs[j], order);
      assert IsNode(g, order[n]);
    }
    assert RankedBy(h, hrank);
    forall i | 0 <= i < |h.outputs| ensures IsNode(h, h.outputs[i].node) {
      assert SameEntry(g.outputs[i], h.outputs[i], order);
    }
    forall n, s | IsNode(h, n) && 0 <= s < |h.nodes[n].subgraphs| ensures Evaluable(h.nodes[n].subgraphs[s]) {
      assert SameNode(g.nodes[order[n]], h.nodes[n], order);
      assert IsNode(g, order[n]);
      IsomorphicEvaluable(g.nodes[order[n]].subgraphs[s], h.nodes[n].subgraphs[s]);
    }
  }

  /** The emitted order ranks the nodes of an acyclic graph. */
  lemma SortRanks(g: Graph, sorted: seq<nat>) returns (rank: seq<nat>)
    requires SortResult(g, sorted) && Lists(g, sorted) && Consistent(g) && Acyclic(g)
    ensures RankedBy(g, rank)
  {
    var order := Reverse(sorted);
    EmittedOrder(g, sorted);
    rank := seq(|g.nodes|, n => Position(order, n));
    forall n, j | IsNode(g, n) && 0 <= j < |g.nodes[n].inputs|
      ensures IsNode(g, g.nodes[n].inputs[j].node) && rank[g.nodes[n].inputs[j].node] < rank[n]
    {
      var k :| 0 <= k < |order| && order[k] == n;
      PositionOf(order, k);
      ProducersFirst(g, sorted, k, j);
    }
  }

  lemma {:induction false} SerializableEvaluable(g: Graph, v: JsonVal)
    requires Emits(g, v) && Serializable(g)
    ensures Evaluable(g)
    decreases g
  {
    hide Acyclic, SortResult, RankedBy, GraphValue, Emits;
    assert exists sorted, subs :: EmitsWith(g, v, sorted, subs) by { EmitsUnfolds(g, v); }
    var sorted, subs :| EmitsWith(g, v, sorted, subs);
    var rank := SortRanks(g, sorted);
    forall n, s | IsNode(g, n) && 0 <= s < |g.nodes[n].subgraphs| ensures Evaluable(g.nodes[n].subgraphs[s]) {
      assert SubsEmitted(g.nodes[n], subs[n]);
      SerializableEvaluable(g.nodes[n].subgraphs[s], subs[n][s]);
    }
  }

  lemma EmitsUnfolds(g: Graph, v: JsonVal)
    requires Emits(g, v)
    ensures exists sorted, subs :: EmitsWith(g, v, sorted, subs)
  {
  }

  // ----- renumbering does not change the meaning -----

  lemma {:induction false} SameTerm(g: Graph, h: Graph, order: seq<nat>, k: nat)
    requires IsoWith(g, h, order) && Evaluable(g) && Evaluable(h) && k < |order|
    ensures TermOf(g, order[k]) == TermOf(h, k)
    decreases g, 0, Rank(h)[k]
  {
    var gn, hn := g.nodes[order[k]], h.nodes[k];
    assert SameNode(gn, hn, order);
    assert IsNode(g, order[k]) && IsNode(h, k);
    forall s | 0 <= s < |gn.subgraphs| ensures Meaning(gn.subgraphs[s]) == Meaning(hn.subgraphs[s]) {
      IsomorphicSameMeaning(gn.subgraphs[s], hn.subgraphs[s]);
    }
    forall j | 0 <= j < |gn.inputs|
      ensures 0 <= hn.inputs[j].node < |order|
      ensures TermOf(g, gn.inputs[j].node) == TermOf(h, hn.inputs[j].node) && gn.inputs[j].entry == hn.inputs[j].entry
    {
      assert SameEntry(gn.inputs[j], hn.inputs[j], order);
      SameTerm(g, h, order, hn.inputs[j].node);
    }
    assert TermOf(g, order[k]).subs == TermOf(h, k).subs;
    assert TermOf(g, order[k]).args == TermOf(h, k).args;
  }

  lemma {:induction false} IsomorphicSameMeaning(g: Graph, h: Graph)
    requires Isomorphic(g, h) && Evaluable(g) && Evaluable(h)
    ensures Meaning(g) == Meaning(h)
    decreases g, 1, 0
  {
    var order :| IsoWith(g, h, order);
    forall i | 0 <= i < |g.outputs|
      ensures 0 <= h.outputs[i].node < |order|
      ensures TermOf(g, g.outputs[i].node) == TermOf(h, h.outputs[i].node) && g.outputs[i].entry == h.outputs[i].entry
    {
      assert SameEntry(g.outputs[i], h.outputs[i], order);
      SameTerm(g, h, order, h.outputs[i].node);
    }
    assert Meaning(g) == Meaning(h);
  }
}
