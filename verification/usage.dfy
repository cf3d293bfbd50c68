/**
 * The usage example of `+` in lib/micrograd/value.rb, traced as the
 * visualiser would trace it.
 */
module Usage {
  import opened Micrograd
  import opened Viz

  /**
   * `a = Value.new(-4.0)`, `b = Value.new(2.0)`, `c = a + b`, then
   * `trace(c)`: the sum holds -2.0 over the two leaves, and the trace finds
   * the sum first, then the two leaves, with one edge from each leaf into
   * the sum.
   */
  method TraceSum() returns (a: Value, b: Value, c: Value, nodes: seq<Value>, edges: seq<Edge>)
    ensures a.IsLeaf() && b.IsLeaf() && a != b
    ensures c.data == -2.0 && c.previous == [a, b] && c.operation == "+" && c.gradient == 0.0
    ensures |nodes| == 3 && nodes[0] == c && Seen(nodes) == {c, a, b}
    ensures edges == [Edge(a, c), Edge(b, c)]
  {
    a := new Value(-4.0);
    b := new Value(2.0);
    c := a.AddPromoting(Node(b));
    assert c.previous == [a, b];
    nodes, edges := Trace(c, {a, b, c});
    SumNodes(a, b, c, nodes);
    SumEdges(a, b, c, nodes, edges);
  }

  /** The nodes traced from a sum of two distinct leaves. */
  lemma SumNodes(a: Value, b: Value, c: Value, nodes: seq<Value>)
    requires a.previous == [] && b.previous == [] && c.previous == [a, b] && a != b
    requires Distinct(nodes) && forall v :: v in nodes <==> Reaches({a, b, c}, c, v)
    ensures |nodes| == 3 && Seen(nodes) == {c, a, b}
  {
    var G := {a, b, c};
    assert PathIn([c, a], G) && PathIn([c, b], G) && PathIn([c], G);
    assert Reaches(G, c, a) && Reaches(G, c, b) && Reaches(G, c, c);
    assert Seen(nodes) == {c, a, b};
    DistinctCardinality(nodes);
  }

  /** The edges traced from a sum of two distinct leaves. */
  lemma SumEdges(a: Value, b: Value, c: Value, nodes: seq<Value>, edges: seq<Edge>)
    requires a.previous == [] && b.previous == [] && c.previous == [a, b]
    requires Seen(nodes) == {c, a, b}
    requires forall v <- nodes :: EdgesInto(edges, v) == Links(v.previous, v)
    requires forall e <- edges :: e.parent in nodes
    ensures edges == [Edge(a, c), Edge(b, c)]
  {
    assert a in nodes && b in nodes && c in nodes;
    forall e <- edges
      ensures e.parent == c || e.parent in {a, b}
    {
      assert e.parent in Seen(nodes);
    }
    assert EdgesInto(edges, a) == [] && EdgesInto(edges, b) == [];
    SoleParent(edges, c, {a, b});
    EdgesIntoSelf(edges, c);
    assert Links([a, b], c) == [Edge(a, c), Edge(b, c)];
  }
}
