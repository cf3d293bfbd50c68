/**
 * Graph tracing for the visualiser (lib/micrograd/viz.rb, `Viz.trace`).
 *
 * `trace(root)` walks depth-first from `root` along `previous` links. It
 * keeps a table of the nodes seen so far, keyed by object identity and in
 * first-visit order, and an edge list that gains one `[child, parent]` pair
 * for every child link of every node it visits. Here object identity is
 * reference identity, and the table is the sequence of its values in
 * insertion order: a lookup is membership in that sequence.
 */
module Viz {
  import opened Micrograd

  /** An entry `[child, parent]` of the edge list. */
  datatype Edge = Edge(child: Value, parent: Value)

  /** One edge `[c, parent]` for each entry `c` of `children`, in order. */
  function Links(children: seq<Value>, parent: Value): seq<Edge>
  {
    seq(|children|, i requires 0 <= i < |children| => Edge(children[i], parent))
  }

  /** The links of every node of `ns`, node after node. */
  ghost function AllLinks(ns: seq<Value>): seq<Edge>
    reads ns
  {
    if ns == [] then [] else Links(ns[0].previous, ns[0]) + AllLinks(ns[1..])
  }

  /** The number of child links of the nodes of `ns`, summed. */
  ghost function LinkCount(ns: seq<Value>): nat
    reads ns
  {
    if ns == [] then 0 else |ns[0].previous| + LinkCount(ns[1..])
  }

  /** The edges of `es` whose parent is `v`, in their order in `es`. */
  function EdgesInto(es: seq<Edge>, v: Value): seq<Edge>
  {
    if es == [] then []
    else (if es[0].parent == v then [es[0]] else []) + EdgesInto(es[1..], v)
  }

  /** The nodes of a table, as a set. */
  function Seen(ns: seq<Value>): set<Value>
  {
    set v | v in ns
  }

  /** No node occurs twice. */
  predicate Distinct(ns: seq<Value>)
  {
    forall i, j :: 0 <= i < j < |ns| ==> ns[i] != ns[j]
  }

  /** Every predecessor of a node of `S` is in `S`. */
  ghost predicate Closed(S: set<Value>)
    reads S
  {
    forall v <- S, c <- v.previous :: c in S
  }

  /** `p` is a walk inside `G` whose every step follows a `previous` link. */
  ghost predicate PathIn(older p: seq<Value>, G: set<Value>)
    reads G
  {
    (forall i :: 0 <= i < |p| ==> p[i] in G) &&
    (forall i :: 0 <= i < |p| - 1 ==> p[i + 1] in p[i].previous)
  }

  /** `v` can be reached from `root` by following `previous` links inside `G`. */
  ghost predicate Reaches(G: set<Value>, root: Value, v: Value)
    reads G
  {
    exists p: seq<Value> :: PathIn(p, G) && |p| > 0 && p[0] == root && p[|p| - 1] == v
  }

  /**
   * Each node of `ns` from index `from` on is a predecessor of some node
   * placed before it: it was discovered by following a link.
   */
  ghost predicate Discovered(ns: seq<Value>, from: nat)
    reads ns
  {
    forall i :: from <= i < |ns| ==> DiscoveredAt(ns, i)
  }

  /** The node at index `i` of `ns` is a predecessor of a node placed before it. */
  ghost predicate DiscoveredAt(ns: seq<Value>, i: nat)
    requires i < |ns|
    reads ns
  {
    exists j :: 0 <= j < i && ns[i] in ns[j].previous
  }

  /** Every predecessor of a node of `ns` from index `from` on is in `ns`. */
  ghost predicate LinksInside(ns: seq<Value>, from: nat)
    reads ns
  {
    forall i :: from <= i < |ns| ==> forall c <- ns[i].previous :: c in ns
  }

  /**
   * Grouped by parent, `es` holds exactly the links of the nodes of `ns`,
   * each node's in the order of its `previous`, and no other edge.
   */
  ghost predicate EdgesByParent(es: seq<Edge>, ns: seq<Value>)
    reads ns
  {
    (forall e <- es :: e.parent in ns) &&
    (forall u <- ns :: EdgesInto(es, u) == Links(u.previous, u))
  }

  /**
   * `trace(root)`: the nodes reachable from `root`, each once, in the order
   * the walk first visits them, and one `[child, parent]` edge per child
   * link of each of them. `G` is any set of nodes closed under `previous`
   * that holds `root`, such as the whole object graph; the result does not
   * depend on which. The method has no `modifies` clause: it writes no node.
   */
  method Trace(root: Value, ghost G: set<Value>) returns (nodes: seq<Value>, edges: seq<Edge>)
    requires root in G && Closed(G)
    ensures |nodes| > 0 && nodes[0] == root
    ensures Distinct(nodes) && Discovered(nodes, 1)
    ensures forall v :: v in nodes <==> Reaches(G, root, v)
    ensures forall v <- nodes :: EdgesInto(edges, v) == Links(v.previous, v)
    ensures forall e <- edges :: e.child in nodes && e.parent in nodes
    ensures multiset(edges) == multiset(AllLinks(nodes))
    ensures |edges| == LinkCount(nodes)
    ensures root.previous == [] ==> nodes == [root] && edges == []
  {
    ghost var added, walked;
    nodes, edges, added, walked := Walk(root, [], [], G);
    assert nodes == added && edges == walked;
    ReachesExactly(nodes, G);
    EdgeEnds(nodes, edges);
    AllLinksLength(nodes);
    assert |edges| == |multiset(edges)| == |multiset(AllLinks(nodes))|;
    if root.previous == [] {
      LeafTrace(nodes, G);
    }
  }

  /**
   * The recursive `walk` lambda, with the node table and the edge list it
   * updates threaded through. A node already in the table returns at once;
   * otherwise it is recorded, and each child in turn gets its edge and is
   * walked. `G` is a set of nodes closed under `previous` that holds `v`:
   * the walk stays inside it, and the nodes of `G` not yet in the table
   * shrink at every recursive call, cycles or not. The ghost results
   * `added` and `walked` are what the call appends to the table and to the
   * edge list: `v` first, then only nodes found through the links of nodes
   * the same call added, so all of them reachable from `v`.
   */
  method Walk(v: Value, nodes: seq<Value>, edges: seq<Edge>, ghost G: set<Value>)
    returns (nodes': seq<Value>, edges': seq<Edge>, ghost added: seq<Value>, ghost walked: seq<Edge>)
    requires v in G && Closed(G) && (forall u <- nodes :: u in G)
    requires Distinct(nodes)
    ensures nodes' == nodes + added && edges' == edges + walked
    ensures v in nodes ==> added == [] && walked == []
    ensures v !in nodes ==> added != [] && added[0] == v
    ensures Discovered(added, 1) && (forall u <- added :: Reaches(G, v, u))
    ensures Distinct(nodes') && (forall u <- nodes' :: u in G)
    ensures LinksInside(nodes', |nodes|)
    ensures Discovered(nodes', |nodes| + 1)
    ensures multiset(walked) == multiset(AllLinks(added))
    ensures EdgesByParent(walked, added)
    decreases G - Seen(nodes)
  {
    if v in nodes {
      return nodes, edges, [], [];
    }
    nodes', edges' := nodes + [v], edges;
    var children := v.previous;
    // what this call has added after `v` to the table, and to the edge list
    ghost var later: seq<Value>, recorded: seq<Edge> := [], [];
    ProgressStart(nodes, v, G);
    for k := 0 to |children|
      invariant children == v.previous
      invariant nodes' == nodes + [v] + later && edges' == edges + recorded
      invariant Progress(nodes, v, later, recorded, k, G)
    {
      var child := children[k];
      edges' := edges' + [Edge(child, v)];
      Unvisited(G, nodes, v, later);
      ghost var added', walked';
      nodes', edges', added', walked' := Walk(child, nodes', edges', G);
      ProgressStep(nodes, v, later, recorded, k, G, added', walked');
      ConcatAssoc(nodes + [v], later, added');
      ConcatAssoc(edges, recorded, [Edge(child, v)]);
      ConcatAssoc(edges, recorded + [Edge(child, v)], walked');
      later, recorded := later + added', recorded + [Edge(child, v)] + walked';
    }
    added, walked := [v] + later, recorded;
    ProgressDone(nodes, v, later, recorded, G);
  }

  /**
   * What the loop over the children of `v` has established once it has
   * handled the first `k` of them: `v` was recorded after `nodes`, the
   * walks of those children recorded `later`, each node of it found from
   * `v` or from an earlier node of `later`, and appended `recorded` to the
   * edge list.
   */
  ghost predicate Progress(nodes: seq<Value>, v: Value, later: seq<Value>, recorded: seq<Edge>,
                           k: nat, G: set<Value>)
    reads v, nodes, later
  {
    k <= |v.previous| &&
    TableSoFar(nodes + [v] + later, |nodes| + 1, v.previous[..k], G) &&
    Discovered([v] + later, 1) &&
    multiset(recorded) == multiset(Links(v.previous[..k], v)) + multiset(AllLinks(later)) &&
    EdgesSoFar(recorded, v, v.previous[..k], later)
  }

  /**
   * The node table of a walk in progress: no node twice, all inside `G`,
   * the nodes from index `from` on discovered and with their predecessors
   * recorded, and so are the children of the current node handled so far.
   */
  ghost predicate TableSoFar(table: seq<Value>, from: nat, handled: seq<Value>, G: set<Value>)
    reads table
  {
    Distinct(table) && (forall u <- table :: u in G) &&
    LinksInside(table, from) && Discovered(table, from) &&
    (forall c <- handled :: c in table)
  }

  /**
   * The edges a walk in progress has appended: those into `v` are the links
   * to its children handled so far, those into the nodes recorded after it
   * are all their links, and there are no others.
   */
  ghost predicate EdgesSoFar(recorded: seq<Edge>, v: Value, handled: seq<Value>, later: seq<Value>)
    reads later
  {
    (forall e <- recorded :: e.parent == v || e.parent in later) &&
    EdgesInto(recorded, v) == Links(handled, v) &&
    (forall u <- later :: EdgesInto(recorded, u) == Links(u.previous, u))
  }

  lemma ProgressStart(nodes: seq<Value>, v: Value, G: set<Value>)
    requires v in G && (forall u <- nodes :: u in G)
    requires Distinct(nodes) && v !in nodes
    ensures Progress(nodes, v, [], [], 0, G)
  {
    var table := nodes + [v] + [];
    assert table == nodes + [v];
    assert forall i :: 0 <= i < |nodes| ==> table[i] == nodes[i];
  }

  /** One turn of the loop: the edge to the next child, then the walk of that child. */
  lemma ProgressStep(nodes: seq<Value>, v: Value, later: seq<Value>, recorded: seq<Edge>,
                     k: nat, G: set<Value>, added: seq<Value>, walked: seq<Edge>)
    requires Progress(nodes, v, later, recorded, k, G) && k < |v.previous|
    requires var before, child := nodes + [v] + later, v.previous[k];
      (child in before ==> added == [] && walked == []) &&
      (child !in before ==> added != [] && added[0] == child) &&
      Distinct(before + added) && (forall u <- before + added :: u in G) &&
      LinksInside(before + added, |before|) && Discovered(before + added, |before| + 1) &&
      multiset(walked) == multiset(AllLinks(added)) && EdgesByParent(walked, added) &&
      Discovered(added, 1)
    ensures Progress(nodes, v, later + added, recorded + [Edge(v.previous[k], v)] + walked, k + 1, G)
  {
    var before, child := nodes + [v] + later, v.previous[k];
    var prefix := v.previous[..k];
    ConcatAssoc(nodes + [v], later, added);
    TakeSnoc(v.previous, k);
    DistinctAppend(before, added);
    DistinctAppend(nodes + [v], later);
    assert v in before && forall u <- later :: u in before;
    TableStep(before, added, |nodes|, prefix, child, G);
    OwnStep(v, later, added, child);
    MultisetStep(recorded, child, walked, later, added, v, prefix);
    EdgesStep(recorded, child, walked, later, added, v, prefix);
  }

  lemma TableStep(before: seq<Value>, added: seq<Value>, base: nat, prefix: seq<Value>,
                  child: Value, G: set<Value>)
    requires base < |before| && child in before[base].previous
    requires TableSoFar(before, base + 1, prefix, G)
    requires child in before ==> added == []
    requires child !in before ==> added != [] && added[0] == child
    requires Distinct(before + added) && (forall u <- before + added :: u in G)
    requires LinksInside(before + added, |before|) && Discovered(before + added, |before| + 1)
    ensures TableSoFar(before + added, base + 1, prefix + [child], G)
  {
    DiscoveredStep(before, added, base, child);
    LinksInsideStep(before, added, base + 1);
  }

  /**
   * One turn of the loop, for the nodes this call has added: the walk of
   * `child`, a child of `v`, adds `child` first and then only nodes found
   * from its own.
   */
  lemma OwnStep(v: Value, later: seq<Value>, added: seq<Value>, child: Value)
    requires child in v.previous && Discovered([v] + later, 1) && Discovered(added, 1)
    requires added != [] ==> added[0] == child
    ensures Discovered([v] + (later + added), 1)
  {
    var before := [v] + later;
    ConcatAssoc([v], later, added);
    DiscoveredShift(before, added);
    DiscoveredStep(before, added, 0, child);
  }

  /** Placing `pre` in front of a table keeps each of its later nodes discovered. */
  lemma DiscoveredShift(pre: seq<Value>, ns: seq<Value>)
    requires Discovered(ns, 1)
    ensures Discovered(pre + ns, |pre| + 1)
  {
    var all := pre + ns;
    forall i | |pre| + 1 <= i < |all|
      ensures DiscoveredAt(all, i)
    {
      assert DiscoveredAt(ns, i - |pre|);
      var j :| 0 <= j < i - |pre| && ns[i - |pre|] in ns[j].previous;
      assert all[i] == ns[i - |pre|] && all[|pre| + j] == ns[j];
    }
  }

  lemma MultisetStep(recorded: seq<Edge>, child: Value, walked: seq<Edge>,
                     later: seq<Value>, added: seq<Value>, v: Value, prefix: seq<Value>)
    requires multiset(recorded) == multiset(Links(prefix, v)) + multiset(AllLinks(later))
    requires multiset(walked) == multiset(AllLinks(added))
    ensures multiset(recorded + [Edge(child, v)] + walked) ==
            multiset(Links(prefix + [child], v)) + multiset(AllLinks(later + added))
  {
    LinksSnoc(prefix, child, v);
    AllLinksAppend(later, added);
  }

  lemma ProgressDone(nodes: seq<Value>, v: Value, later: seq<Value>, recorded: seq<Edge>, G: set<Value>)
    requires Progress(nodes, v, later, recorded, |v.previous|, G)
    ensures var table, added := nodes + [v] + later, [v] + later;
      table == nodes + added &&
      Distinct(table) && (forall u <- table :: u in G) &&
      LinksInside(table, |nodes|) && Discovered(table, |nodes| + 1) &&
      multiset(recorded) == multiset(AllLinks(added)) && EdgesByParent(recorded, added) &&
      Discovered(added, 1) && (forall u <- added :: Reaches(G, v, u))
  {
    var table, added := nodes + [v] + later, [v] + later;
    ConcatAssoc(nodes, [v], later);
    assert forall u <- added :: u in table;
    ReachesFromFirst(added, G);
    assert v.previous[..|v.previous|] == v.previous;
    assert AllLinks(added) == Links(v.previous, v) + AllLinks(later);
    assert table[|nodes|] == v;
  }

  /** Recording `v`, which is in `G`, leaves fewer nodes of `G` to visit. */
  lemma Unvisited(G: set<Value>, nodes: seq<Value>, v: Value, more: seq<Value>)
    requires v in G && v !in nodes
    ensures G - Seen(nodes + [v] + more) < G - Seen(nodes)
  {
    assert v in G - Seen(nodes) && v !in G - Seen(nodes + [v] + more);
  }

  lemma ConcatAssoc<T>(a: seq<T>, b: seq<T>, c: seq<T>)
    ensures a + b + c == a + (b + c)
  {
  }

  lemma TakeSnoc<T>(s: seq<T>, k: nat)
    requires k < |s|
    ensures s[..k + 1] == s[..k] + [s[k]]
  {
  }

  lemma LinksSnoc(s: seq<Value>, c: Value, parent: Value)
    ensures Links(s + [c], parent) == Links(s, parent) + [Edge(c, parent)]
  {
  }

  lemma {:induction false} AllLinksAppend(a: seq<Value>, b: seq<Value>)
    ensures AllLinks(a + b) == AllLinks(a) + AllLinks(b)
  {
    if a != [] {
      assert (a + b)[0] == a[0] && (a + b)[1..] == a[1..] + b;
      AllLinksAppend(a[1..], b);
    } else {
      assert a + b == b;
    }
  }

  lemma {:induction false} EdgesIntoAppend(a: seq<Edge>, b: seq<Edge>, u: Value)
    ensures EdgesInto(a + b, u) == EdgesInto(a, u) + EdgesInto(b, u)
  {
    if a != [] {
      assert (a + b)[0] == a[0] && (a + b)[1..] == a[1..] + b;
      EdgesIntoAppend(a[1..], b, u);
    } else {
      assert a + b == b;
    }
  }

  lemma {:induction false} EdgesIntoNone(es: seq<Edge>, u: Value)
    requires forall e <- es :: e.parent != u
    ensures EdgesInto(es, u) == []
  {
    if es != [] {
      EdgesIntoNone(es[1..], u);
    }
  }

  lemma DistinctAppend(a: seq<Value>, b: seq<Value>)
    requires Distinct(a + b)
    ensures Distinct(a) && Distinct(b)
    ensures forall x <- b :: x !in a
  {
    assert forall i :: 0 <= i < |a| ==> a[i] == (a + b)[i];
    assert forall j :: 0 <= j < |b| ==> b[j] == (a + b)[|a| + j];
  }

  lemma EdgesIntoSplit(done: seq<Edge>, e: Edge, walked: seq<Edge>, u: Value)
    ensures EdgesInto(done + [e] + walked, u) ==
            EdgesInto(done, u) + (if e.parent == u then [e] else []) + EdgesInto(walked, u)
  {
    EdgesIntoAppend(done + [e], walked, u);
    EdgesIntoAppend(done, [e], u);
  }

  /**
   * One turn of the loop over a node's children, for the edges: the edges
   * already recorded, the new edge to `child`, then the edges of the nodes
   * the walk of `child` added.
   */
  lemma EdgesStep(done: seq<Edge>, child: Value, walked: seq<Edge>,
                  before: seq<Value>, added: seq<Value>, v: Value, prefix: seq<Value>)
    requires EdgesSoFar(done, v, prefix, before)
    requires EdgesByParent(walked, added)
    requires v !in before && v !in added && forall u <- added :: u !in before
    ensures EdgesSoFar(done + [Edge(child, v)] + walked, v, prefix + [child], before + added)
  {
    var e := Edge(child, v);
    EdgesIntoSplit(done, e, walked, v);
    EdgesIntoNone(walked, v);
    LinksSnoc(prefix, child, v);
    forall u <- before + added
      ensures EdgesInto(done + [e] + walked, u) == Links(u.previous, u)
    {
      EdgesIntoSplit(done, e, walked, u);
      if u in before {
        EdgesIntoNone(walked, u);
      } else {
        EdgesIntoNone(done, u);
      }
    }
  }

  /** One turn of the loop, for the discovery order. */
  lemma DiscoveredStep(before: seq<Value>, added: seq<Value>, base: nat, child: Value)
    requires base < |before| && child in before[base].previous
    requires Discovered(before, base + 1) && Discovered(before + added, |before| + 1)
    requires added != [] ==> added[0] == child
    ensures Discovered(before + added, base + 1)
  {
    var all := before + added;
    forall i | base + 1 <= i < |all|
      ensures DiscoveredAt(all, i)
    {
      if i < |before| {
        assert DiscoveredAt(before, i);
        var j :| 0 <= j < i && before[i] in before[j].previous;
        assert all[i] == before[i] && all[j] == before[j];
      } else if i == |before| {
        assert all[i] == child && all[base] == before[base];
      } else {
        assert DiscoveredAt(all, i);
      }
    }
  }

  /** One turn of the loop, for the predecessors of the recorded nodes. */
  lemma LinksInsideStep(before: seq<Value>, added: seq<Value>, from: nat)
    requires from <= |before|
    requires LinksInside(before, from) && LinksInside(before + added, |before|)
    ensures LinksInside(before + added, from)
  {
    var all := before + added;
    forall i | from <= i < |all|
      ensures forall c <- all[i].previous :: c in all
    {
      if i < |before| {
        assert all[i] == before[i];
      }
    }
  }

  /** A node discovered from an earlier one can be reached from the first. */
  lemma {:induction false} DiscoveredReaches(ns: seq<Value>, G: set<Value>, i: nat)
    requires i < |ns| && Discovered(ns, 1) && (forall u <- ns :: u in G)
    ensures Reaches(G, ns[0], ns[i])
    decreases i
  {
    if i == 0 {
      assert PathIn([ns[0]], G);
    } else {
      assert DiscoveredAt(ns, i);
      var j :| 0 <= j < i && ns[i] in ns[j].previous;
      DiscoveredReaches(ns, G, j);
      var p: seq<Value> :| PathIn(p, G) && |p| > 0 && p[0] == ns[0] && p[|p| - 1] == ns[j];
      var q := p + [ns[i]];
      assert forall k :: 0 <= k < |p| ==> q[k] == p[k];
      assert PathIn(q, G);
    }
  }

  /** The nodes of a path from a node of `ns` stay in `ns` when `ns` holds every predecessor of its nodes. */
  lemma {:induction false} PathInside(ns: seq<Value>, G: set<Value>, p: seq<Value>)
    requires LinksInside(ns, 0) && PathIn(p, G) && |p| > 0 && p[0] in ns
    ensures p[|p| - 1] in ns
    decreases |p|
  {
    if |p| > 1 {
      var q := p[..|p| - 1];
      assert PathIn(q, G);
      PathInside(ns, G, q);
      var j :| 0 <= j < |ns| && ns[j] == q[|q| - 1];
      assert p[|p| - 1] in ns[j].previous;
    }
  }

  /** Whatever can be reached from the first node of `ns` is in `ns`, when `ns` holds every predecessor of its nodes. */
  lemma ReachableInside(ns: seq<Value>, G: set<Value>, v: Value)
    requires |ns| > 0 && LinksInside(ns, 0) && Reaches(G, ns[0], v)
    ensures v in ns
  {
    var p: seq<Value> :| PathIn(p, G) && |p| > 0 && p[0] == ns[0] && p[|p| - 1] == v;
    PathInside(ns, G, p);
  }

  /** Every link of `ns` leads from a predecessor into a node of `ns`. */
  lemma {:induction false} AllLinksMember(ns: seq<Value>, e: Edge)
    requires e in AllLinks(ns)
    ensures e.parent in ns && e.child in e.parent.previous
  {
    if ns != [] {
      if e in Links(ns[0].previous, ns[0]) {
        var i :| 0 <= i < |ns[0].previous| && Links(ns[0].previous, ns[0])[i] == e;
      } else {
        AllLinksMember(ns[1..], e);
      }
    }
  }

  /** `AllLinks(ns)` holds one edge per child link of the nodes of `ns`. */
  lemma {:induction false} AllLinksLength(ns: seq<Value>)
    ensures |AllLinks(ns)| == LinkCount(ns)
  {
    if ns != [] {
      AllLinksLength(ns[1..]);
    }
  }

  /** Every node of a table whose later nodes were each discovered from an earlier one can be reached from its first. */
  lemma ReachesFromFirst(ns: seq<Value>, G: set<Value>)
    requires |ns| > 0 && Discovered(ns, 1) && (forall u <- ns :: u in G)
    ensures forall v <- ns :: Reaches(G, ns[0], v)
  {
    forall v <- ns
      ensures Reaches(G, ns[0], v)
    {
      var i :| 0 <= i < |ns| && ns[i] == v;
      DiscoveredReaches(ns, G, i);
    }
  }

  /**
   * A table whose nodes after the first were each discovered from an
   * earlier one, and which holds every predecessor of its nodes, holds
   * exactly the nodes reachable from its first.
   */
  lemma ReachesExactly(ns: seq<Value>, G: set<Value>)
    requires |ns| > 0 && Discovered(ns, 1) && LinksInside(ns, 0) && (forall u <- ns :: u in G)
    ensures forall v :: v in ns <==> Reaches(G, ns[0], v)
  {
    ReachesFromFirst(ns, G);
    forall v | Reaches(G, ns[0], v)
      ensures v in ns
    {
      ReachableInside(ns, G, v);
    }
  }

  /** Both ends of every traced edge are traced nodes. */
  lemma EdgeEnds(ns: seq<Value>, es: seq<Edge>)
    requires LinksInside(ns, 0) && multiset(es) == multiset(AllLinks(ns))
    ensures forall e <- es :: e.child in ns && e.parent in ns
  {
    forall e <- es
      ensures e.child in ns && e.parent in ns
    {
      assert e in multiset(AllLinks(ns));
      AllLinksMember(ns, e);
      var i :| 0 <= i < |ns| && ns[i] == e.parent;
    }
  }

  /** Tracing a leaf finds the leaf alone and no edge. */
  lemma LeafTrace(ns: seq<Value>, G: set<Value>)
    requires |ns| > 0 && ns[0].previous == [] && Distinct(ns)
    requires forall v <- ns :: Reaches(G, ns[0], v)
    ensures ns == [ns[0]] && LinkCount(ns) == 0
  {
    forall i | 0 <= i < |ns|
      ensures ns[i] == ns[0]
    {
      assert ns[i] in ns;
      ReachableInside([ns[0]], G, ns[i]);
    }
    assert ns[|ns| - 1] == ns[0];
  }

  /** An edge list belongs to `u` alone when `u` is the parent of each of its edges. */
  lemma {:induction false} EdgesIntoSelf(es: seq<Edge>, u: Value)
    requires forall e <- es :: e.parent == u
    ensures EdgesInto(es, u) == es
  {
    if es != [] {
      EdgesIntoSelf(es[1..], u);
    }
  }

  /** Every edge is among the edges into its parent. */
  lemma {:induction false} EdgesIntoHas(es: seq<Edge>, e: Edge)
    requires e in es
    ensures e in EdgesInto(es, e.parent)
  {
    if es[0] != e {
      EdgesIntoHas(es[1..], e);
    }
  }

  /** When no edge goes into any node of `others`, every edge whose parent is `u` or in `others` goes into `u`. */
  lemma SoleParent(es: seq<Edge>, u: Value, others: set<Value>)
    requires forall e <- es :: e.parent == u || e.parent in others
    requires forall w <- others :: EdgesInto(es, w) == []
    ensures forall e <- es :: e.parent == u
  {
    forall e <- es
      ensures e.parent == u
    {
      EdgesIntoHas(es, e);
    }
  }

  /** A table that lists no node twice is as long as the set of its nodes. */
  lemma {:induction false} DistinctCardinality(ns: seq<Value>)
    requires Distinct(ns)
    ensures |Seen(ns)| == |ns|
  {
    if ns != [] {
      DistinctCardinality(ns[1..]);
      assert Seen(ns) == {ns[0]} + Seen(ns[1..]);
      assert ns[0] !in ns[1..];
    }
  }
}
