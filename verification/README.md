# micrograd (Ruby): value nodes and graph tracing, in Dafny

This project models the core of the Ruby micrograd library: the scalar
node `Micrograd::Value` (lib/micrograd/value.rb) and the graph traversal
`Micrograd::Viz.trace` (lib/micrograd/viz.rb) that the visualiser uses to
collect a computation graph.

- `value.dfy`, module `Micrograd`: the class `Value` with its four fields
  (`data`, `gradient`, `previous`, `operation`), its constructor with the
  keyword arguments `children:` and `operation:` and their defaults, and
  `+`, both as written (a plain-number operand fails) and with the number
  promotion the code evidently intends. Addition allocates a fresh node
  over the two operands and writes neither of them.
- `viz.dfy`, module `Viz`: `trace` and its recursive `walk`. The walk
  threads the node table and the edge list through the recursion. The node
  table is keyed by object identity; here it is the sequence of its
  values in insertion order, and a lookup is membership in that sequence.
  The walk is proved to terminate on any graph, cycles included. It records
  exactly the nodes reachable from the root, each once and the root first.
  Grouped by parent, the edges are exactly one `[child, parent]` pair per
  entry of each recorded node's `previous`, in that order.
- `usage.dfy`, module `Usage`: the usage example from the documentation
  of `+` (`-4.0 + 2.0`), traced.

Object identity is Dafny reference identity. `trace` takes a ghost
parameter `G`: a set of nodes that holds the root and every predecessor of
its members, such as the whole object graph. The walk is proved to stay
inside `G`, and `G` gives the termination measure: the nodes of `G` not
yet in the table. The results do not depend on which such `G` is given.

## Model

| member | source | states |
|---|---|---|
| Micrograd.Value.constructor | lib/micrograd/value.rb:6-10 | a new node holds the given data, its predecessors and operation tag as given (empty by default, which makes it a leaf), and a zero gradient |
| Micrograd.Value.AddAsWritten | lib/micrograd/value.rb:21-37 | `+` as written: it fails exactly when the operand is a plain number; with a node `b` it gives a fresh node whose data is the sum of the operands' data, whose predecessors are exactly `[a, b]` in that order, tagged `+`, with a zero gradient; neither operand changes |
| Micrograd.Value.AddPromoting | lib/micrograd/value.rb:21-37 | `+` with the promotion of a plain number as evidently intended: the sum has `self` as first predecessor; a node operand is the second predecessor, a number becomes a fresh leaf holding that number; the data is the sum either way and neither operand changes |
| Micrograd.PlusNumber | lib/micrograd/value.rb:22-29 | for a node `a` and a number `x`, `a + x` as written fails, while with the promotion it gives a `+` node over `a` and a new leaf holding `x`, whose data is `a`'s data plus `x` |
| Viz.Trace | lib/micrograd/viz.rb:26-43 | the nodes start with the root, hold no node twice and are exactly the nodes reachable from the root; every later node is a predecessor of an earlier one; the edges into each node are its `[child, node]` pairs in the order of its `previous`; every edge joins two traced nodes; the edges are the traced nodes' links and nothing else, as many as their `previous` entries together; a leaf root gives `[[root], []]` |
| Viz.Walk | lib/micrograd/viz.rb:30-39 | a node already in the table adds nothing; otherwise the call appends that node first and then only new nodes, each found through a child link of a node the same call appended before it, so all reachable from that node; keeps the table free of repeats, leaves every predecessor of what it added in the table, and appends exactly the links of the nodes it added, grouped per parent in `previous` order; it terminates because the unvisited part of the graph shrinks |
| Viz.Unvisited | lib/micrograd/viz.rb:31-33 | recording a node not yet in the table strictly shrinks the set of nodes still to visit, which bounds the recursion even on a cyclic graph |
| Viz.ReachesFromFirst | lib/micrograd/viz.rb:33-37 | every node of a table whose later nodes were each found through a child link of an earlier one can be reached from its first node |
| Viz.ReachesExactly | lib/micrograd/viz.rb:30-41 | a table whose nodes after the first were each found through a link of an earlier one, and which holds every predecessor of its nodes, holds exactly the nodes reachable from its first |
| Viz.DiscoveredReaches | lib/micrograd/viz.rb:35-37 | each node the walk finds through a child link can be reached from the root along `previous` links |
| Viz.ReachableInside | lib/micrograd/viz.rb:35-38 | once every predecessor of a recorded node is recorded too, nothing reachable from the root is missing |
| Viz.EdgeEnds | lib/micrograd/viz.rb:35-37 | both ends of every collected edge are collected nodes |
| Viz.AllLinksLength | lib/micrograd/viz.rb:35-36 | the edges collected for a list of nodes number the sum of the lengths of their `previous` |
| Viz.LeafTrace | lib/micrograd/viz.rb:26-43 | tracing a node with no predecessors finds that node alone and no edge |
| Viz.DistinctCardinality | lib/micrograd/viz.rb:31-33 | a table that never stores a node twice has as many entries as distinct nodes |
| Usage.TraceSum | lib/micrograd/value.rb:17-20 | for `a = -4.0`, `b = 2.0`, `c = a + b` (a node operand, which both versions of `+` keep): `c` holds -2.0 over the two distinct leaves, and tracing `c` gives three nodes, `c` first, and exactly the edges `[a, c]` and `[b, c]` in that order |

## Left out

- `draw_dot` (lib/micrograd/viz.rb:65-117 and its wrapper lib/micrograd/value.rb:47-49): it renders through the Graphviz library and writes an image file, which is I/O outside the model.
- Backward propagation: `+` has only the note `TODO: set backward` (lib/micrograd/value.rb:34), and the constructor an unfinished `TODO: set` (line 12), so there is no behaviour to model. No other operator (multiplication, subtraction, power) is defined at all.
- The demo script demo.rb: it passes a `label:` keyword that the constructor (lib/micrograd/value.rb:6) does not accept, and calls `*`, `-`, `label=` and `backward!`, none of which exist, so as written it stops with an `ArgumentError` at its line 3; its printing lines are commented out.
- lib/micrograd.rb: it only loads the other files and declares an error class that nothing raises.
- Floating point: `data` and `gradient` are real numbers, so rounding, infinities and NaN are not modelled; the integer `0` stored as the initial gradient is the real 0.
- Array aliasing: `previous` is a value sequence here, whereas Ruby stores the caller's `children` array itself, so a later change to that array would show through the node.
- Viz.Trace: states the root first, every later node found through a link of an earlier one, and the per-node order of the edges, but not the exact depth-first visiting order of the nodes or the global interleaving of the edges.
- Viz.Trace: has no `modifies` clause, which is how the model says that tracing writes no node; there is no separate `unchanged` clause.
- Micrograd.Value.AddAsWritten: the `NoMethodError` raised for a plain-number operand is the result `None`; the exception itself is not modelled.
- Viz.Walk: states that a call appends `v` first and then only nodes found from nodes it appended earlier, but not their exact depth-first order.
- Operands of `+` other than nodes and numbers (strings, nil, other objects) are not modelled.

## Findings

| source | as written | input that shows it | evidently intended | confidence | as-written member | corrected member |
|---|---|---|---|---|---|---|
| lib/micrograd/value.rb:22 | the promotion test `is_a?(Value)` is asked of the receiver, which is always a `Value`, so the operand is never wrapped | `Micrograd::Value.new(-4.0) + 2.0` passes the number itself to `other.data`, which a Float does not have, and raises `NoMethodError` | ask `other.is_a?(Value)` and wrap a plain number in a new leaf `Value.new(other)` before adding | high, not executed | Micrograd.Value.AddAsWritten | Micrograd.Value.AddPromoting |
