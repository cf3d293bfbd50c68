/**
 * The scalar node of a micrograd computation graph (lib/micrograd/value.rb).
 *
 * A `Value` wraps one number together with the graph structure that produced
 * it: the nodes it was computed from (`previous`) and a tag naming the
 * operation (`operation`, empty for a leaf created directly by a caller).
 * Addition is the only arithmetic the class implements.
 */
module Micrograd {

  datatype Option<T> = None | Some(value: T)

  /**
   * The argument of `+`. Ruby accepts any object there; the two that matter
   * are another node and a plain number.
   */
  datatype Operand = Node(node: Value) | Number(x: real)

  /**
   * The promotion test of `+`: whether the operand is kept as it is (true)
   * or wrapped in a fresh leaf first (false), decided by asking `tested`
   * whether it `is_a?(Value)`.
   */
  predicate KeepsOperand(tested: Operand)
  {
    tested.Node?
  }

  class Value {
    var data: real
    var gradient: real
    var previous: seq<Value>
    var operation: string

    /** A node with no predecessors and no operation tag: an input. */
    predicate IsLeaf()
      reads this
    {
      previous == [] && operation == ""
    }

    /**
     * `Value.new(data, children: [], operation: '')`: the gradient starts at
     * zero, the other three fields are the arguments as given.
     */
    constructor (data: real, nameonly children: seq<Value> := [], nameonly operation: string := "")
      ensures this.data == data && gradient == 0.0
      ensures previous == children && this.operation == operation
      ensures children == [] && operation == "" ==> IsLeaf()
    {
      this.data := data;
      gradient := 0.0;
      previous := children;
      this.operation := operation;
    }

    /**
     * `self + other`, as written. The promotion test is asked of the
     * receiver, which is always a `Value`, so `other` is kept as it is. A
     * kept node is added; a kept plain number has no `data` to read, and
     * Ruby raises `NoMethodError`, modelled as `None`. The result is a fresh
     * node; neither operand is written.
     */
    method AddAsWritten(other: Operand) returns (r: Option<Value>)
      ensures r.None? <==> other.Number?
      ensures other.Node? ==>
        r.Some? && fresh(r.value) &&
        r.value.data == data + other.node.data && r.value.previous == [this, other.node] &&
        r.value.operation == "+" && r.value.gradient == 0.0
      ensures unchanged(this) && (other.Node? ==> unchanged(other.node))
    {
      var operand := other;
      if !KeepsOperand(Node(this)) {
        // the branch wrapping `other` in a leaf: the receiver always passes the test
        assert false;
      }
      match operand
      case Number(_) =>
        r := None;
      case Node(node) =>
        var output := new Value(data + node.data, children := [this, node], operation := "+");
        r := Some(output);
    }

    /**
     * `self + other` with the promotion test asked of `other`, as evidently
     * intended: a plain number becomes a fresh leaf holding that number,
     * which then becomes the second predecessor of the sum.
     */
    method AddPromoting(other: Operand) returns (output: Value)
      ensures fresh(output) && |output.previous| == 2 && output.previous[0] == this
      ensures output.operation == "+" && output.gradient == 0.0
      ensures other.Node? ==> output.previous[1] == other.node && output.data == data + other.node.data
      ensures other.Number? ==>
        var leaf := output.previous[1];
        fresh(leaf) && leaf.IsLeaf() && leaf.data == other.x && leaf.gradient == 0.0 &&
        output.data == data + other.x
      ensures unchanged(this) && (other.Node? ==> unchanged(other.node))
    {
      var operand: Value;
      if KeepsOperand(other) {
        operand := other.node;
      } else {
        operand := new Value(other.x);
      }
      output := new Value(data + operand.data, children := [this, operand], operation := "+");
    }
  }

  /**
   * `a + x` for a plain number `x`, both ways: as written it fails, while
   * with the test asked of the operand it gives a sum over `a` and a new
   * leaf holding `x`.
   */
  method PlusNumber(a: Value, x: real) returns (asWritten: Option<Value>, promoted: Value)
    ensures asWritten.None?
    ensures promoted.data == a.data + x && promoted.operation == "+"
    ensures |promoted.previous| == 2 && promoted.previous[0] == a
    ensures promoted.previous[1].IsLeaf() && promoted.previous[1].data == x
  {
    asWritten := a.AddAsWritten(Number(x));
    promoted := a.AddPromoting(Number(x));
  }
}
