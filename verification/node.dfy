/**
 * The search-tree node: a parent-linked record. Everything but the two
 * diagnostic fields is fixed at construction, so it is modelled as `const`.
 */
module SearchNode {
  import opened Wrappers

  /**
   * The diagnostic `location` label: the empty string, `"root"`, or
   * `"depth_<d>_node_<k>"`, kept here as its depth/order pair.
   */
  datatype Location = Unlabelled | Root | At(depth: nat, order: nat)

  class Node<S, A> {
    const state: S
    const parent: Node?<S, A>
    const action: Option<A>
    const pathCost: nat
    const depth: nat
    var expandedOrder: nat
    var location: Location

    /** The depth of every node is one more than its parent's, ending in a root of depth 0. */
    predicate Linked()
      decreases depth
    {
      if parent == null then depth == 0 else depth == parent.depth + 1 && parent.Linked()
    }

    /** `Node(state, parent, action, path_cost)`: the depth is computed from the parent. */
    constructor (state: S, parent: Node?<S, A>, action: Option<A>, pathCost: nat)
      requires parent != null ==> parent.Linked()
      ensures this.state == state && this.parent == parent && this.action == action
      ensures this.pathCost == pathCost
      ensures depth == if parent == null then 0 else parent.depth + 1
      ensures expandedOrder == 0 && location == Unlabelled
      ensures Linked()
    {
      this.state := state;
      this.parent := parent;
      this.action := action;
      this.pathCost := pathCost;
      this.depth := if parent == null then 0 else parent.depth + 1;
      this.expandedOrder := 0;
      this.location := Unlabelled;
    }

    /** `path()`: walks the parent links, collecting nodes, then reverses the list. */
    method Path() returns (p: seq<Node<S, A>>)
      requires Linked()
      ensures p == PathOf(this)
      ensures |p| == depth + 1 && p[0].parent == null && p[|p| - 1] == this
      ensures forall i :: 0 < i < |p| ==> p[i].parent == p[i - 1]
    {
      var node: Node?<S, A> := this;
      var acc: seq<Node<S, A>> := [];
      while node != null
        invariant node != null ==> node.Linked()
        invariant (if node == null then [] else PathOf(node)) + Reverse(acc) == PathOf(this)
        decreases if node == null then 0 else node.depth + 1
      {
        ReverseSnoc(acc, node);
        acc := acc + [node];
        node := node.parent;
      }
      p := Reverse(acc);
      PathShape(this);
    }
  }

  /** Python's `reversed`: the last element first. */
  function Reverse<T>(s: seq<T>): (r: seq<T>)
    ensures |r| == |s|
    ensures forall i :: 0 <= i < |s| ==> r[i] == s[|s| - 1 - i]
  {
    if s == [] then [] else [s[|s| - 1]] + Reverse(s[..|s| - 1])
  }

  /** Appending at the back of a sequence puts the element at the front of its reverse. */
  lemma ReverseSnoc<T>(s: seq<T>, x: T)
    ensures Reverse(s + [x]) == [x] + Reverse(s)
  {
    assert (s + [x])[..|s|] == s;
  }

  /** The nodes from the root down to `n`, inclusive. */
  ghost function PathOf<S, A>(n: Node<S, A>): seq<Node<S, A>>
    requires n.Linked()
    decreases n.depth
  {
    if n.parent == null then [n] else PathOf(n.parent) + [n]
  }

  /**
   * The path of `n` has `depth + 1` nodes, starts at a root, ends at `n`,
   * and each node in it is the parent of the next, at depth equal to its index.
   */
  lemma {:induction false} PathShape<S, A>(n: Node<S, A>)
    requires n.Linked()
    ensures |PathOf(n)| == n.depth + 1
    ensures PathOf(n)[0].parent == null && PathOf(n)[n.depth] == n
    ensures forall i :: 0 < i < |PathOf(n)| ==> PathOf(n)[i].parent == PathOf(n)[i - 1]
    ensures forall i :: 0 <= i < |PathOf(n)| ==> PathOf(n)[i].depth == i && PathOf(n)[i].Linked()
    decreases n.depth
  {
    if n.parent != null {
      PathShape(n.parent);
    }
  }
}
