/**
 * What it means for a node to have been produced by a search over a problem:
 * the root wraps the first start state with cost 0, and every other node wraps
 * one of its parent's successors, with the path cost extended by that step's cost.
 */
module SearchTree {
  import opened Wrappers
  import opened SearchProblem
  import opened SearchNode

  /** `child` was built from `parent` by the successor triple `t`. */
  ghost predicate ChildVia<S, A>(child: Node<S, A>, parent: Node<S, A>, t: Successor<S, A>)
  {
    && child.parent == parent
    && child.action == Some(t.action)
    && child.state == t.state
    && child.pathCost == parent.pathCost + t.cost
    && child.depth == parent.depth + 1
  }

  /** `child` was built from `parent` by one of the successors of the parent's state. */
  ghost predicate Step<S, A>(p: Problem<S, A>, parent: Node<S, A>, child: Node<S, A>)
  {
    exists i :: 0 <= i < |p.successors(parent.state)| && ChildVia(child, parent, p.successors(parent.state)[i])
  }

  /** `n` is a node of the search tree of `p`. */
  ghost predicate Generated<S, A>(p: Problem<S, A>, n: Node<S, A>)
    decreases n.depth
  {
    && n.Linked()
    && |p.startStates| > 0
    && if n.parent == null then
         n.state == p.startStates[0] && n.action == None && n.pathCost == 0
       else
         Generated(p, n.parent) && Step(p, n.parent, n)
  }

  /** A root built from the first start state belongs to the tree. */
  lemma RootGenerated<S, A>(p: Problem<S, A>, root: Node<S, A>)
    requires |p.startStates| > 0 && root.parent == null && root.depth == 0
    requires root.state == p.startStates[0] && root.action == None && root.pathCost == 0
    ensures Generated(p, root)
  {
  }

  /** A child built from successor `i` of a tree node belongs to the tree. */
  lemma ChildGenerated<S, A>(p: Problem<S, A>, parent: Node<S, A>, child: Node<S, A>, i: nat)
    requires Generated(p, parent) && i < |p.successors(parent.state)|
    requires ChildVia(child, parent, p.successors(parent.state)[i])
    ensures Generated(p, child)
  {
  }

  /**
   * Replaying the path of a tree node against the problem reproduces it: the
   * path starts in the first start state with cost 0, each later node is a
   * successor of the one before it, and the path ends in the node's own state.
   */
  lemma {:induction false} PathReplays<S, A>(p: Problem<S, A>, n: Node<S, A>)
    requires Generated(p, n)
    ensures |PathOf(n)| == n.depth + 1
    ensures PathOf(n)[0].state == p.startStates[0] && PathOf(n)[0].pathCost == 0
    ensures PathOf(n)[n.depth].state == n.state && PathOf(n)[n.depth].pathCost == n.pathCost
    ensures forall i :: 0 < i < |PathOf(n)| ==> Step(p, PathOf(n)[i - 1], PathOf(n)[i])
    decreases n.depth
  {
    PathShape(n);
    if n.parent != null {
      PathReplays(p, n.parent);
      var ps := PathOf(n);
      assert ps == PathOf(n.parent) + [n];
      forall i | 0 < i < |ps| ensures Step(p, ps[i - 1], ps[i]) {
        if i < |ps| - 1 {
          assert ps[i - 1] == PathOf(n.parent)[i - 1] && ps[i] == PathOf(n.parent)[i];
        }
      }
    }
  }

  /**
   * A goal within `j` steps of a tree node at depth `d` is within `d + j`
   * steps of the start state.
   */
  lemma {:induction false} GoalWithinFromRoot<S, A>(p: Problem<S, A>, n: Node<S, A>, j: nat)
    requires Generated(p, n) && GoalWithin(p, n.state, j)
    ensures GoalWithin(p, p.startStates[0], n.depth + j)
    decreases n.depth
  {
    if n.parent != null {
      var i :| 0 <= i < |p.successors(n.parent.state)| && ChildVia(n, n.parent, p.successors(n.parent.state)[i]);
      assert GoalWithin(p, n.parent.state, j + 1);
      GoalWithinFromRoot(p, n.parent, j + 1);
    }
  }
}
