/**
 * Iterative deepening: depth-limited depth-first passes over a LIFO stack,
 * with the depth bound raised by one after every pass that finds nothing.
 */
module IDS {
  import opened Wrappers
  import opened SearchProblem
  import opened SearchNode
  import opened SearchTree
  import opened SearchAlgorithmBase

  /** The number of nodes in the search tree below `s`, cut off `k` levels down. */
  ghost function TreeSize<S, A>(p: Problem<S, A>, s: S, k: nat): nat
    decreases k, 0, 0
  {
    1 + if k == 0 then 0 else SumSizes(p, p.successors(s), k - 1)
  }

  /** The total size of the cut-off trees below the states of `ts`. */
  ghost function SumSizes<S, A>(p: Problem<S, A>, ts: seq<Successor<S, A>>, k: nat): nat
    decreases k, 1, |ts|
  {
    if ts == [] then 0 else TreeSize(p, ts[0].state, k) + SumSizes(p, ts[1..], k)
  }

  /**
   * The nodes a depth-limited pass may still visit from this stack: the sum
   * of the cut-off trees below its nodes. Every iteration lowers it by one.
   */
  ghost function FringeSize<S, A>(p: Problem<S, A>, fringe: seq<Node<S, A>>, limit: nat): nat
  {
    if fringe == [] then 0
    else
      var n := fringe[|fringe| - 1];
      FringeSize(p, fringe[..|fringe| - 1], limit) + TreeSize(p, n.state, if n.depth <= limit then limit - n.depth else 0)
  }

  /**
   * Pushing the children of a node in reverse successor order adds exactly
   * the sizes of the trees below the successors.
   */
  lemma {:induction false} FringeSizeAppend<S, A>(p: Problem<S, A>, rest: seq<Node<S, A>>, cs: seq<Node<S, A>>,
                                                  ts: seq<Successor<S, A>>, limit: nat, k: nat)
    requires |cs| == |ts|
    requires forall m :: 0 <= m < |cs| ==> cs[m].state == ts[|ts| - 1 - m].state && cs[m].depth + k == limit
    ensures FringeSize(p, rest + cs, limit) == FringeSize(p, rest, limit) + SumSizes(p, ts, k)
    decreases |cs|
  {
    if cs != [] {
      var cs', ts' := cs[..|cs| - 1], ts[1..];
      assert (rest + cs)[..|rest + cs| - 1] == rest + cs';
      forall m | 0 <= m < |cs'| ensures cs'[m].state == ts'[|ts'| - 1 - m].state && cs'[m].depth + k == limit {
        assert cs'[m] == cs[m];
      }
      FringeSizeAppend(p, rest, cs', ts', limit, k);
      var last := cs[|cs| - 1];
      assert (rest + cs)[|rest + cs| - 1] == last && last.state == ts[0].state;
      assert FringeSize(p, rest + cs, limit) == FringeSize(p, rest + cs', limit) + TreeSize(p, ts[0].state, k);
      assert SumSizes(p, ts, k) == TreeSize(p, ts[0].state, k) + SumSizes(p, ts', k);
    } else {
      assert rest + cs == rest;
    }
  }

  class TreeIDS<S, A> {
    const problem: Problem<S, A>
    var expandedNodes: nat

    /** Stores the problem and zeroes the counter; nothing resets it afterwards. */
    constructor (problem: Problem<S, A>)
      ensures this.problem == problem && expandedNodes == 0
    {
      this.problem := problem;
      expandedNodes := 0;
    }

    /**
     * Pushes one child per successor of `node`, walking the sorted successors
     * backwards, so that the k-th node from the top of the stack is the child
     * for the k-th successor: siblings are popped in sorted order. Each child
     * records the counter before its push, and each push adds one to it.
     */
    method PushSuccessors(node: Node<S, A>, fringe: seq<Node<S, A>>) returns (fringe': seq<Node<S, A>>)
      requires node.Linked()
      modifies this
      ensures |fringe'| == |fringe| + |problem.successors(node.state)| && fringe'[..|fringe|] == fringe
      ensures expandedNodes == old(expandedNodes) + |problem.successors(node.state)|
      ensures forall k :: 0 <= k < |problem.successors(node.state)| ==>
        ChildVia(fringe'[|fringe'| - 1 - k], node, problem.successors(node.state)[k])
      ensures forall m :: |fringe| <= m < |fringe'| ==>
        && fresh(fringe'[m])
        && fringe'[m].expandedOrder == old(expandedNodes) + (m - |fringe|)
        && fringe'[m].location == At(fringe'[m].depth, old(expandedNodes) + (m - |fringe|))
    {
      var successors := problem.successors(node.state);
      var reversed := Reverse(successors);
      fringe' := fringe;
      for j := 0 to |reversed|
        invariant |fringe'| == |fringe| + j && fringe'[..|fringe|] == fringe
        invariant expandedNodes == old(expandedNodes) + j
        invariant forall m :: |fringe| <= m < |fringe'| ==>
          && ChildVia(fringe'[m], node, reversed[m - |fringe|])
          && fresh(fringe'[m])
          && fringe'[m].expandedOrder == old(expandedNodes) + (m - |fringe|)
          && fringe'[m].location == At(fringe'[m].depth, old(expandedNodes) + (m - |fringe|))
      {
        var t := reversed[j];
        var child := new Node(t.state, node, Some(t.action), node.pathCost + t.cost);
        child.expandedOrder := expandedNodes;
        child.location := At(child.depth, expandedNodes);
        fringe' := fringe' + [child];
        expandedNodes := expandedNodes + 1;
      }
      forall k | 0 <= k < |successors| ensures ChildVia(fringe'[|fringe'| - 1 - k], node, successors[k]) {
        var m := |fringe'| - 1 - k;
        assert reversed[m - |fringe|] == successors[k];
      }
    }

    /**
     * `depth_limited_search(limit)`. Nodes are goal-tested when popped and
     * expanded only below the limit. A returned node is a goal of depth at
     * most `limit`; nothing is returned exactly when no goal lies within
     * `limit` steps of the start state. The pass always terminates.
     */
    method DepthLimitedSearch(limit: nat) returns (r: Option<Node<S, A>>)
      modifies this
      ensures expandedNodes >= old(expandedNodes)
      ensures |problem.startStates| == 0 ==> r.None? && expandedNodes == old(expandedNodes)
      ensures r.Some? ==> Generated(problem, r.value) && problem.isGoal(r.value.state) && r.value.depth <= limit
      ensures r.Some? <==> |problem.startStates| > 0 && GoalWithin(problem, problem.startStates[0], limit)
      ensures |problem.startStates| > 0 && problem.isGoal(problem.startStates[0]) ==>
        r.Some? && r.value.depth == 0 && expandedNodes == old(expandedNodes)
    {
      if |problem.startStates| == 0 {
        return None;
      }
      var start := problem.startStates[0];
      var root := new Node(start, null, None, 0);
      root.expandedOrder := 0;
      root.location := Root;
      RootGenerated(problem, root);
      var fringe := [root];
      while fringe != []
        invariant expandedNodes >= old(expandedNodes)
        invariant PassInv(fringe, limit)
        invariant problem.isGoal(start) ==> fringe == [root] && expandedNodes == old(expandedNodes)
        decreases FringeSize(problem, fringe, limit)
      {
        ghost var before := fringe;
        var node := fringe[|fringe| - 1];
        fringe := fringe[..|fringe| - 1];
        if problem.isGoal(node.state) {
          assert Generated(problem, before[|before| - 1]);
          GoalWithinFromRoot(problem, node, 0);
          GoalWithinMonotone(problem, start, node.depth, limit);
          return Some(node);
        }
        assert before == fringe + [node];
        if node.depth < limit {
          ghost var rest := fringe;
          fringe := PushSuccessors(node, fringe);
          ExpansionKeepsPassInv(node, rest, fringe, limit, before);
        } else {
          CutOffKeepsPassInv(node, fringe, limit, before);
        }
      }
      return None;
    }

    /**
     * The invariant of one depth-limited pass: the stack holds tree nodes no
     * deeper than the limit, and if a goal lies within the limit of the start
     * state, one lies within the remaining depth of some node in the stack.
     */
    ghost predicate PassInv(fringe: seq<Node<S, A>>, limit: nat)
    {
      && |problem.startStates| > 0
      && (forall i :: 0 <= i < |fringe| ==> Generated(problem, fringe[i]) && fringe[i].depth <= limit)
      && (GoalWithin(problem, problem.startStates[0], limit) ==>
            exists i :: 0 <= i < |fringe| && GoalWithin(problem, fringe[i].state, limit - fringe[i].depth))
    }

    /** Popping a non-goal node below the limit and pushing its children keeps the invariant and lowers the measure. */
    lemma ExpansionKeepsPassInv(node: Node<S, A>, rest: seq<Node<S, A>>, fringe: seq<Node<S, A>>,
                                limit: nat, before: seq<Node<S, A>>)
      requires PassInv(before, limit) && before == rest + [node]
      requires node.depth < limit && !problem.isGoal(node.state)
      requires |fringe| == |rest| + |problem.successors(node.state)| && fringe[..|rest|] == rest
      requires forall k :: 0 <= k < |problem.successors(node.state)| ==>
        ChildVia(fringe[|fringe| - 1 - k], node, problem.successors(node.state)[k])
      ensures PassInv(fringe, limit)
      ensures FringeSize(problem, fringe, limit) < FringeSize(problem, before, limit)
    {
      assert before[|before| - 1] == node;
      forall i | 0 <= i < |rest| ensures Generated(problem, rest[i]) && rest[i].depth <= limit {
        assert rest[i] == before[i];
      }
      ExpansionKeepsGenerated(node, rest, fringe, limit);
      if GoalWithin(problem, problem.startStates[0], limit) {
        ExpansionKeepsGoalWithin(node, rest, fringe, limit, before);
      }
      ExpansionShrinksFringe(node, rest, fringe, limit, before);
    }

    /** Popping a non-goal node at the limit keeps the invariant and lowers the measure. */
    lemma CutOffKeepsPassInv(node: Node<S, A>, rest: seq<Node<S, A>>, limit: nat, before: seq<Node<S, A>>)
      requires PassInv(before, limit) && before == rest + [node]
      requires node.depth >= limit && !problem.isGoal(node.state)
      ensures PassInv(rest, limit)
      ensures FringeSize(problem, rest, limit) < FringeSize(problem, before, limit)
    {
      assert before[|before| - 1] == node && before[..|before| - 1] == rest;
      forall i | 0 <= i < |rest| ensures Generated(problem, rest[i]) && rest[i].depth <= limit {
        assert rest[i] == before[i];
      }
      if GoalWithin(problem, problem.startStates[0], limit) {
        DroppingCutOffNode(node, rest, limit, before);
      }
    }

    /** The children pushed for a tree node below the limit are tree nodes within the limit. */
    lemma ExpansionKeepsGenerated(node: Node<S, A>, rest: seq<Node<S, A>>, fringe: seq<Node<S, A>>, limit: nat)
      requires Generated(problem, node) && node.depth < limit
      requires forall i :: 0 <= i < |rest| ==> Generated(problem, rest[i]) && rest[i].depth <= limit
      requires |fringe| == |rest| + |problem.successors(node.state)| && fringe[..|rest|] == rest
      requires forall k :: 0 <= k < |problem.successors(node.state)| ==>
        ChildVia(fringe[|fringe| - 1 - k], node, problem.successors(node.state)[k])
      ensures forall i :: 0 <= i < |fringe| ==> Generated(problem, fringe[i]) && fringe[i].depth <= limit
    {
      forall i | 0 <= i < |fringe| ensures Generated(problem, fringe[i]) && fringe[i].depth <= limit {
        if i < |rest| {
          assert fringe[i] == rest[i];
        } else {
          ChildGenerated(problem, node, fringe[i], |fringe| - 1 - i);
        }
      }
    }

    /**
     * Replacing a popped non-goal node by its children keeps in the stack some
     * node with a goal within the remaining depth, if there was one before.
     */
    lemma ExpansionKeepsGoalWithin(node: Node<S, A>, rest: seq<Node<S, A>>, fringe: seq<Node<S, A>>,
                                   limit: nat, before: seq<Node<S, A>>)
      requires before == rest + [node] && node.depth < limit && !problem.isGoal(node.state)
      requires forall i :: 0 <= i < |before| ==> before[i].depth <= limit
      requires exists i :: 0 <= i < |before| && GoalWithin(problem, before[i].state, limit - before[i].depth)
      requires |fringe| == |rest| + |problem.successors(node.state)| && fringe[..|rest|] == rest
      requires forall k :: 0 <= k < |problem.successors(node.state)| ==>
        ChildVia(fringe[|fringe| - 1 - k], node, problem.successors(node.state)[k])
      ensures forall i :: 0 <= i < |fringe| ==> fringe[i].depth <= limit
      ensures exists i :: 0 <= i < |fringe| && GoalWithin(problem, fringe[i].state, limit - fringe[i].depth)
    {
      var ts := problem.successors(node.state);
      forall i | 0 <= i < |fringe| ensures fringe[i].depth <= limit {
        if i < |rest| {
          assert fringe[i] == rest[i] == before[i];
        } else {
          assert ChildVia(fringe[|fringe| - 1 - (|fringe| - 1 - i)], node, ts[|fringe| - 1 - i]);
        }
      }
      var i :| 0 <= i < |before| && GoalWithin(problem, before[i].state, limit - before[i].depth);
      if i < |rest| {
        assert fringe[i] == rest[i] == before[i];
      } else {
        var k :| 0 <= k < |ts| && GoalWithin(problem, ts[k].state, limit - node.depth - 1);
        assert ChildVia(fringe[|fringe| - 1 - k], node, ts[k]);
      }
    }

    /** Replacing a popped node below the limit by its children lowers the measure by one. */
    lemma ExpansionShrinksFringe(node: Node<S, A>, rest: seq<Node<S, A>>, fringe: seq<Node<S, A>>,
                                 limit: nat, before: seq<Node<S, A>>)
      requires before == rest + [node] && node.depth < limit
      requires |fringe| == |rest| + |problem.successors(node.state)| && fringe[..|rest|] == rest
      requires forall k :: 0 <= k < |problem.successors(node.state)| ==>
        ChildVia(fringe[|fringe| - 1 - k], node, problem.successors(node.state)[k])
      ensures FringeSize(problem, fringe, limit) < FringeSize(problem, before, limit)
    {
      var ts := problem.successors(node.state);
      var cs := fringe[|rest|..];
      assert fringe == rest + cs;
      forall m | 0 <= m < |cs| ensures cs[m].state == ts[|ts| - 1 - m].state && cs[m].depth + (limit - node.depth - 1) == limit {
        assert ChildVia(fringe[|fringe| - 1 - (|ts| - 1 - m)], node, ts[|ts| - 1 - m]);
      }
      FringeSizeAppend(problem, rest, cs, ts, limit, limit - node.depth - 1);
      assert before[..|before| - 1] == rest;
    }

    /** Discarding a non-goal node at the depth limit keeps the invariant and lowers the measure. */
    lemma DroppingCutOffNode(node: Node<S, A>, rest: seq<Node<S, A>>, limit: nat, before: seq<Node<S, A>>)
      requires before == rest + [node] && node.depth == limit && !problem.isGoal(node.state)
      requires forall i :: 0 <= i < |before| ==> before[i].depth <= limit
      requires forall i :: 0 <= i < |rest| ==> rest[i].depth <= limit
      requires exists i :: 0 <= i < |before| && GoalWithin(problem, before[i].state, limit - before[i].depth)
      ensures exists i :: 0 <= i < |rest| && GoalWithin(problem, rest[i].state, limit - rest[i].depth)
    {
      var i :| 0 <= i < |before| && GoalWithin(problem, before[i].state, limit - before[i].depth);
      assert i < |rest| && rest[i] == before[i];
    }

    /**
     * `search()`: runs passes with limits 0, 1, 2, ... and returns the first
     * node found. That node is a goal at the smallest depth any goal has in
     * the tree. `maxLimit` bounds the limits tried; the source has no bound and
     * loops forever when no goal is reachable, even with no start state.
     */
    method Search(maxLimit: nat) returns (r: Outcome<Node<S, A>>)
      modifies this
      ensures !r.Exhausted?
      ensures expandedNodes >= old(expandedNodes)
      ensures r.Found? ==> Generated(problem, r.node) && problem.isGoal(r.node.state) && r.node.depth <= maxLimit
      ensures r.Found? ==> forall k: nat :: k < r.node.depth ==> !GoalWithin(problem, problem.startStates[0], k)
      ensures r.OutOfFuel? ==> |problem.startStates| == 0 || !GoalWithin(problem, problem.startStates[0], maxLimit)
    {
      var depth := 0;
      while depth <= maxLimit
        invariant forall k: nat :: k < depth ==> |problem.startStates| == 0 || !GoalWithin(problem, problem.startStates[0], k)
        invariant expandedNodes >= old(expandedNodes)
      {
        var result := DepthLimitedSearch(depth);
        if result.Some? {
          return Found(result.value);
        }
        depth := depth + 1;
      }
      return OutOfFuel;
    }

    /** `tree_search` delegates to `search` and returns what it returns. */
    method TreeSearch(maxLimit: nat) returns (r: Outcome<Node<S, A>>)
      modifies this
      ensures !r.Exhausted?
      ensures expandedNodes >= old(expandedNodes)
      ensures r.Found? ==> Generated(problem, r.node) && problem.isGoal(r.node.state) && r.node.depth <= maxLimit
      ensures r.Found? ==> forall k: nat :: k < r.node.depth ==> !GoalWithin(problem, problem.startStates[0], k)
      ensures r.OutOfFuel? ==> |problem.startStates| == 0 || !GoalWithin(problem, problem.startStates[0], maxLimit)
    {
      r := Search(maxLimit);
    }
  }
}
