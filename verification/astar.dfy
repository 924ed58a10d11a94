/**
 * Best-first tree search ordered by f(n) = g(n) + h(n), with the generation
 * counter as a second key so that entries of equal f leave the fringe in the
 * order they entered it.
 */
module AStar {
  import opened Wrappers
  import opened SearchProblem
  import opened SearchNode
  import opened SearchTree
  import opened SearchAlgorithmBase

  /** The `ValueError` raised when no heuristic is available. */
  datatype ConfigError = NoHeuristic

  /** A fringe entry `(f, generation, node)`. */
  datatype Entry<S, A> = Entry(f: nat, gen: nat, node: Node<S, A>)

  /** The tuple order the heap uses on `(f, generation)`. */
  predicate KeyLess<S, A>(a: Entry<S, A>, b: Entry<S, A>)
  {
    a.f < b.f || (a.f == b.f && a.gen < b.gen)
  }

  /** Entries sit in the fringe in strictly increasing generation order. */
  predicate GensIncreasing<S, A>(q: seq<Entry<S, A>>)
  {
    forall i, j :: 0 <= i < j < |q| ==> q[i].gen < q[j].gen
  }

  /**
   * Removing the entry at `m` shifts the later entries down by one and keeps
   * generations increasing.
   */
  lemma RemoveAt<S, A>(q: seq<Entry<S, A>>, m: nat)
    requires m < |q| && GensIncreasing(q)
    ensures forall j :: 0 <= j < |q| - 1 ==> (q[..m] + q[m + 1..])[j] == if j < m then q[j] else q[j + 1]
    ensures GensIncreasing(q[..m] + q[m + 1..])
  {
    var rest := q[..m] + q[m + 1..];
    forall a, b | 0 <= a < b < |rest| ensures rest[a].gen < rest[b].gen {
      assert rest[a] == if a < m then q[a] else q[a + 1];
      assert rest[b] == if b < m then q[b] else q[b + 1];
    }
  }

  /**
   * `heappop`: removes the entry with the least `(f, generation)` key. Since
   * generations are distinct, that entry is strictly below every other one,
   * so ties on f are settled by the counter and nodes are never compared.
   */
  method PopMin<S, A>(q: seq<Entry<S, A>>) returns (e: Entry<S, A>, rest: seq<Entry<S, A>>, ghost i: nat)
    requires q != [] && GensIncreasing(q)
    ensures i < |q| && e == q[i] && rest == q[..i] + q[i + 1..]
    ensures |rest| == |q| - 1 && GensIncreasing(rest)
    ensures forall x :: x in rest ==> x in q
    ensures forall x :: x in rest ==> KeyLess(e, x)
  {
    var m := 0;
    var n := 1;
    while n < |q|
      invariant 1 <= n <= |q| && m < n
      invariant forall j :: 0 <= j < n && j != m ==> KeyLess(q[m], q[j])
    {
      if KeyLess(q[n], q[m]) {
        m := n;
      }
      n := n + 1;
    }
    e := q[m];
    rest := q[..m] + q[m + 1..];
    i := m;
    RemoveAt(q, m);
  }

  /** `heuristic or problem.heuristic`, failing when neither is present. */
  function ResolveHeuristic<S, A>(explicit: Option<S -> nat>, problem: Problem<S, A>): (r: Result<S -> nat, ConfigError>)
    ensures r.Failure? <==> explicit.None? && problem.heuristic.None?
    ensures explicit.Some? ==> r.Success? && r.value == explicit.value
    ensures explicit.None? && problem.heuristic.Some? ==> r.Success? && r.value == problem.heuristic.value
  {
    match explicit
    case Some(h) => Success(h)
    case None =>
      match problem.heuristic
      case Some(h) => Success(h)
      case None => Failure(NoHeuristic)
  }

  /** `TreeAStar(problem, heuristic)`: refused with `NoHeuristic` when no heuristic can be found. */
  method NewTreeAStar<S(!new), A>(problem: Problem<S, A>, heuristic: Option<S -> nat>) returns (r: Result<TreeAStar<S, A>, ConfigError>)
    ensures r.Failure? <==> heuristic.None? && problem.heuristic.None?
    ensures r.Success? ==> fresh(r.value) && r.value.problem == problem
    ensures r.Success? ==> r.value.expandedNodes == 0 && r.value.generatedCount == 0
    ensures r.Success? ==> Success(r.value.heuristic) == ResolveHeuristic(heuristic, problem)
  {
    var h := ResolveHeuristic(heuristic, problem);
    if h.Failure? {
      return Failure(NoHeuristic);
    }
    var a := new TreeAStar(problem, h.value);
    return Success(a);
  }

  class TreeAStar<S(!new), A> {
    const problem: Problem<S, A>
    const heuristic: S -> nat
    var expandedNodes: nat
    var generatedCount: nat

    constructor (problem: Problem<S, A>, heuristic: S -> nat)
      ensures this.problem == problem && this.heuristic == heuristic
      ensures expandedNodes == 0 && generatedCount == 0
    {
      this.problem := problem;
      this.heuristic := heuristic;
      expandedNodes := 0;
      generatedCount := 0;
    }

    /** f(n) = g(n) + h(state): never below the path cost, and equal to it exactly where h is 0. */
    function F(n: Node<S, A>): (r: nat)
      ensures r >= n.pathCost
      ensures r == n.pathCost <==> heuristic(n.state) == 0
    {
      n.pathCost + heuristic(n.state)
    }

    /**
     * `fringe'` is `fringe` followed by one entry per successor of `node`, in
     * sorted order, each a child of `node` keyed by its f value and numbered
     * with consecutive generations from `gen0`.
     */
    ghost predicate ExpandedFrom(node: Node<S, A>, fringe: seq<Entry<S, A>>, fringe': seq<Entry<S, A>>, gen0: nat)
    {
      && |fringe'| == |fringe| + |problem.successors(node.state)|
      && fringe'[..|fringe|] == fringe
      && forall k :: |fringe| <= k < |fringe'| ==>
           && fringe'[k].gen == gen0 + (k - |fringe|)
           && fringe'[k].f == F(fringe'[k].node)
           && ChildVia(fringe'[k].node, node, problem.successors(node.state)[k - |fringe|])
    }

    /**
     * The fringe invariant of the search loop: entries are tree nodes keyed by
     * their f value, with distinct generations below `gen`, in increasing order.
     */
    ghost predicate FringeInv(fringe: seq<Entry<S, A>>, gen: nat)
    {
      && GensIncreasing(fringe)
      && forall e :: e in fringe ==> e.gen < gen && Generated(problem, e.node) && e.f == F(e.node)
    }

    /**
     * One expansion: the node and every child it generates get the current
     * expansion count as their order, the count goes up by one, and each
     * successor, in sorted order, becomes a child pushed with the next
     * generation number.
     */
    method Expand(node: Node<S, A>, fringe: seq<Entry<S, A>>) returns (fringe': seq<Entry<S, A>>)
      requires node.Linked()
      modifies this, node
      ensures node.expandedOrder == old(expandedNodes) && node.location == old(node.location)
      ensures expandedNodes == old(expandedNodes) + 1
      ensures generatedCount == old(generatedCount) + |problem.successors(node.state)|
      ensures ExpandedFrom(node, fringe, fringe', old(generatedCount))
      ensures forall k :: |fringe| <= k < |fringe'| ==>
        && fresh(fringe'[k].node)
        && fringe'[k].node.expandedOrder == old(expandedNodes)
        && fringe'[k].node.location == At(fringe'[k].node.depth, old(expandedNodes))
      ensures forall x :: x in fringe' ==> x in fringe || fresh(x.node)
    {
      var order := expandedNodes;
      node.expandedOrder := order;
      expandedNodes := expandedNodes + 1;
      var successors := problem.successors(node.state);
      fringe' := fringe;
      for j := 0 to |successors|
        invariant expandedNodes == old(expandedNodes) + 1 && node.expandedOrder == order
        invariant node.location == old(node.location)
        invariant generatedCount == old(generatedCount) + j
        invariant |fringe'| == |fringe| + j && fringe'[..|fringe|] == fringe
        invariant forall k :: |fringe| <= k < |fringe'| ==>
          && fringe'[k].gen == old(generatedCount) + (k - |fringe|)
          && fringe'[k].f == F(fringe'[k].node)
          && ChildVia(fringe'[k].node, node, successors[k - |fringe|])
          && fresh(fringe'[k].node)
          && fringe'[k].node.expandedOrder == order
          && fringe'[k].node.location == At(fringe'[k].node.depth, order)
      {
        var t := successors[j];
        var child := new Node(t.state, node, Some(t.action), node.pathCost + t.cost);
        child.expandedOrder := order;
        child.location := At(child.depth, order);
        fringe' := fringe' + [Entry(F(child), generatedCount, child)];
        generatedCount := generatedCount + 1;
      }
    }

    /** Expanding a popped entry keeps the fringe invariant. */
    lemma ExpansionKeepsFringeInv(q: seq<Entry<S, A>>, e: Entry<S, A>, rest: seq<Entry<S, A>>,
                                  fringe: seq<Entry<S, A>>, gen0: nat)
      requires FringeInv(q, gen0) && e in q && forall x :: x in rest ==> x in q
      requires GensIncreasing(rest) && ExpandedFrom(e.node, rest, fringe, gen0)
      ensures FringeInv(fringe, gen0 + |problem.successors(e.node.state)|)
    {
      var gen1 := gen0 + |problem.successors(e.node.state)|;
      forall a, b | 0 <= a < b < |fringe| ensures fringe[a].gen < fringe[b].gen {
        if b < |rest| {
          assert fringe[a] == rest[a] && fringe[b] == rest[b];
        } else if a < |rest| {
          assert fringe[a] == rest[a] && rest[a] in q;
        }
      }
      forall x | x in fringe ensures x.gen < gen1 && Generated(problem, x.node) && x.f == F(x.node) {
        var k :| 0 <= k < |fringe| && fringe[k] == x;
        if k < |rest| {
          assert x == rest[k] && x in q;
        } else {
          ChildGenerated(problem, e.node, x.node, k - |rest|);
        }
      }
    }

    /**
     * Popping a non-goal entry and expanding it keeps in the fringe some node
     * from which a goal is reachable, if there was one before.
     */
    lemma ExpansionKeepsReachableGoal(q: seq<Entry<S, A>>, i: nat, rest: seq<Entry<S, A>>,
                                      fringe: seq<Entry<S, A>>, gen0: nat)
      requires i < |q| && rest == q[..i] + q[i + 1..] && !problem.isGoal(q[i].node.state)
      requires ExpandedFrom(q[i].node, rest, fringe, gen0)
      requires exists w :: w in q && GoalReachable(problem, w.node.state)
      ensures exists w :: w in fringe && GoalReachable(problem, w.node.state)
    {
      var w :| w in q && GoalReachable(problem, w.node.state);
      var k :| 0 <= k < |q| && q[k] == w;
      if k != i {
        var k' := if k < i then k else k - 1;
        assert rest[k'] == w && fringe[k'] == w;
      } else {
        var j := ReachableThroughSuccessor(problem, w.node.state);
        assert fringe[|rest| + j] in fringe;
      }
    }

    /**
     * Some fringe entry lies on a goal path of cost at most `c`: its path cost
     * plus the cost of a goal path from its state is no more than `c`.
     */
    ghost predicate CheapOnFringe(fringe: seq<Entry<S, A>>, c: nat)
    {
      exists k, c': nat :: 0 <= k < |fringe| && GoalAtCost(problem, fringe[k].node.state, c') && fringe[k].node.pathCost + c' <= c
    }

    /**
     * Popping a non-goal entry and expanding it keeps, for every bound `c`,
     * an entry on a goal path of cost at most `c`: either an entry left in
     * place or the child through which the popped node's goal path continues.
     */
    lemma ExpansionKeepsCheapGoal(q: seq<Entry<S, A>>, i: nat, rest: seq<Entry<S, A>>,
                                  fringe: seq<Entry<S, A>>, gen0: nat)
      requires i < |q| && rest == q[..i] + q[i + 1..] && !problem.isGoal(q[i].node.state)
      requires ExpandedFrom(q[i].node, rest, fringe, gen0)
      ensures forall c :: CheapOnFringe(q, c) ==> CheapOnFringe(fringe, c)
    {
      forall c | CheapOnFringe(q, c) ensures CheapOnFringe(fringe, c) {
        var k, c': nat :| 0 <= k < |q| && GoalAtCost(problem, q[k].node.state, c') && q[k].node.pathCost + c' <= c;
        if k != i {
          var k' := if k < i then k else k - 1;
          assert rest[k'] == q[k] && fringe[k'] == q[k];
        } else {
          var n := q[i].node;
          var j := GoalAtCostThroughSuccessor(problem, n.state, c');
          var t := problem.successors(n.state)[j];
          var child := fringe[|rest| + j].node;
          assert ChildVia(child, n, t);
          assert GoalAtCost(problem, child.state, c' - t.cost) && child.pathCost + (c' - t.cost) <= c;
        }
      }
    }

    /**
     * The invariant of the search loop over `fringe`, searching from `start`
     * with `gen` entries generated so far: the fringe invariant; if a goal is
     * reachable from the start, it is reachable from some entry; and every goal
     * path from the start is matched by an entry no more expensive.
     */
    ghost predicate SearchInv(fringe: seq<Entry<S, A>>, start: S, gen: nat)
    {
      && FringeInv(fringe, gen)
      && (GoalReachable(problem, start) ==> exists e :: e in fringe && GoalReachable(problem, e.node.state))
      && (forall c :: GoalAtCost(problem, start, c) ==> CheapOnFringe(fringe, c))
    }

    /** Popping a non-goal entry and expanding it keeps the search invariant. */
    lemma ExpansionKeepsSearchInv(q: seq<Entry<S, A>>, i: nat, rest: seq<Entry<S, A>>,
                                  fringe: seq<Entry<S, A>>, start: S, gen0: nat)
      requires SearchInv(q, start, gen0) && i < |q| && rest == q[..i] + q[i + 1..]
      requires GensIncreasing(rest) && (forall x :: x in rest ==> x in q)
      requires !problem.isGoal(q[i].node.state) && ExpandedFrom(q[i].node, rest, fringe, gen0)
      ensures SearchInv(fringe, start, gen0 + |problem.successors(q[i].node.state)|)
    {
      ExpansionKeepsFringeInv(q, q[i], rest, fringe, gen0);
      if GoalReachable(problem, start) {
        ExpansionKeepsReachableGoal(q, i, rest, fringe, gen0);
      }
      ExpansionKeepsCheapGoal(q, i, rest, fringe, gen0);
    }

    /**
     * With an admissible heuristic, the entry that leaves the fringe before
     * every other one costs no more than any goal path from the start: some
     * entry matches that path, its f bounds the path's cost from below, and
     * the popped entry's f is no greater and bounds its own path cost.
     */
    lemma PoppedIsCheapest(q: seq<Entry<S, A>>, i: nat, rest: seq<Entry<S, A>>, start: S, gen: nat)
      requires SearchInv(q, start, gen) && i < |q| && rest == q[..i] + q[i + 1..]
      requires forall x :: x in rest ==> KeyLess(q[i], x)
      ensures Admissible(problem, heuristic) ==>
        forall c :: GoalAtCost(problem, start, c) ==> q[i].node.pathCost <= c
    {
      if Admissible(problem, heuristic) {
        forall c | GoalAtCost(problem, start, c) ensures q[i].node.pathCost <= c {
          assert CheapOnFringe(q, c);
          var k, c': nat :| 0 <= k < |q| && GoalAtCost(problem, q[k].node.state, c') && q[k].node.pathCost + c' <= c;
          assert q[i] in q && q[k] in q;
          if k != i {
            var k' := if k < i then k else k - 1;
            assert rest[k'] == q[k] && rest[k'] in rest;
            AdmissibleBoundsF(q[k].node, c');
          }
        }
      }
    }

    /** Under an admissible heuristic, f never exceeds the cost of a goal path through the node. */
    lemma AdmissibleBoundsF(n: Node<S, A>, c: nat)
      requires Admissible(problem, heuristic) && GoalAtCost(problem, n.state, c)
      ensures F(n) <= n.pathCost + c
    {
    }

    /**
     * `search()`. Both counters restart at 0. The goal test happens when a
     * node is popped, so a goal start state is returned before anything is
     * expanded. `fuel` caps the number of expansions; the source has no such
     * cap and can run forever on an infinite tree.
     */
    method Search(fuel: nat) returns (r: Outcome<Node<S, A>>)
      modifies this
      ensures |problem.startStates| == 0 ==> r == Exhausted && expandedNodes == 0 && generatedCount == 0
      ensures r.Found? ==> Generated(problem, r.node) && problem.isGoal(r.node.state)
      ensures r.Exhausted? ==> |problem.startStates| == 0 || !GoalReachable(problem, problem.startStates[0])
      ensures r.OutOfFuel? ==> expandedNodes == fuel
      ensures expandedNodes <= fuel
      ensures |problem.startStates| > 0 && problem.isGoal(problem.startStates[0]) ==>
        r.Found? && r.node.depth == 0 && expandedNodes == 0 && generatedCount == 1
      ensures r.Found? && |problem.startStates| > 0 && Admissible(problem, heuristic) ==>
        forall c :: GoalAtCost(problem, problem.startStates[0], c) ==> r.node.pathCost <= c
    {
      expandedNodes := 0;
      generatedCount := 0;
      if |problem.startStates| == 0 {
        return Exhausted;
      }
      var start := problem.startStates[0];
      var root := new Node(start, null, None, 0);
      root.location := Root;
      RootGenerated(problem, root);
      var fringe := [Entry(F(root), generatedCount, root)];
      generatedCount := generatedCount + 1;
      assert SearchInv(fringe, start, generatedCount) by {
        assert GoalReachable(problem, start) ==> fringe[0] in fringe && GoalReachable(problem, fringe[0].node.state);
        forall c | GoalAtCost(problem, start, c) ensures CheapOnFringe(fringe, c) {
          assert fringe[0].node.pathCost + c <= c;
        }
      }
      while fringe != []
        invariant expandedNodes <= fuel
        invariant SearchInv(fringe, start, generatedCount)
        invariant forall e :: e in fringe ==> fresh(e.node)
        invariant expandedNodes == 0 ==> fringe == [Entry(F(root), 0, root)] && generatedCount == 1
        invariant expandedNodes > 0 ==> !problem.isGoal(start)
        decreases fuel - expandedNodes
      {
        ghost var q := fringe;
        var e, rest, i := PopMin(fringe);
        var node := e.node;
        if problem.isGoal(node.state) {
          PoppedIsCheapest(q, i, rest, start, generatedCount);
          return Found(node);
        }
        if expandedNodes == fuel {
          return OutOfFuel;
        }
        ghost var gen0 := generatedCount;
        fringe := Expand(node, rest);
        ExpansionKeepsSearchInv(q, i, rest, fringe, start, gen0);
      }
      return Exhausted;
    }

    /** `tree_search` delegates to `search` and returns what it returns. */
    method TreeSearch(fuel: nat) returns (r: Outcome<Node<S, A>>)
      modifies this
      ensures |problem.startStates| == 0 ==> r == Exhausted && expandedNodes == 0 && generatedCount == 0
      ensures r.Found? ==> Generated(problem, r.node) && problem.isGoal(r.node.state)
      ensures r.Exhausted? ==> |problem.startStates| == 0 || !GoalReachable(problem, problem.startStates[0])
      ensures r.OutOfFuel? ==> expandedNodes == fuel
      ensures expandedNodes <= fuel
      ensures |problem.startStates| > 0 && problem.isGoal(problem.startStates[0]) ==>
        r.Found? && r.node.depth == 0 && expandedNodes == 0 && generatedCount == 1
      ensures r.Found? && |problem.startStates| > 0 && Admissible(problem, heuristic) ==>
        forall c :: GoalAtCost(problem, problem.startStates[0], c) ==> r.node.pathCost <= c
    {
      r := Search(fuel);
    }
  }
}
