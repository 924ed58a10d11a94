/**
 * The capability interface every domain hands to the search engine: start
 * states, a goal test, a successor generator and an optional heuristic.
 * Costs and heuristic values are natural numbers.
 */
module SearchProblem {
  import opened Wrappers

  /** One `(action, result_state, cost)` triple produced by `successors`. */
  datatype Successor<S, A> = Successor(action: A, state: S, cost: nat)

  /**
   * A search problem. `successors` is taken to return its triples already in
   * the sorted order in which the algorithms enumerate them.
   */
  datatype Problem<!S, A> = Problem(
    startStates: seq<S>,
    isGoal: S -> bool,
    successors: S -> seq<Successor<S, A>>,
    heuristic: Option<S -> nat>)

  /** A goal state lies at most `k` steps below `s` in the search tree. */
  ghost predicate GoalWithin<S, A>(p: Problem<S, A>, s: S, k: nat)
    decreases k
  {
    p.isGoal(s) ||
    (k > 0 && exists i :: 0 <= i < |p.successors(s)| && GoalWithin(p, p.successors(s)[i].state, k - 1))
  }

  /** A goal state lies somewhere below `s` in the search tree. */
  ghost predicate GoalReachable<S, A>(p: Problem<S, A>, s: S)
  {
    exists k: nat :: GoalWithin(p, s, k)
  }

  /** Allowing more steps never loses a goal. */
  lemma {:induction false} GoalWithinMonotone<S, A>(p: Problem<S, A>, s: S, k: nat, m: nat)
    requires k <= m && GoalWithin(p, s, k)
    ensures GoalWithin(p, s, m)
    decreases k
  {
    if !p.isGoal(s) {
      var i :| 0 <= i < |p.successors(s)| && GoalWithin(p, p.successors(s)[i].state, k - 1);
      GoalWithinMonotone(p, p.successors(s)[i].state, k - 1, m - 1);
    }
  }

  /** A non-goal state from which a goal is reachable has a successor from which it is reachable. */
  lemma ReachableThroughSuccessor<S, A>(p: Problem<S, A>, s: S) returns (i: nat)
    requires GoalReachable(p, s) && !p.isGoal(s)
    ensures i < |p.successors(s)| && GoalReachable(p, p.successors(s)[i].state)
  {
    var k: nat :| GoalWithin(p, s, k);
    i :| 0 <= i < |p.successors(s)| && GoalWithin(p, p.successors(s)[i].state, k - 1);
  }

  /**
   * A goal lies at most `k` steps below `s` along successor triples whose
   * costs add up to exactly `c`.
   */
  ghost predicate GoalPathWithin<S, A>(p: Problem<S, A>, s: S, k: nat, c: nat)
    decreases k
  {
    (p.isGoal(s) && c == 0) ||
    (k > 0 && exists i ::
      && 0 <= i < |p.successors(s)| && p.successors(s)[i].cost <= c
      && GoalPathWithin(p, p.successors(s)[i].state, k - 1, c - p.successors(s)[i].cost))
  }

  /** Some path from `s` to a goal state costs exactly `c`. */
  ghost predicate GoalAtCost<S, A>(p: Problem<S, A>, s: S, c: nat)
  {
    exists k: nat :: GoalPathWithin(p, s, k, c)
  }

  /** `h` never overestimates the cost of a path from a state to a goal. */
  ghost predicate Admissible<S(!new), A>(p: Problem<S, A>, h: S -> nat)
  {
    forall s, c :: GoalAtCost(p, s, c) ==> h(s) <= c
  }

  /**
   * A goal path from a non-goal state starts with one of its successor
   * triples, and the rest of the path costs the remainder.
   */
  lemma GoalAtCostThroughSuccessor<S, A>(p: Problem<S, A>, s: S, c: nat) returns (i: nat)
    requires GoalAtCost(p, s, c) && !p.isGoal(s)
    ensures i < |p.successors(s)| && p.successors(s)[i].cost <= c
    ensures GoalAtCost(p, p.successors(s)[i].state, c - p.successors(s)[i].cost)
  {
    var k: nat :| GoalPathWithin(p, s, k, c);
    i :| 0 <= i < |p.successors(s)| && p.successors(s)[i].cost <= c &&
      GoalPathWithin(p, p.successors(s)[i].state, k - 1, c - p.successors(s)[i].cost);
  }

  /** A goal is reachable exactly when some goal path has a cost. */
  lemma {:induction false} GoalAtCostIffReachable<S, A>(p: Problem<S, A>, s: S, k: nat)
    ensures GoalWithin(p, s, k) <==> exists c: nat :: GoalPathWithin(p, s, k, c)
    decreases k
  {
    if GoalWithin(p, s, k) {
      if p.isGoal(s) {
        assert GoalPathWithin(p, s, k, 0);
      } else {
        var i :| 0 <= i < |p.successors(s)| && GoalWithin(p, p.successors(s)[i].state, k - 1);
        var t := p.successors(s)[i];
        GoalAtCostIffReachable(p, t.state, k - 1);
        var c: nat :| GoalPathWithin(p, t.state, k - 1, c);
        assert GoalPathWithin(p, s, k, c + t.cost);
      }
    }
    if exists c: nat :: GoalPathWithin(p, s, k, c) {
      var c: nat :| GoalPathWithin(p, s, k, c);
      if !p.isGoal(s) {
        var i :| 0 <= i < |p.successors(s)| && p.successors(s)[i].cost <= c &&
          GoalPathWithin(p, p.successors(s)[i].state, k - 1, c - p.successors(s)[i].cost);
        var t := p.successors(s)[i];
        GoalAtCostIffReachable(p, t.state, k - 1);
        assert GoalPathWithin(p, t.state, k - 1, c - t.cost);
        assert GoalWithin(p, t.state, k - 1);
      }
    }
  }
}
