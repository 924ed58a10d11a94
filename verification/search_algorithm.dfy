/**
 * The abstract algorithm: it stores the problem, starts its expansion
 * counter at zero, and leaves `search` to the concrete strategies.
 */
module SearchAlgorithmBase {
  import opened Wrappers
  import opened SearchProblem
  import opened SearchNode

  /**
   * What a bounded search run ends with: a goal node, the fringe running dry
   * (the source's `None`), or the run bound being reached first.
   */
  datatype Outcome<T> = Found(node: T) | Exhausted | OutOfFuel

  /** The `NotImplementedError` of the abstract `search`. */
  datatype SearchError = NotImplemented

  class SearchAlgorithm<S, A> {
    const problem: Problem<S, A>
    var expandedNodes: nat

    /** Stores the problem, which is never changed afterwards, and zeroes the counter. */
    constructor (problem: Problem<S, A>)
      ensures this.problem == problem && expandedNodes == 0
    {
      this.problem := problem;
      expandedNodes := 0;
    }

    /** The base `search` always fails: concrete strategies must supply their own. */
    method Search() returns (r: Result<Option<Node<S, A>>, SearchError>)
      ensures r.Failure? && r.error == NotImplemented
    {
      r := Failure(NotImplemented);
    }

    /** `tree_search` hands back whatever `search` returns. */
    method TreeSearch() returns (r: Result<Option<Node<S, A>>, SearchError>)
      ensures r.Failure? && r.error == NotImplemented
    {
      r := Search();
    }
  }
}
