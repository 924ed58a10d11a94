/**
 * The kiwis-and-dogs routing puzzle: kiwis and dogs stand on the vertices
 * A to G of a small graph, every edge has a cost and may carry a guard on who
 * stands where, and the goal is every kiwi at the tree (A) and every dog at
 * the bone (E).
 */
module KiwisAndDogs {
  import opened Wrappers
  import opened PyText
  import opened SearchProblem

  type Vertex = string

  /** Where each kiwi and each dog stands. */
  datatype State = State(kiwis: seq<Vertex>, dogs: seq<Vertex>)

  const Tree: Vertex := "A"
  const Bone: Vertex := "E"
  const NumKiwis: nat := 2
  const NumDogs: nat := 1

  /** The edge table: cost and guard of every directed edge. */
  const Graph: map<(Vertex, Vertex), (nat, string)> := map[
    ("A", "B") := (3, "nobody(E)"),
    ("A", "C") := (4, ""),
    ("B", "A") := (3, "nobody(E)"),
    ("B", "C") := (1, ""),
    ("B", "G") := (5, ""),
    ("C", "B") := (1, ""),
    ("C", "D") := (2, "somebody(E),somebody(G)"),
    ("C", "A") := (4, ""),
    ("D", "C") := (2, "somebody(E),somebody(G)"),
    ("D", "E") := (8, "somebody(A)"),
    ("D", "F") := (3, "somebody(C)"),
    ("E", "D") := (8, "somebody(A)"),
    ("E", "F") := (5, ""),
    ("F", "D") := (3, "somebody(C)"),
    ("F", "E") := (5, ""),
    ("F", "G") := (7, ""),
    ("G", "F") := (7, ""),
    ("G", "B") := (5, "")
  ]

  /** The single start state: kiwis on D and F, the dog on C. */
  function StartStates(): (r: seq<State>)
    ensures |r| == 1 && |r[0].kiwis| == NumKiwis && |r[0].dogs| == NumDogs
    ensures !IsGoalState(r[0])
  {
    [State(["D", "F"], ["C"])]
  }

  /** Python's `all(x == v for x in xs)`. */
  function AllAt(xs: seq<Vertex>, v: Vertex): (r: bool)
    ensures r <==> forall k :: 0 <= k < |xs| ==> xs[k] == v
  {
    if xs == [] then true else xs[0] == v && AllAt(xs[1..], v)
  }

  /** The goal: every kiwi at the tree and every dog at the bone. */
  function IsGoalState(s: State): (r: bool)
    ensures r <==>
      && (forall k :: 0 <= k < |s.kiwis| ==> s.kiwis[k] == Tree)
      && (forall k :: 0 <= k < |s.dogs| ==> s.dogs[k] == Bone)
  {
    AllAt(s.kiwis, Tree) && AllAt(s.dogs, Bone)
  }

  /** Some kiwi or some dog stands on `v`. */
  predicate Occupied(s: State, v: Vertex)
  {
    v in s.kiwis || v in s.dogs
  }

  /** Python's `c[k:-1]`: the text after the first `k` characters, without the last character. */
  function Inner(c: string, k: nat): (r: string)
    ensures |c| > k ==> |r| == |c| - k - 1 && forall i :: 0 <= i < |r| ==> r[i] == c[k + i]
    ensures |c| <= k ==> r == ""
  {
    if |c| > k then c[k..|c| - 1] else ""
  }

  /**
   * One guard condition: `somebody(X)` asks that X be occupied, `nobody(X)`
   * that it be free; any other text is accepted.
   */
  function ConditionHolds(s: State, c: string): (r: bool)
    ensures !StartsWith(c, "somebody(") && !StartsWith(c, "nobody(") ==> r
  {
    if StartsWith(c, "somebody(") then Occupied(s, Inner(c, 9))
    else if StartsWith(c, "nobody(") then !Occupied(s, Inner(c, 7))
    else true
  }

  /** `[c.strip() for c in pieces if c.strip()]`. */
  function StripNonEmpty(pieces: seq<string>): (r: seq<string>)
    ensures forall c :: c in r <==> c != "" && exists p :: p in pieces && Strip(p) == c
  {
    if pieces == [] then []
    else
      var c := Strip(pieces[0]);
      var rest := StripNonEmpty(pieces[1..]);
      assert forall p :: p in pieces[1..] ==> p in pieces;
      assert forall p :: p in pieces ==> p == pieces[0] || p in pieces[1..];
      if c != "" then [c] + rest else rest
  }

  /** Pieces that are already stripped and non-blank are kept as they are. */
  lemma {:induction false} StripNonEmptyUnpadded(pieces: seq<string>)
    requires forall k :: 0 <= k < |pieces| ==> Unpadded(pieces[k])
    ensures StripNonEmpty(pieces) == pieces
  {
    if pieces != [] {
      StripUnpadded(pieces[0]);
      StripNonEmptyUnpadded(pieces[1..]);
    }
  }

  /** The non-blank, stripped comma-separated conditions of a guard. */
  function ParseConditions(conditions: string): (r: seq<string>)
    ensures forall c :: c in r ==> c != "" && ',' !in c
  {
    var pieces := Split(conditions, ',');
    var r := StripNonEmpty(pieces);
    forall c | c in r
      ensures ',' !in c
    {
      var p :| p in pieces && Strip(p) == c;
    }
    r
  }

  /** The loop over the conditions with its early `return False`. */
  function AllHold(s: State, conds: seq<string>): (r: bool)
    ensures r <==> forall k :: 0 <= k < |conds| ==> ConditionHolds(s, conds[k])
  {
    if conds == [] then true
    else if !ConditionHolds(s, conds[0]) then false
    else AllHold(s, conds[1..])
  }

  /**
   * `_check_conditions(state, conditions)`: an empty guard passes; otherwise
   * the guard passes exactly when each of its conditions holds.
   */
  function CheckConditions(s: State, conditions: string): (r: bool)
    ensures conditions == "" ==> r
    ensures r <==> forall c :: c in ParseConditions(conditions) ==> ConditionHolds(s, c)
  {
    if conditions == "" then true else AllHold(s, ParseConditions(conditions))
  }

  /** A guard without a comma, with no space at either end, is its single condition. */
  lemma SingleCondition(c: string)
    requires Unpadded(c) && ',' !in c
    ensures ParseConditions(c) == [c]
  {
    SplitWithoutSep(c, ',');
    StripNonEmptyUnpadded([c]);
  }

  /** A guard of one condition holds exactly when that condition does. */
  lemma SingleGuard(s: State, c: string)
    requires Unpadded(c) && ',' !in c
    ensures CheckConditions(s, c) <==> ConditionHolds(s, c)
  {
    SingleCondition(c);
  }

  /** The condition text `somebody(v)`. */
  function Somebody(v: Vertex): string
  {
    "somebody(" + v + ")"
  }

  /** The condition text `nobody(v)`. */
  function Nobody(v: Vertex): string
  {
    "nobody(" + v + ")"
  }

  /** `somebody(v)` asks that `v` be occupied. */
  lemma SomebodyCondition(s: State, v: Vertex)
    ensures ConditionHolds(s, Somebody(v)) <==> Occupied(s, v)
  {
    var c := Somebody(v);
    assert c[..9] == "somebody(";
    assert c[9..|c| - 1] == v;
  }

  /** `nobody(v)` asks that `v` be free. */
  lemma NobodyCondition(s: State, v: Vertex)
    ensures ConditionHolds(s, Nobody(v)) <==> !Occupied(s, v)
  {
    var c := Nobody(v);
    assert c[0] != "somebody("[0];
    assert c[..7] == "nobody(";
    assert c[7..|c| - 1] == v;
  }

  /** Written around a vertex without a comma, a condition has no comma and no space at either end. */
  lemma WrappedUnpadded(v: Vertex)
    requires ',' !in v
    ensures Unpadded(Somebody(v)) && ',' !in Somebody(v)
    ensures Unpadded(Nobody(v)) && ',' !in Nobody(v)
  {
  }

  /** The guard `somebody(v)` passes exactly when `v` is occupied. */
  lemma SomebodyGuard(s: State, v: Vertex)
    requires ',' !in v
    ensures CheckConditions(s, Somebody(v)) <==> Occupied(s, v)
  {
    WrappedUnpadded(v);
    SingleGuard(s, Somebody(v));
    SomebodyCondition(s, v);
  }

  /** The guard `nobody(v)` passes exactly when `v` is free. */
  lemma NobodyGuard(s: State, v: Vertex)
    requires ',' !in v
    ensures CheckConditions(s, Nobody(v)) <==> !Occupied(s, v)
  {
    WrappedUnpadded(v);
    SingleGuard(s, Nobody(v));
    NobodyCondition(s, v);
  }

  /** Two such conditions joined by a comma parse into the two of them. */
  lemma TwoConditions(c1: string, c2: string)
    requires Unpadded(c1) && ',' !in c1 && Unpadded(c2) && ',' !in c2
    ensures ParseConditions(c1 + [','] + c2) == [c1, c2]
  {
    var both := c1 + [','] + c2;
    assert Split(both, ',') == [c1, c2] by {
      assert both[..|c1|] == c1 && both[|c1| + 1..] == c2;
      SplitAtFirstSep(both, ',', |c1|);
      SplitWithoutSep(c2, ',');
    }
    StripNonEmptyUnpadded([c1, c2]);
  }

  /** A guard of two such conditions holds exactly when both do. */
  lemma TwoGuard(s: State, c1: string, c2: string)
    requires Unpadded(c1) && ',' !in c1 && Unpadded(c2) && ',' !in c2
    ensures CheckConditions(s, c1 + [','] + c2) <==> ConditionHolds(s, c1) && ConditionHolds(s, c2)
  {
    TwoConditions(c1, c2);
  }

  /** The guard `somebody(v),somebody(w)` passes exactly when both are occupied. */
  lemma SomebodyBothGuard(s: State, v: Vertex, w: Vertex)
    requires ',' !in v && ',' !in w
    ensures CheckConditions(s, Somebody(v) + [','] + Somebody(w)) <==> Occupied(s, v) && Occupied(s, w)
  {
    WrappedUnpadded(v);
    WrappedUnpadded(w);
    TwoGuard(s, Somebody(v), Somebody(w));
    SomebodyCondition(s, v);
    SomebodyCondition(s, w);
  }

  /** The guard texts of the edge table are the two condition forms written around their vertices. */
  lemma GuardTexts()
    ensures "nobody(E)" == Nobody("E")
    ensures "somebody(A)" == Somebody("A")
    ensures "somebody(C)" == Somebody("C")
    ensures "somebody(E),somebody(G)" == Somebody("E") + [','] + Somebody("G")
  {
  }

  /**
   * Each guard of the edge table reads as what it says: `nobody(E)` asks that
   * E be free, `somebody(A)` and `somebody(C)` that A or C be occupied, and
   * `somebody(E),somebody(G)` that both E and G be.
   */
  lemma GuardMeaning(s: State)
    ensures CheckConditions(s, "nobody(E)") <==> !Occupied(s, "E")
    ensures CheckConditions(s, "somebody(A)") <==> Occupied(s, "A")
    ensures CheckConditions(s, "somebody(C)") <==> Occupied(s, "C")
    ensures CheckConditions(s, "somebody(E),somebody(G)") <==> Occupied(s, "E") && Occupied(s, "G")
  {
    GuardTexts();
    NobodyGuard(s, "E");
    SomebodyGuard(s, "A");
    SomebodyGuard(s, "C");
    SomebodyBothGuard(s, "E", "G");
  }

  datatype Agent = Kiwi | Dog

  /**
   * One `move_<agent>_<from>_to_<to>` action: who moves, along which edge,
   * the cost its decorator declares, and the guard it checks (none for the
   * moves that check nothing).
   */
  datatype Move = Move(agent: Agent, from: Vertex, to: Vertex, cost: nat, guard: Option<string>)

  /** The kiwi move actions, in the order they are defined. */
  const KiwiMoves: seq<Move> := [
    Move(Kiwi, "A", "B", 3, Some("nobody(E)")),                 // move_kiwi_A_to_B
    Move(Kiwi, "A", "C", 4, None),                              // move_kiwi_A_to_C
    Move(Kiwi, "B", "A", 3, Some("nobody(E)")),                 // move_kiwi_B_to_A
    Move(Kiwi, "B", "C", 1, None),                              // move_kiwi_B_to_C
    Move(Kiwi, "B", "G", 5, None),                              // move_kiwi_B_to_G
    Move(Kiwi, "C", "B", 1, None),                              // move_kiwi_C_to_B
    Move(Kiwi, "C", "D", 2, Some("somebody(E),somebody(G)")),   // move_kiwi_C_to_D
    Move(Kiwi, "C", "A", 4, None),                              // move_kiwi_C_to_A
    Move(Kiwi, "D", "C", 2, Some("somebody(E),somebody(G)")),   // move_kiwi_D_to_C
    Move(Kiwi, "D", "E", 8, Some("somebody(A)")),               // move_kiwi_D_to_E
    Move(Kiwi, "D", "F", 3, Some("somebody(C)")),               // move_kiwi_D_to_F
    Move(Kiwi, "E", "D", 8, Some("somebody(A)")),               // move_kiwi_E_to_D
    Move(Kiwi, "E", "F", 5, None),                              // move_kiwi_E_to_F
    Move(Kiwi, "F", "D", 3, Some("somebody(C)")),               // move_kiwi_F_to_D
    Move(Kiwi, "F", "E", 5, None),                              // move_kiwi_F_to_E
    Move(Kiwi, "F", "G", 7, None),                              // move_kiwi_F_to_G
    Move(Kiwi, "G", "F", 7, None),                              // move_kiwi_G_to_F
    Move(Kiwi, "G", "B", 5, None)                               // move_kiwi_G_to_B
  ]

  /** The dog move actions, in the order they are defined. */
  const DogMoves: seq<Move> := [
    Move(Dog, "A", "B", 3, Some("nobody(E)")),                  // move_dog_A_to_B
    Move(Dog, "A", "C", 4, None),                               // move_dog_A_to_C
    Move(Dog, "B", "A", 3, Some("nobody(E)")),                  // move_dog_B_to_A
    Move(Dog, "B", "C", 1, None),                               // move_dog_B_to_C
    Move(Dog, "B", "G", 5, None),                               // move_dog_B_to_G
    Move(Dog, "C", "B", 1, None),                               // move_dog_C_to_B
    Move(Dog, "C", "D", 2, Some("somebody(E),somebody(G)")),    // move_dog_C_to_D
    Move(Dog, "C", "A", 4, None),                               // move_dog_C_to_A
    Move(Dog, "D", "C", 2, Some("somebody(E),somebody(G)")),    // move_dog_D_to_C
    Move(Dog, "D", "E", 8, Some("somebody(A)")),                // move_dog_D_to_E
    Move(Dog, "D", "F", 3, Some("somebody(C)")),                // move_dog_D_to_F
    Move(Dog, "E", "D", 8, Some("somebody(A)")),                // move_dog_E_to_D
    Move(Dog, "E", "F", 5, None),                               // move_dog_E_to_F
    Move(Dog, "F", "D", 3, Some("somebody(C)")),                // move_dog_F_to_D
    Move(Dog, "F", "E", 5, None),                               // move_dog_F_to_E
    Move(Dog, "F", "G", 7, None),                               // move_dog_F_to_G
    Move(Dog, "G", "F", 7, None),                               // move_dog_G_to_F
    Move(Dog, "G", "B", 5, None)                                // move_dog_G_to_B
  ]

  /** All the move actions: the kiwi moves, then the dog moves. */
  const Moves: seq<Move> := KiwiMoves + DogMoves

  /** The guard text as the edge table writes it: empty for an unguarded move. */
  function GuardText(g: Option<string>): string
  {
    match g
    case Some(t) => t
    case None => ""
  }

  /** The positions of the agents of one kind. */
  function Slots(s: State, agent: Agent): seq<Vertex>
  {
    match agent
    case Kiwi => s.kiwis
    case Dog => s.dogs
  }

  /**
   * Applies a move to agent number `idx`. It fails unless that agent stands
   * on the move's start vertex and the guard passes; otherwise exactly that
   * agent's slot becomes the end vertex and nothing else changes.
   */
  function ApplyMove(m: Move, s: State, idx: nat): (r: Option<State>)
    requires idx < |Slots(s, m.agent)|
    ensures r.Some? <==> Slots(s, m.agent)[idx] == m.from && (m.guard.None? || CheckConditions(s, m.guard.value))
    ensures r.Some? ==> |Slots(r.value, m.agent)| == |Slots(s, m.agent)| && Slots(r.value, m.agent)[idx] == m.to
    ensures r.Some? ==> forall k :: 0 <= k < |Slots(s, m.agent)| && k != idx ==> Slots(r.value, m.agent)[k] == Slots(s, m.agent)[k]
    ensures r.Some? && m.agent == Kiwi ==> r.value.dogs == s.dogs
    ensures r.Some? && m.agent == Dog ==> r.value.kiwis == s.kiwis
  {
    if Slots(s, m.agent)[idx] != m.from then None
    else if m.guard.Some? && !CheckConditions(s, m.guard.value) then None
    else
      match m.agent
      case Kiwi => Some(State(s.kiwis[idx := m.to], s.dogs))
      case Dog => Some(State(s.kiwis, s.dogs[idx := m.to]))
  }

  /** An action: move number `move` of the table, applied to agent number `idx`. */
  datatype Action = Action(move: nat, idx: nat)

  /** The action names a move of `ms` and an existing agent, and the move succeeds from `s`. */
  predicate EnabledIn(s: State, ms: seq<Move>, a: Action)
  {
    a.move < |ms| && a.idx < |Slots(s, ms[a.move].agent)| && ApplyMove(ms[a.move], s, a.idx).Some?
  }

  /** The action names a move of the table and an existing agent, and the move succeeds from `s`. */
  predicate Enabled(s: State, a: Action)
  {
    EnabledIn(s, Moves, a)
  }

  /** The entry's state is that of applying its action, a move of `ms`, at that move's cost. */
  predicate ProducesIn(s: State, ms: seq<Move>, t: Successor<State, Action>)
  {
    t.action.move < |ms| && ProducedBy(s, ms[t.action.move], t.action.move, t)
  }

  /** The entry's state is that of applying its action, at its move's cost. */
  predicate Produces(s: State, t: Successor<State, Action>)
  {
    ProducesIn(s, Moves, t)
  }

  /** `t` is the outcome of applying move `m`, numbered `i`, to the agent its action names. */
  predicate ProducedBy(s: State, m: Move, i: nat, t: Successor<State, Action>)
  {
    t.action.move == i && t.action.idx < |Slots(s, m.agent)| && ApplyMove(m, s, t.action.idx) == Some(t.state)
    && t.cost == m.cost
  }

  /** The successor entry of move `m`, numbered `i`, for agent `idx`: one entry if the move succeeds, none otherwise. */
  function MoveEntry(s: State, m: Move, i: nat, idx: nat): (r: seq<Successor<State, Action>>)
    requires idx < |Slots(s, m.agent)|
    ensures |r| <= 1
    ensures r != [] <==> ApplyMove(m, s, idx).Some?
    ensures r != [] ==> r[0].action == Action(i, idx) && ProducedBy(s, m, i, r[0])
  {
    match ApplyMove(m, s, idx)
    case Some(t) => [Successor(Action(i, idx), t, m.cost)]
    case None => []
  }

  /** The successors through move `m`, numbered `i`, for the agents numbered `idx` and up. */
  function MoveSuccessors(s: State, m: Move, i: nat, idx: nat): (r: seq<Successor<State, Action>>)
    requires idx <= |Slots(s, m.agent)|
    ensures forall k :: 0 <= k < |r| ==> ProducedBy(s, m, i, r[k]) && idx <= r[k].action.idx
    ensures forall j :: idx <= j < |Slots(s, m.agent)| && ApplyMove(m, s, j).Some? ==>
      exists k :: 0 <= k < |r| && r[k].action == Action(i, j)
    decreases |Slots(s, m.agent)| - idx
  {
    if idx == |Slots(s, m.agent)| then []
    else
      var rest := MoveSuccessors(s, m, i, idx + 1);
      var here := MoveEntry(s, m, i, idx);
      forall j | idx <= j < |Slots(s, m.agent)| && ApplyMove(m, s, j).Some?
        ensures exists k :: 0 <= k < |here + rest| && (here + rest)[k].action == Action(i, j)
      {
        if j == idx {
          assert here[0].action == Action(i, j);
        }
        AppendFinds(here, rest, Action(i, j));
      }
      here + rest
  }

  /** The successors through the moves of `ms` numbered `i` and up. */
  function SuccessorsFrom(s: State, ms: seq<Move>, i: nat): (r: seq<Successor<State, Action>>)
    requires i <= |ms|
    ensures forall k :: 0 <= k < |r| ==> ProducesIn(s, ms, r[k]) && i <= r[k].action.move
    ensures forall a: Action :: i <= a.move && EnabledIn(s, ms, a) ==> exists k :: 0 <= k < |r| && r[k].action == a
    decreases |ms| - i
  {
    if i == |ms| then []
    else
      var here := MoveSuccessors(s, ms[i], i, 0);
      var rest := SuccessorsFrom(s, ms, i + 1);
      forall k | 0 <= k < |here + rest|
        ensures ProducesIn(s, ms, (here + rest)[k]) && i <= (here + rest)[k].action.move
      {
        if k < |here| {
          assert (here + rest)[k] == here[k];
        } else {
          assert (here + rest)[k] == rest[k - |here|];
        }
      }
      forall a: Action | i <= a.move && EnabledIn(s, ms, a)
        ensures exists k :: 0 <= k < |here + rest| && (here + rest)[k].action == a
      {
        AppendFinds(here, rest, a);
      }
      here + rest
  }

  /** An action found in either part of a concatenation is found in the whole. */
  lemma AppendFinds(xs: seq<Successor<State, Action>>, ys: seq<Successor<State, Action>>, a: Action)
    requires (exists k :: 0 <= k < |xs| && xs[k].action == a) || (exists k :: 0 <= k < |ys| && ys[k].action == a)
    ensures exists k :: 0 <= k < |xs + ys| && (xs + ys)[k].action == a
  {
    if k :| 0 <= k < |xs| && xs[k].action == a {
      assert (xs + ys)[k] == xs[k];
    } else {
      var k :| 0 <= k < |ys| && ys[k].action == a;
      assert (xs + ys)[|xs| + k] == ys[k];
    }
  }

  /**
   * The successors of a state: one entry for every move and agent for which
   * the move succeeds, and nothing else.
   */
  function Successors(s: State): (r: seq<Successor<State, Action>>)
    ensures forall k :: 0 <= k < |r| ==> Produces(s, r[k])
    ensures forall a: Action :: Enabled(s, a) ==> exists k :: 0 <= k < |r| && r[k].action == a
  {
    SuccessorsFrom(s, Moves, 0)
  }

  /** No move adds or removes an agent: every successor has as many kiwis and dogs as its parent. */
  lemma SuccessorsKeepCounts(s: State)
    ensures forall k :: 0 <= k < |Successors(s)| ==>
      |Successors(s)[k].state.kiwis| == |s.kiwis| && |Successors(s)[k].state.dogs| == |s.dogs|
  {
    var r := Successors(s);
    forall k | 0 <= k < |r|
      ensures |r[k].state.kiwis| == |s.kiwis| && |r[k].state.dogs| == |s.dogs|
    {
      assert Produces(s, r[k]);
      var m := Moves[r[k].action.move];
      match m.agent
      case Kiwi =>
      case Dog =>
    }
  }

  /** The puzzle as a search problem; it has no heuristic. */
  function KiwisProblem(): (r: Problem<State, Action>)
    ensures r.startStates == StartStates() && r.heuristic.None?
    ensures forall s :: r.isGoal(s) == IsGoalState(s) && r.successors(s) == Successors(s)
    ensures |r.startStates| == 1 && !r.isGoal(r.startStates[0])
  {
    Problem(StartStates(), IsGoalState, Successors, None)
  }

  /** The edge a move walks along. */
  function EdgeOf(m: Move): (Vertex, Vertex)
  {
    (m.from, m.to)
  }

  /** A move's declared cost and checked guard are those of its edge in the table. */
  predicate AgreesWithGraph(m: Move)
  {
    EdgeOf(m) in Graph && Graph[EdgeOf(m)] == (m.cost, GuardText(m.guard))
  }

  /** The dog moves repeat the kiwi moves edge for edge, cost for cost and guard for guard. */
  lemma DogMovesMirrorKiwiMoves()
    ensures |DogMoves| == |KiwiMoves|
    ensures forall i :: 0 <= i < |KiwiMoves| ==> DogMoves[i] == KiwiMoves[i].(agent := Dog)
  {
  }

  // The facts about the two literal tables are proved three entries at a time
  // (the `Chunk` lemmas below); the lemmas that combine them state the
  // properties for the whole tables.

  /** Kiwi moves 0 to 2 agree with the table. */
  lemma KiwiMovesAgreeChunk0()
    ensures forall i :: 0 <= i < 3 ==> AgreesWithGraph(KiwiMoves[i])
  {
    assert AgreesWithGraph(KiwiMoves[0]) && AgreesWithGraph(KiwiMoves[1]) && AgreesWithGraph(KiwiMoves[2]);
  }

  /** Kiwi moves 3 to 5 agree with the table. */
  lemma KiwiMovesAgreeChunk1()
    ensures forall i :: 3 <= i < 6 ==> AgreesWithGraph(KiwiMoves[i])
  {
    assert AgreesWithGraph(KiwiMoves[3]) && AgreesWithGraph(KiwiMoves[4]) && AgreesWithGraph(KiwiMoves[5]);
  }

  /** Kiwi moves 6 to 8 agree with the table. */
  lemma KiwiMovesAgreeChunk2()
    ensures forall i :: 6 <= i < 9 ==> AgreesWithGraph(KiwiMoves[i])
  {
    assert AgreesWithGraph(KiwiMoves[6]) && AgreesWithGraph(KiwiMoves[7]) && AgreesWithGraph(KiwiMoves[8]);
  }

  /** Kiwi moves 9 to 11 agree with the table. */
  lemma KiwiMovesAgreeChunk3()
    ensures forall i :: 9 <= i < 12 ==> AgreesWithGraph(KiwiMoves[i])
  {
    assert AgreesWithGraph(KiwiMoves[9]) && AgreesWithGraph(KiwiMoves[10]) && AgreesWithGraph(KiwiMoves[11]);
  }

  /** Kiwi moves 12 to 14 agree with the table. */
  lemma KiwiMovesAgreeChunk4()
    ensures forall i :: 12 <= i < 15 ==> AgreesWithGraph(KiwiMoves[i])
  {
    assert AgreesWithGraph(KiwiMoves[12]) && AgreesWithGraph(KiwiMoves[13]) && AgreesWithGraph(KiwiMoves[14]);
  }

  /** Kiwi moves 15 to 17 agree with the table. */
  lemma KiwiMovesAgreeChunk5()
    ensures forall i :: 15 <= i < 18 ==> AgreesWithGraph(KiwiMoves[i])
  {
    assert AgreesWithGraph(KiwiMoves[15]) && AgreesWithGraph(KiwiMoves[16]) && AgreesWithGraph(KiwiMoves[17]);
  }

  /** Every kiwi move's declared cost and checked guard are those of its edge in the table. */
  lemma KiwiMovesAgreeWithGraph()
    ensures forall i :: 0 <= i < |KiwiMoves| ==> AgreesWithGraph(KiwiMoves[i])
  {
    KiwiMovesAgreeChunk0();
    KiwiMovesAgreeChunk1();
    KiwiMovesAgreeChunk2();
    KiwiMovesAgreeChunk3();
    KiwiMovesAgreeChunk4();
    KiwiMovesAgreeChunk5();
  }

  /** Every move's declared cost and checked guard are those of its edge in the table. */
  lemma MovesAgreeWithGraph()
    ensures forall i :: 0 <= i < |Moves| ==> AgreesWithGraph(Moves[i])
  {
    KiwiMovesAgreeWithGraph();
    DogMovesMirrorKiwiMoves();
    MovesHalves();
    forall i | 0 <= i < |Moves|
      ensures AgreesWithGraph(Moves[i])
    {
      if i >= |KiwiMoves| {
        assert Moves[i] == DogMoves[i - |KiwiMoves|];
        assert AgreesWithGraph(KiwiMoves[i - |KiwiMoves|]);
      } else {
        assert Moves[i] == KiwiMoves[i];
      }
    }
  }

  /** The edges of the table, in the order of its entries. */
  lemma GraphKeys()
    ensures forall e :: e in Graph ==> e in {("A", "B"), ("A", "C"), ("B", "A"), ("B", "C"), ("B", "G"), ("C", "B"), ("C", "D"), ("C", "A"), ("D", "C"), ("D", "E"), ("D", "F"), ("E", "D"), ("E", "F"), ("F", "D"), ("F", "E"), ("F", "G"), ("G", "F"), ("G", "B")}
  {
  }

  /** Some kiwi move walks edge `e`. */
  ghost predicate KiwiWalks(e: (Vertex, Vertex))
  {
    exists i :: 0 <= i < |KiwiMoves| && EdgeOf(KiwiMoves[i]) == e
  }

  /** The edges of table entries 0 to 2 are walked by kiwi moves 0 to 2. */
  lemma KiwiMovesCoverChunk0()
    ensures KiwiWalks(("A", "B")) && KiwiWalks(("A", "C")) && KiwiWalks(("B", "A"))
  {
    assert EdgeOf(KiwiMoves[0]) == ("A", "B");
    assert EdgeOf(KiwiMoves[1]) == ("A", "C");
    assert EdgeOf(KiwiMoves[2]) == ("B", "A");
  }

  /** The edges of table entries 3 to 5 are walked by kiwi moves 3 to 5. */
  lemma KiwiMovesCoverChunk1()
    ensures KiwiWalks(("B", "C")) && KiwiWalks(("B", "G")) && KiwiWalks(("C", "B"))
  {
    assert EdgeOf(KiwiMoves[3]) == ("B", "C");
    assert EdgeOf(KiwiMoves[4]) == ("B", "G");
    assert EdgeOf(KiwiMoves[5]) == ("C", "B");
  }

  /** The edges of table entries 6 to 8 are walked by kiwi moves 6 to 8. */
  lemma KiwiMovesCoverChunk2()
    ensures KiwiWalks(("C", "D")) && KiwiWalks(("C", "A")) && KiwiWalks(("D", "C"))
  {
    assert EdgeOf(KiwiMoves[6]) == ("C", "D");
    assert EdgeOf(KiwiMoves[7]) == ("C", "A");
    assert EdgeOf(KiwiMoves[8]) == ("D", "C");
  }

  /** The edges of table entries 9 to 11 are walked by kiwi moves 9 to 11. */
  lemma KiwiMovesCoverChunk3()
    ensures KiwiWalks(("D", "E")) && KiwiWalks(("D", "F")) && KiwiWalks(("E", "D"))
  {
    assert EdgeOf(KiwiMoves[9]) == ("D", "E");
    assert EdgeOf(KiwiMoves[10]) == ("D", "F");
    assert EdgeOf(KiwiMoves[11]) == ("E", "D");
  }

  /** The edges of table entries 12 to 14 are walked by kiwi moves 12 to 14. */
  lemma KiwiMovesCoverChunk4()
    ensures KiwiWalks(("E", "F")) && KiwiWalks(("F", "D")) && KiwiWalks(("F", "E"))
  {
    assert EdgeOf(KiwiMoves[12]) == ("E", "F");
    assert EdgeOf(KiwiMoves[13]) == ("F", "D");
    assert EdgeOf(KiwiMoves[14]) == ("F", "E");
  }

  /** The edges of table entries 15 to 17 are walked by kiwi moves 15 to 17. */
  lemma KiwiMovesCoverChunk5()
    ensures KiwiWalks(("F", "G")) && KiwiWalks(("G", "F")) && KiwiWalks(("G", "B"))
  {
    assert EdgeOf(KiwiMoves[15]) == ("F", "G");
    assert EdgeOf(KiwiMoves[16]) == ("G", "F");
    assert EdgeOf(KiwiMoves[17]) == ("G", "B");
  }

  /** The edges A-B, A-C, B-C are listed both ways, with the same cost and guard. */
  lemma GraphSymmetricChunk0()
    ensures ("A", "B") in Graph && ("B", "A") in Graph && Graph[("A", "B")] == Graph[("B", "A")]
    ensures ("A", "C") in Graph && ("C", "A") in Graph && Graph[("A", "C")] == Graph[("C", "A")]
    ensures ("B", "C") in Graph && ("C", "B") in Graph && Graph[("B", "C")] == Graph[("C", "B")]
  {
  }

  /** The edges B-G, C-D, D-E are listed both ways, with the same cost and guard. */
  lemma GraphSymmetricChunk1()
    ensures ("B", "G") in Graph && ("G", "B") in Graph && Graph[("B", "G")] == Graph[("G", "B")]
    ensures ("C", "D") in Graph && ("D", "C") in Graph && Graph[("C", "D")] == Graph[("D", "C")]
    ensures ("D", "E") in Graph && ("E", "D") in Graph && Graph[("D", "E")] == Graph[("E", "D")]
  {
  }

  /** The edges D-F, E-F, F-G are listed both ways, with the same cost and guard. */
  lemma GraphSymmetricChunk2()
    ensures ("D", "F") in Graph && ("F", "D") in Graph && Graph[("D", "F")] == Graph[("F", "D")]
    ensures ("E", "F") in Graph && ("F", "E") in Graph && Graph[("E", "F")] == Graph[("F", "E")]
    ensures ("F", "G") in Graph && ("G", "F") in Graph && Graph[("F", "G")] == Graph[("G", "F")]
  {
  }

  /** The table is undirected: each edge is listed both ways, with the same cost and guard. */
  lemma GraphSymmetric()
    ensures forall u, v :: (u, v) in Graph ==> (v, u) in Graph && Graph[(v, u)] == Graph[(u, v)]
  {
    GraphKeys();
    GraphSymmetricChunk0();
    GraphSymmetricChunk1();
    GraphSymmetricChunk2();
  }

  /** Every edge of the table is walked by some kiwi move. */
  lemma KiwiMovesCoverGraph()
    ensures forall e :: e in Graph ==> exists i :: 0 <= i < |KiwiMoves| && EdgeOf(KiwiMoves[i]) == e
  {
    GraphKeys();
    KiwiMovesCoverChunk0();
    KiwiMovesCoverChunk1();
    KiwiMovesCoverChunk2();
    KiwiMovesCoverChunk3();
    KiwiMovesCoverChunk4();
    KiwiMovesCoverChunk5();
    forall e | e in Graph
      ensures KiwiWalks(e)
    {
    }
  }

  /** The table lists the kiwi moves first, then the dog moves. */
  lemma MovesHalves()
    ensures |Moves| == |KiwiMoves| + |DogMoves| && |DogMoves| == |KiwiMoves|
    ensures forall i :: 0 <= i < |KiwiMoves| ==> Moves[i] == KiwiMoves[i] && KiwiMoves[i].agent == Kiwi
    ensures forall i :: 0 <= i < |DogMoves| ==> Moves[|KiwiMoves| + i] == DogMoves[i] && DogMoves[i].agent == Dog
  {
  }

  /** Every edge of the table can be walked by a kiwi and by a dog. */
  lemma GraphEdgesHaveMoves()
    ensures forall e :: e in Graph ==>
      && (exists i :: 0 <= i < |Moves| && Moves[i].agent == Kiwi && EdgeOf(Moves[i]) == e)
      && (exists i :: 0 <= i < |Moves| && Moves[i].agent == Dog && EdgeOf(Moves[i]) == e)
  {
    KiwiMovesCoverGraph();
    DogMovesMirrorKiwiMoves();
    MovesHalves();
    forall e | e in Graph
      ensures exists i :: 0 <= i < |Moves| && Moves[i].agent == Kiwi && EdgeOf(Moves[i]) == e
      ensures exists i :: 0 <= i < |Moves| && Moves[i].agent == Dog && EdgeOf(Moves[i]) == e
    {
      var i :| 0 <= i < |KiwiMoves| && EdgeOf(KiwiMoves[i]) == e;
      assert Moves[i].agent == Kiwi && EdgeOf(Moves[i]) == e;
      assert Moves[|KiwiMoves| + i].agent == Dog && EdgeOf(Moves[|KiwiMoves| + i]) == e;
    }
  }
}
