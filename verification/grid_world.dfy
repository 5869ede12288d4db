/**
 The production environment of the training service: a 3-by-5 grid with the
 start in the bottom-left corner, the goal in the bottom-right corner and a
 two-cell wall between them. It holds the transition, the state enumeration,
 the initial Q-table, the episode generator and the snapshot's policy and
 Q-table maps.
 */
module GridWorld {
  import opened Wrappers
  import opened Grid
  import opened CellKey
  import opened Greedy

  const H: int := 3
  const W: int := 5
  const START: Cell := Cell(2, 0)
  const GOAL: Cell := Cell(2, 4)
  const WALLS: set<Cell> := {Cell(1, 2), Cell(2, 2)}
  const MAX_STEPS: nat := 50

  const WORLD: GridSpec := GridSpec(H, W, START, GOAL, WALLS)

  predicate IsValid(cell: Cell) {
    WORLD.Valid(cell)
  }

  /** The occupiable cells, listed out: the grid minus its two wall cells. */
  lemma ValidCellsListed(cell: Cell)
    ensures IsValid(cell) <==> cell in {
      Cell(0, 0), Cell(0, 1), Cell(0, 2), Cell(0, 3), Cell(0, 4),
      Cell(1, 0), Cell(1, 1),             Cell(1, 3), Cell(1, 4),
      Cell(2, 0), Cell(2, 1),             Cell(2, 3), Cell(2, 4)}
  {
    if IsValid(cell) {
      assert cell == Cell(cell.r, cell.c);
      if cell.r == 0 {
      } else if cell.r == 1 {
        assert cell.c != 2;
      } else {
        assert cell.r == 2 && cell.c != 2;
      }
    }
  }

  /**
   One environment step for an action given by name: an unknown name is an
   error; otherwise the shared transition rule with this grid's constants.
   */
  function Step(state: Cell, action: string): (res: Result<Transition, StepError>)
    ensures res.Failure? <==> ParseAction(action).None?
    ensures res.Failure? ==> res.error == UnknownAction(action)
    ensures forall a :: action == ActionName(a) ==> res == Success(Move(WORLD, state, a))
    ensures res.Success? && state == GOAL ==> res.value == Transition(GOAL, 0, true)
    ensures res.Success? ==> (res.value.done <==> res.value.next == GOAL)
    ensures res.Success? && IsValid(state) ==> IsValid(res.value.next)
  {
    ParseActionNames();
    match ParseAction(action)
    case None => Failure(UnknownAction(action))
    case Some(a) => Success(Move(WORLD, state, a))
  }

  /**
   The generator's scan from cell (r, c) on: the rest of row `r` left to
   right, then each later row, appending every non-wall cell to `acc`.
   */
  function Scan(r: nat, c: nat, acc: seq<Cell>): seq<Cell>
    decreases H - r, W - c
  {
    if r >= H then acc
    else if c >= W then Scan(r + 1, 0, acc)
    else Scan(r, c + 1, if Cell(r, c) in WALLS then acc else acc + [Cell(r, c)])
  }

  /** Every occupiable cell, in the order the source's generator yields them. */
  function AllStates(): seq<Cell> {
    Scan(0, 0, [])
  }

  /** Cell `x` lies at (r, c) or after it in row-major order. */
  predicate NotBefore(x: Cell, r: int, c: int) {
    x.r > r || (x.r == r && x.c >= c)
  }

  /** The scan adds exactly the occupiable cells at or after (r, c) to what it has. */
  lemma {:induction false} InScan(r: nat, c: nat, acc: seq<Cell>, x: Cell)
    ensures x in Scan(r, c, acc) <==> x in acc || (NotBefore(x, r, c) && IsValid(x))
    decreases H - r, W - c
  {
    if r < H {
      if c >= W {
        InScan(r + 1, 0, acc, x);
      } else {
        var next := if Cell(r, c) in WALLS then acc else acc + [Cell(r, c)];
        InScan(r, c + 1, next, x);
        assert x.r == r && x.c == c ==> x == Cell(r, c);
      }
    }
  }

  /** The enumeration lists exactly the occupiable cells. */
  lemma AllStatesMembers()
    ensures forall x :: x in AllStates() <==> IsValid(x)
  {
    forall x {
      InScan(0, 0, [], x);
    }
  }

  /** Cells listed in strictly increasing row-major order. */
  ghost predicate RowMajorOrder(s: seq<Cell>) {
    forall i, j :: 0 <= i < j < |s| ==> RowMajorBefore(s[i], s[j])
  }

  /** A cell after every cell of a row-major list extends it. */
  lemma SnocOrdered(s: seq<Cell>, x: Cell)
    requires RowMajorOrder(s)
    requires forall y :: y in s ==> RowMajorBefore(y, x)
    ensures RowMajorOrder(s + [x])
  {
    var t := s + [x];
    forall i, j | 0 <= i < j < |t|
      ensures RowMajorBefore(t[i], t[j])
    {
      assert t[i] == s[i];
      if j == |s| {
        assert s[i] in s;
      } else {
        assert t[j] == s[j];
      }
    }
  }

  /** A scan continuing a row-major list of cells before (r, c) keeps it row-major. */
  lemma {:induction false} ScanOrdered(r: nat, c: nat, acc: seq<Cell>)
    requires RowMajorOrder(acc)
    requires forall y :: y in acc ==> RowMajorBefore(y, Cell(r, c))
    ensures RowMajorOrder(Scan(r, c, acc))
    decreases H - r, W - c
  {
    if r < H {
      if c >= W {
        ScanOrdered(r + 1, 0, acc);
      } else if Cell(r, c) in WALLS {
        ScanOrdered(r, c + 1, acc);
      } else {
        SnocOrdered(acc, Cell(r, c));
        ScanOrdered(r, c + 1, acc + [Cell(r, c)]);
      }
    }
  }

  /** The enumeration is strictly row-major, so no cell appears twice. */
  lemma AllStatesOrdered()
    ensures forall i, j :: 0 <= i < j < |AllStates()| ==> RowMajorBefore(AllStates()[i], AllStates()[j])
    ensures forall i, j :: 0 <= i < j < |AllStates()| ==> AllStates()[i] != AllStates()[j]
  {
    ScanOrdered(0, 0, []);
  }

  /** A Q-table: the action values of each state it covers. */
  type QTable = map<Cell, ActionValues>

  /** The initial Q-table: every occupiable cell except the goal, all four values zero. */
  function InitQ(): (q: QTable)
    ensures forall x :: x in q <==> IsValid(x) && x != GOAL
    ensures forall x, a :: x in q ==> q[x].Get(a) == 0.0
  {
    AllStatesMembers();
    map x | x in AllStates() && x != GOAL :: ActionValues(0.0, 0.0, 0.0, 0.0)
  }

  /** The table covers every state an episode can act in. */
  ghost predicate CoversStates(q: QTable) {
    forall x :: IsValid(x) && x != GOAL ==> x in q
  }

  /** Entry `e`, recorded at step `i`, acts from an occupiable non-goal state with the chooser's action. */
  predicate Chosen(choose: (nat, Cell) -> Action, i: nat, e: Entry) {
    e.action == choose(i, e.state) && IsValid(e.state) && e.state != GOAL
  }

  /** Every entry of the trajectory was chosen at its own step. */
  predicate AllChosen(choose: (nat, Cell) -> Action, trajectory: seq<Entry>) {
    forall i :: 0 <= i < |trajectory| ==> Chosen(choose, i, trajectory[i])
  }

  lemma AllChosenExtend(choose: (nat, Cell) -> Action, trajectory: seq<Entry>, e: Entry)
    requires AllChosen(choose, trajectory)
    requires Chosen(choose, |trajectory|, e)
    ensures AllChosen(choose, trajectory + [e])
  {
    var t := trajectory + [e];
    forall i | 0 <= i < |t|
      ensures Chosen(choose, i, t[i])
    {
      if i < |trajectory| {
        assert t[i] == trajectory[i];
      }
    }
  }

  /**
   The loop state of an episode: a rollout from START of at most MAX_STEPS
   chosen moves, standing where the last move ended, with its return so far.
   */
  predicate Walking(choose: (nat, Cell) -> Action, trajectory: seq<Entry>, state: Cell, epReturn: int) {
    && |trajectory| <= MAX_STEPS
    && IsValid(state)
    && IsRollout(WORLD, trajectory, START)
    && (|trajectory| == 0 ==> state == START)
    && (|trajectory| > 0 ==> state == Outcome(WORLD, trajectory[|trajectory| - 1]).next)
    && AllChosen(choose, trajectory)
    && epReturn == SumRewards(trajectory)
  }

  /** One more chosen move from a non-goal state keeps the loop state. */
  lemma WalkingStep(choose: (nat, Cell) -> Action, trajectory: seq<Entry>, state: Cell, epReturn: int, t: Transition)
    requires Walking(choose, trajectory, state, epReturn)
    requires |trajectory| < MAX_STEPS && state != GOAL
    requires t == Move(WORLD, state, choose(|trajectory|, state))
    ensures Walking(choose, trajectory + [Entry(state, choose(|trajectory|, state), t.reward)], t.next, epReturn + t.reward)
  {
    var e := Entry(state, choose(|trajectory|, state), t.reward);
    RolloutExtend(WORLD, trajectory, START, e);
    AllChosenExtend(choose, trajectory, e);
  }

  /**
   A complete episode from START for chooser `choose`: a rollout of 1 to
   MAX_STEPS chosen moves from occupiable states, which stops early only on a
   move into the goal, and whose return is the sum of its rewards: -1 for each
   move before the last, and 10 or -1 for the last according to whether it
   reached the goal.
   */
  predicate Episode(choose: (nat, Cell) -> Action, trajectory: seq<Entry>, epReturn: int) {
    && 0 < |trajectory| <= MAX_STEPS
    && IsRollout(WORLD, trajectory, START)
    && (forall i :: 0 <= i < |trajectory| ==> trajectory[i].action == choose(i, trajectory[i].state))
    && (forall i :: 0 <= i < |trajectory| ==> IsValid(trajectory[i].state))
    && (|trajectory| < MAX_STEPS ==> Outcome(WORLD, trajectory[|trajectory| - 1]).done)
    && (|trajectory| < MAX_STEPS ==> trajectory[|trajectory| - 1].reward == GOAL_REWARD)
    && epReturn == SumRewards(trajectory)
    && epReturn == STEP_REWARD * (|trajectory| - 1)
      + (if Outcome(WORLD, trajectory[|trajectory| - 1]).done then GOAL_REWARD else STEP_REWARD)
  }

  /** When the loop stops, the record is a complete episode with the promised return. */
  lemma WalkingEnd(choose: (nat, Cell) -> Action, trajectory: seq<Entry>, state: Cell, epReturn: int)
    requires Walking(choose, trajectory, state, epReturn)
    requires |trajectory| == MAX_STEPS || state == GOAL
    ensures Episode(choose, trajectory, epReturn)
  {
    assert Chosen(choose, |trajectory| - 1, trajectory[|trajectory| - 1]);
    assert forall i :: 0 <= i < |trajectory| ==> Chosen(choose, i, trajectory[i]);
    RolloutReturn(WORLD, trajectory, START);
  }

  /**
   One episode from START. `choose(t, s)` is the action picked at step `t` in
   state `s` (the source draws it epsilon-greedily from the Q-table). The walk
   stops before acting in the goal, after a finishing move, or after MAX_STEPS
   moves; the result is the record of the walk and its undiscounted return.
   */
  method GenerateEpisode(choose: (nat, Cell) -> Action) returns (trajectory: seq<Entry>, epReturn: int)
    ensures Episode(choose, trajectory, epReturn)
  {
    var state := START;
    trajectory := [];
    epReturn := 0;
    while |trajectory| < MAX_STEPS && state != GOAL
      invariant Walking(choose, trajectory, state, epReturn)
    {
      var action := choose(|trajectory|, state);
      var t := Step(state, ActionName(action)).value;
      WalkingStep(choose, trajectory, state, epReturn, t);
      trajectory := trajectory + [Entry(state, action, t.reward)];
      epReturn := epReturn + t.reward;
      state := t.next;
      if t.done {
        break;
      }
    }
    WalkingEnd(choose, trajectory, state, epReturn);
  }

  /** The cells of the H-by-W rectangle, walls included. */
  function GridCells(): (cells: set<Cell>)
    ensures forall x :: x in cells <==> WORLD.InBounds(x)
  {
    RectCells(H, W)
  }

  /** The rectangle has H * W cells. */
  lemma GridCellsCount()
    ensures |GridCells()| == H * W
  {
    RectCellsCount(H, W);
  }

  /** A published policy value that names an action of maximal value in `values`. */
  predicate NamesBestAction(values: ActionValues, entry: Option<string>) {
    exists a: Action :: entry == Some(ActionName(a)) && IsBest(values, a)
  }

  /** The published policy value of one cell: none for a wall, "G" for the goal, else the greedy action's name. */
  function PolicyEntry(q: QTable, tieBreak: Cell -> nat, x: Cell): Option<string>
    requires CoversStates(q)
    requires WORLD.InBounds(x)
  {
    if x in WALLS then None
    else if x == GOAL then Some("G")
    else Some(ActionName(GreedyAction(q[x], tieBreak(x))))
  }

  /** A wall has no policy value, the goal has "G", and any other cell the name of a best action. */
  lemma PolicyEntryMeaning(q: QTable, tieBreak: Cell -> nat, x: Cell)
    requires CoversStates(q)
    requires WORLD.InBounds(x)
    ensures x in WALLS ==> PolicyEntry(q, tieBreak, x) == None
    ensures x == GOAL ==> PolicyEntry(q, tieBreak, x) == Some("G")
    ensures IsValid(x) && x != GOAL ==> NamesBestAction(q[x], PolicyEntry(q, tieBreak, x))
  {
    if IsValid(x) && x != GOAL {
      var a := GreedyAction(q[x], tieBreak(x));
      assert IsBest(q[x], a);
    }
  }

  /** The policy per cell of the rectangle, before its keys are written as text. */
  function PolicyByCell(q: QTable, tieBreak: Cell -> nat): map<Cell, Option<string>>
    requires CoversStates(q)
  {
    map x | x in GridCells() :: PolicyEntry(q, tieBreak, x)
  }

  /** The per-cell policy is defined on exactly the rectangle's cells. */
  lemma PolicyByCellKeys(q: QTable, tieBreak: Cell -> nat)
    requires CoversStates(q)
    ensures PolicyByCell(q, tieBreak).Keys == GridCells()
  {
  }

  /** The per-cell policy of a cell of the rectangle is its policy entry. */
  lemma PolicyByCellAt(q: QTable, tieBreak: Cell -> nat, x: Cell)
    requires CoversStates(q)
    requires WORLD.InBounds(x)
    ensures x in PolicyByCell(q, tieBreak) && PolicyByCell(q, tieBreak)[x] == PolicyEntry(q, tieBreak, x)
  {
  }

  /**
   The snapshot's policy map: one `"r,c"` key per cell of the rectangle, H * W
   keys in all, each holding its cell's policy entry. `tieBreak(x)` stands in
   for the random choice among tied actions.
   */
  function SnapshotPolicy(q: QTable, tieBreak: Cell -> nat): (policy: map<string, Option<string>>)
    requires CoversStates(q)
    ensures forall x :: WORLD.InBounds(x) ==> KeyOf(x) in policy && policy[KeyOf(x)] == PolicyEntry(q, tieBreak, x)
    ensures forall k :: k in policy ==>
      ParseKey(k).Some? && WORLD.InBounds(ParseKey(k).value) && KeyOf(ParseKey(k).value) == k
    ensures |policy| == H * W
  {
    var policy := Rekey(PolicyByCell(q, tieBreak));
    PolicyKeys(q, tieBreak, policy);
    policy
  }

  /** The re-keyed policy: each cell's entry under its key, no other key, H * W keys. */
  lemma PolicyKeys(q: QTable, tieBreak: Cell -> nat, policy: map<string, Option<string>>)
    requires CoversStates(q)
    requires policy == Rekey(PolicyByCell(q, tieBreak))
    ensures forall x :: WORLD.InBounds(x) ==> KeyOf(x) in policy && policy[KeyOf(x)] == PolicyEntry(q, tieBreak, x)
    ensures forall k :: k in policy ==>
      ParseKey(k).Some? && WORLD.InBounds(ParseKey(k).value) && KeyOf(ParseKey(k).value) == k
    ensures |policy| == H * W
  {
    var byCell := PolicyByCell(q, tieBreak);
    PolicyByCellKeys(q, tieBreak);
    forall x | WORLD.InBounds(x)
      ensures KeyOf(x) in policy && policy[KeyOf(x)] == PolicyEntry(q, tieBreak, x)
    {
      PolicyByCellAt(q, tieBreak, x);
    }
    assert |byCell| == |byCell.Keys|;
    GridCellsCount();
  }

  /**
   What the published policy says under each key: nothing for a wall, "G" for
   the goal, and for every other occupiable cell an action of maximal Q-value.
   */
  lemma SnapshotPolicyValues(q: QTable, tieBreak: Cell -> nat)
    requires CoversStates(q)
    ensures forall x :: x in WALLS ==> KeyOf(x) in SnapshotPolicy(q, tieBreak) && SnapshotPolicy(q, tieBreak)[KeyOf(x)] == None
    ensures KeyOf(GOAL) in SnapshotPolicy(q, tieBreak) && SnapshotPolicy(q, tieBreak)[KeyOf(GOAL)] == Some("G")
    ensures forall x :: IsValid(x) && x != GOAL ==>
      KeyOf(x) in SnapshotPolicy(q, tieBreak) && NamesBestAction(q[x], SnapshotPolicy(q, tieBreak)[KeyOf(x)])
  {
    var policy := SnapshotPolicy(q, tieBreak);
    PolicyEntryMeaning(q, tieBreak, GOAL);
    forall x | x in WALLS
      ensures KeyOf(x) in policy && policy[KeyOf(x)] == None
    {
      PolicyEntryMeaning(q, tieBreak, x);
    }
    forall x | IsValid(x) && x != GOAL
      ensures KeyOf(x) in policy && NamesBestAction(q[x], policy[KeyOf(x)])
    {
      PolicyEntryMeaning(q, tieBreak, x);
    }
  }

  /** The snapshot's Q-table: the same rows under `"r,c"` keys, one key per state. */
  function SnapshotQ(q: QTable): (table: map<string, ActionValues>)
    ensures forall x :: x in q ==> KeyOf(x) in table && table[KeyOf(x)] == q[x]
    ensures forall k :: k in table ==>
      ParseKey(k).Some? && ParseKey(k).value in q && KeyOf(ParseKey(k).value) == k
    ensures |table| == |q|
  {
    Rekey(q)
  }

  /**
   For a table keyed like the initial one, each Q key of the snapshot is also a
   policy key, and there it holds an action name, not "G" or nothing.
   */
  lemma SnapshotKeysAgree(q: QTable, tieBreak: Cell -> nat)
    requires forall x :: x in q <==> IsValid(x) && x != GOAL
    ensures forall k :: k in SnapshotQ(q) ==>
      && k in SnapshotPolicy(q, tieBreak)
      && SnapshotPolicy(q, tieBreak)[k].Some?
      && ParseAction(SnapshotPolicy(q, tieBreak)[k].value).Some?
  {
    forall k | k in SnapshotQ(q) {
      KeyAgrees(q, tieBreak, k);
    }
  }

  /** A key that reads back as a cell of the table is a policy key holding an action name. */
  lemma KeyAgrees(q: QTable, tieBreak: Cell -> nat, k: string)
    requires forall x :: x in q <==> IsValid(x) && x != GOAL
    requires ParseKey(k).Some? && ParseKey(k).value in q && KeyOf(ParseKey(k).value) == k
    ensures k in SnapshotPolicy(q, tieBreak)
    ensures SnapshotPolicy(q, tieBreak)[k].Some? && ParseAction(SnapshotPolicy(q, tieBreak)[k].value).Some?
  {
    var x := ParseKey(k).value;
    PolicyNamesAction(q, tieBreak, x);
  }

  /** At an occupiable non-goal cell the published policy holds an action name. */
  lemma PolicyNamesAction(q: QTable, tieBreak: Cell -> nat, x: Cell)
    requires CoversStates(q)
    requires IsValid(x) && x != GOAL
    ensures KeyOf(x) in SnapshotPolicy(q, tieBreak)
    ensures SnapshotPolicy(q, tieBreak)[KeyOf(x)].Some?
    ensures ParseAction(SnapshotPolicy(q, tieBreak)[KeyOf(x)].value).Some?
  {
    PolicyEntryMeaning(q, tieBreak, x);
    ParseActionNames();
  }
}
