/**
 The earlier prototype of the environment: a 3-by-4 grid with the goal in the
 top-right corner and a single wall cell. Its transition is written with a
 chain of guarded moves rather than a computed target, and is proved to be
 the same rule as the production environment's, with these constants. It also
 has its own episode generator and the discounted-return calculation.
 */
module Prototype {
  import opened Wrappers
  import opened Grid

  const H: int := 3
  const W: int := 4
  const START: Cell := Cell(2, 0)
  const GOAL: Cell := Cell(0, 3)
  const WALLS: set<Cell> := {Cell(1, 1)}
  const MAX_STEPS: nat := 50

  /** Discount factor 0.9, as an exact rational. */
  const GAMMA: real := 0.9

  const WORLD: GridSpec := GridSpec(H, W, START, GOAL, WALLS)

  predicate IsValid(cell: Cell) {
    WORLD.Valid(cell)
  }

  /** Inside the 3-by-4 grid and not the wall cell (1, 1), listed out. */
  lemma ValidCellsListed(cell: Cell)
    ensures IsValid(cell) <==> cell in {
      Cell(0, 0), Cell(0, 1), Cell(0, 2), Cell(0, 3),
      Cell(1, 0),             Cell(1, 2), Cell(1, 3),
      Cell(2, 0), Cell(2, 1), Cell(2, 2), Cell(2, 3)}
  {
    if IsValid(cell) {
      assert 0 <= cell.r < H && 0 <= cell.c < W;
      assert cell == Cell(cell.r, cell.c);
    }
  }

  /**
   One step for an action given by name. An unknown name is an error. The goal
   is absorbing. Otherwise the first guard that names the action and finds its
   neighbour valid moves the agent; if none fires the agent stays put. Ending on
   the goal pays 10 and ends the episode; anything else pays -1.
   */
  function Step(state: Cell, action: string): (res: Result<Transition, StepError>)
    ensures res.Failure? <==> ParseAction(action).None?
    ensures res.Failure? ==> res.error == UnknownAction(action)
    ensures forall a :: action == ActionName(a) ==> res == Success(Move(WORLD, state, a))
  {
    if ParseAction(action).None? then Failure(UnknownAction(action))
    else if state == GOAL then Success(Transition(state, 0, true))
    else
      var r, c := state.r, state.c;
      var next :=
        if action == "U" && IsValid(Cell(r - 1, c)) then Cell(r - 1, c)
        else if action == "D" && IsValid(Cell(r + 1, c)) then Cell(r + 1, c)
        else if action == "L" && IsValid(Cell(r, c - 1)) then Cell(r, c - 1)
        else if action == "R" && IsValid(Cell(r, c + 1)) then Cell(r, c + 1)
        else state;
      if next == GOAL then Success(Transition(next, 10, true))
      else Success(Transition(next, STEP_REWARD, false))
  }

  /**
   The prototype's transition keeps the agent on valid cells, absorbs at the
   goal, and pays 10 with `done` exactly when the move ends on the goal.
   */
  lemma StepProperties(state: Cell, a: Action)
    ensures Step(state, ActionName(a)).Success?
    ensures state == GOAL ==> Step(state, ActionName(a)).value == Transition(GOAL, 0, true)
    ensures IsValid(state) ==> IsValid(Step(state, ActionName(a)).value.next)
    ensures AtMostOneStep(state, Step(state, ActionName(a)).value.next)
    ensures state != GOAL ==>
      var t := Step(state, ActionName(a)).value;
      (t.done <==> t.next == GOAL) && t.reward == (if t.next == GOAL then 10 else -1)
  {
  }

  /** Entry `e`, recorded at step `i`, took the `i`-th drawn action from a valid non-goal cell. */
  predicate Drawn(actions: nat -> Action, i: nat, e: Entry) {
    e.action == actions(i) && IsValid(e.state) && e.state != GOAL
  }

  predicate AllDrawn(actions: nat -> Action, trajectory: seq<Entry>) {
    forall i :: 0 <= i < |trajectory| ==> Drawn(actions, i, trajectory[i])
  }

  lemma AllDrawnExtend(actions: nat -> Action, trajectory: seq<Entry>, e: Entry)
    requires AllDrawn(actions, trajectory)
    requires Drawn(actions, |trajectory|, e)
    ensures AllDrawn(actions, trajectory + [e])
  {
    var t := trajectory + [e];
    forall i | 0 <= i < |t|
      ensures Drawn(actions, i, t[i])
    {
      if i < |trajectory| {
        assert t[i] == trajectory[i];
      }
    }
  }

  /**
   The loop state of an episode: a rollout from START of at most MAX_STEPS
   drawn moves, standing where the last move ended; `stopped` records whether
   that move finished the episode.
   */
  predicate Walking(actions: nat -> Action, trajectory: seq<Entry>, state: Cell, stopped: bool) {
    && |trajectory| <= MAX_STEPS
    && IsValid(state)
    && (!stopped ==> state != GOAL)
    && IsRollout(WORLD, trajectory, START)
    && (|trajectory| == 0 ==> state == START && !stopped)
    && (|trajectory| > 0 ==> state == Outcome(WORLD, trajectory[|trajectory| - 1]).next)
    && (|trajectory| > 0 ==> (stopped <==> Outcome(WORLD, trajectory[|trajectory| - 1]).done))
    && AllDrawn(actions, trajectory)
  }

  /** One more drawn move from where an unfinished walk stands keeps the loop state. */
  lemma WalkingStep(actions: nat -> Action, trajectory: seq<Entry>, state: Cell, t: Transition)
    requires Walking(actions, trajectory, state, false)
    requires |trajectory| < MAX_STEPS
    requires t == Move(WORLD, state, actions(|trajectory|))
    ensures Walking(actions, trajectory + [Entry(state, actions(|trajectory|), t.reward)], t.next, t.done)
  {
    var e := Entry(state, actions(|trajectory|), t.reward);
    RolloutExtend(WORLD, trajectory, START, e);
    AllDrawnExtend(actions, trajectory, e);
  }

  /** When the loop stops, the record is a complete episode. */
  lemma WalkingEnd(actions: nat -> Action, trajectory: seq<Entry>, state: Cell, stopped: bool)
    requires Walking(actions, trajectory, state, stopped)
    requires |trajectory| == MAX_STEPS || stopped
    ensures 0 < |trajectory| <= MAX_STEPS
    ensures |trajectory| < MAX_STEPS ==> Outcome(WORLD, trajectory[|trajectory| - 1]).done
    ensures |trajectory| < MAX_STEPS ==> trajectory[|trajectory| - 1].reward == 10
  {
    assert Drawn(actions, |trajectory| - 1, trajectory[|trajectory| - 1]);
  }

  /**
   One episode from START. `actions(t)` is the action drawn at step `t` (the
   source draws uniformly from the four). The walk ends with the first move
   that finishes the episode, or after MAX_STEPS moves.
   */
  method GenerateEpisode(actions: nat -> Action) returns (trajectory: seq<Entry>)
    ensures 0 < |trajectory| <= MAX_STEPS
    ensures IsRollout(WORLD, trajectory, START)
    ensures forall i :: 0 <= i < |trajectory| ==> trajectory[i].action == actions(i)
    ensures forall i :: 0 <= i < |trajectory| ==> IsValid(trajectory[i].state)
    ensures |trajectory| < MAX_STEPS ==> Outcome(WORLD, trajectory[|trajectory| - 1]).done
    ensures |trajectory| < MAX_STEPS ==> trajectory[|trajectory| - 1].reward == 10
  {
    var state := START;
    trajectory := [];
    var stopped := false;
    while |trajectory| < MAX_STEPS && !stopped
      invariant Walking(actions, trajectory, state, stopped)
    {
      var action := actions(|trajectory|);
      StepProperties(state, action);
      var t := Step(state, ActionName(action)).value;
      WalkingStep(actions, trajectory, state, t);
      trajectory := trajectory + [Entry(state, action, t.reward)];
      state := t.next;
      stopped := t.done;
    }
    WalkingEnd(actions, trajectory, state, stopped);
  }

  /** The discounted return of a reward sequence: r0 + GAMMA * r1 + GAMMA^2 * r2 + ... */
  function Discounted(trajectory: seq<Entry>): real {
    if |trajectory| == 0 then 0.0
    else trajectory[0].reward as real + GAMMA * Discounted(trajectory[1..])
  }

  /**
   The discounted return from every position, computed back to front with one
   running sum: as long as the trajectory, ending in the last reward, and
   each entry its own reward plus GAMMA times the next entry's return.
   */
  method CalculateReturns(trajectory: seq<Entry>) returns (rets: seq<real>)
    ensures |rets| == |trajectory|
    ensures forall i :: 0 <= i < |trajectory| ==> rets[i] == Discounted(trajectory[i..])
    ensures |trajectory| > 0 ==> rets[|rets| - 1] == trajectory[|trajectory| - 1].reward as real
    ensures forall i :: 0 <= i < |trajectory| - 1 ==>
      rets[i] == trajectory[i].reward as real + GAMMA * rets[i + 1]
  {
    rets := seq(|trajectory|, _ => 0.0);
    var g := 0.0;
    var i := |trajectory|;
    while i > 0
      invariant 0 <= i <= |trajectory|
      invariant |rets| == |trajectory|
      invariant g == Discounted(trajectory[i..])
      invariant forall k :: i <= k < |trajectory| ==> rets[k] == Discounted(trajectory[k..])
    {
      i := i - 1;
      assert trajectory[i..][1..] == trajectory[i + 1..];
      g := trajectory[i].reward as real + GAMMA * g;
      rets := rets[i := g];
    }
    forall i | 0 <= i < |trajectory| - 1
      ensures rets[i] == trajectory[i].reward as real + GAMMA * rets[i + 1]
    {
      assert trajectory[i..][1..] == trajectory[i + 1..];
    }
    if |trajectory| > 0 {
      assert trajectory[|trajectory| - 1..][1..] == [];
    }
  }
}
