/**
 The vocabulary shared by both grid-world environments: actions, cells, the
 grid description, the one-step transition rule and trajectory bookkeeping.
 Each environment module supplies its own constants as a `GridSpec`.
 */
module Grid {
  import opened Wrappers

  /** The four moves: up, down, left, right. */
  datatype Action = U | D | L | R

  /** The actions in the order the environments list them. */
  const ACTIONS: seq<Action> := [U, D, L, R]

  /** Reward for any move that does not enter the goal (blocked moves included). */
  const STEP_REWARD: int := -1

  /** Reward for the move that enters the goal. */
  const GOAL_REWARD: int := 10

  /** The one-letter name an action has on the wire. */
  function ActionName(a: Action): string {
    match a
    case U => "U"
    case D => "D"
    case L => "L"
    case R => "R"
  }

  /** Reads an action name; `None` for anything outside the four names. */
  function ParseAction(name: string): (r: Option<Action>)
    ensures r.Some? ==> ActionName(r.value) == name
    ensures r.None? ==> forall a: Action :: ActionName(a) != name
  {
    if name == "U" then Some(U)
    else if name == "D" then Some(D)
    else if name == "L" then Some(L)
    else if name == "R" then Some(R)
    else None
  }

  /** Every action's name reads back as that action. */
  lemma ParseActionNames()
    ensures forall a: Action :: ParseAction(ActionName(a)) == Some(a)
  {
  }

  /** The error `step` raises for a name that is not an action. */
  datatype StepError = UnknownAction(name: string)

  /** A grid cell as (row, column); rows grow downwards. */
  datatype Cell = Cell(r: int, c: int)

  /** The orthogonal neighbour an action aims at. */
  function Neighbour(cell: Cell, a: Action): (n: Cell)
    ensures n != cell && AtMostOneStep(cell, n)
  {
    match a
    case U => Cell(cell.r - 1, cell.c)
    case D => Cell(cell.r + 1, cell.c)
    case L => Cell(cell.r, cell.c - 1)
    case R => Cell(cell.r, cell.c + 1)
  }

  /** Two cells are equal or orthogonally adjacent. */
  predicate AtMostOneStep(a: Cell, b: Cell) {
    || (a.r == b.r && -1 <= a.c - b.c <= 1)
    || (a.c == b.c && -1 <= a.r - b.r <= 1)
  }

  /** Row-major order: earlier row first, then earlier column. */
  predicate RowMajorBefore(a: Cell, b: Cell) {
    a.r < b.r || (a.r == b.r && a.c < b.c)
  }

  /** The environment's constants: dimensions, start, goal and walls. */
  datatype GridSpec = GridSpec(h: int, w: int, start: Cell, goal: Cell, walls: set<Cell>) {

    /** The cell lies inside the h-by-w rectangle. */
    predicate InBounds(cell: Cell) {
      0 <= cell.r < h && 0 <= cell.c < w
    }

    /** The cell can be occupied: in bounds and not a wall. */
    predicate Valid(cell: Cell) {
      InBounds(cell) && cell !in walls
    }
  }

  /** Row `r` of a grid `w` columns wide. */
  function RowCells(r: int, w: nat): (cells: set<Cell>)
    ensures forall x :: x in cells <==> x.r == r && 0 <= x.c < w
  {
    set c: int | 0 <= c < w :: Cell(r, c)
  }

  /** The cells of an `h`-by-`w` rectangle. */
  function RectCells(h: nat, w: nat): (cells: set<Cell>)
    ensures forall x :: x in cells <==> 0 <= x.r < h && 0 <= x.c < w
  {
    set r: int, c: int | 0 <= r < h && 0 <= c < w :: Cell(r, c)
  }

  /** A row `w` columns wide has `w` cells. */
  lemma {:induction false} RowCellsCount(r: int, w: nat)
    ensures |RowCells(r, w)| == w
  {
    if w > 0 {
      assert RowCells(r, w) == RowCells(r, w - 1) + {Cell(r, w - 1)};
      RowCellsCount(r, w - 1);
    }
  }

  /** An `h`-by-`w` rectangle has `h * w` cells. */
  lemma {:induction false} RectCellsCount(h: nat, w: nat)
    ensures |RectCells(h, w)| == h * w
  {
    if h > 0 {
      var upper, row := RectCells(h - 1, w), RowCells(h - 1, w);
      assert RectCells(h, w) == upper + row;
      assert upper * row == {};
      RectCellsCount(h - 1, w);
      RowCellsCount(h - 1, w);
      assert (h - 1) * w + w == h * w;
    }
  }

  /** The outcome of one step: where the agent ends, what it earns, whether the episode ends. */
  datatype Transition = Transition(next: Cell, reward: int, done: bool)

  /**
   The transition rule: the goal is absorbing and pays nothing; otherwise the
   agent moves to the aimed-at neighbour when that cell is valid and stays put
   when it would hit a wall or leave the grid, and earns the goal reward exactly
   when it ends on the goal.
   */
  function Move(g: GridSpec, state: Cell, a: Action): (t: Transition)
    ensures state == g.goal ==> t == Transition(g.goal, 0, true)
    ensures t.done <==> t.next == g.goal
    ensures state != g.goal ==> t.reward == (if t.done then GOAL_REWARD else STEP_REWARD)
    ensures state != g.goal && g.Valid(Neighbour(state, a)) ==> t.next == Neighbour(state, a)
    ensures state != g.goal && !g.Valid(Neighbour(state, a)) ==> t.next == state
    ensures g.Valid(state) ==> g.Valid(t.next)
    ensures AtMostOneStep(state, t.next)
  {
    if state == g.goal then Transition(state, 0, true)
    else
      var target := Neighbour(state, a);
      var next := if g.Valid(target) then target else state;
      if next == g.goal then Transition(next, GOAL_REWARD, true)
      else Transition(next, STEP_REWARD, false)
  }

  /** One trajectory record: the state, the action taken there, the reward received. */
  datatype Entry = Entry(state: Cell, action: Action, reward: int)

  /** What replaying an entry's action from its state produces. */
  function Outcome(g: GridSpec, e: Entry): Transition {
    Move(g, e.state, e.action)
  }

  /**
   `trajectory` is a faithful record of a walk from `start`: each entry holds the
   reward its move earns, and each later entry starts where the previous move
   ended, a move that did not finish the episode.
   */
  predicate IsRollout(g: GridSpec, trajectory: seq<Entry>, start: Cell) {
    && (|trajectory| > 0 ==> trajectory[0].state == start)
    && (forall i :: 0 <= i < |trajectory| ==> trajectory[i].reward == Outcome(g, trajectory[i]).reward)
    && (forall i :: 0 <= i < |trajectory| - 1 ==> Linked(g, trajectory, i))
  }

  /** Entry `i + 1` continues the walk of entry `i`. */
  predicate Linked(g: GridSpec, trajectory: seq<Entry>, i: int)
    requires 0 <= i < |trajectory| - 1
  {
    Continues(g, trajectory[i], trajectory[i + 1])
  }

  /** `next` starts where `prev`'s move ended, and that move did not finish the episode. */
  predicate Continues(g: GridSpec, prev: Entry, next: Entry) {
    !Outcome(g, prev).done && next.state == Outcome(g, prev).next
  }

  /** The undiscounted return: the rewards summed in recording order. */
  function SumRewards(trajectory: seq<Entry>): int {
    if |trajectory| == 0 then 0
    else SumRewards(trajectory[..|trajectory| - 1]) + trajectory[|trajectory| - 1].reward
  }

  /** Appending the record of a move made from where the walk stands keeps it a rollout. */
  lemma RolloutExtend(g: GridSpec, trajectory: seq<Entry>, start: Cell, e: Entry)
    requires IsRollout(g, trajectory, start)
    requires |trajectory| == 0 ==> e.state == start
    requires |trajectory| > 0 ==> Continues(g, trajectory[|trajectory| - 1], e)
    requires e.reward == Outcome(g, e).reward
    ensures IsRollout(g, trajectory + [e], start)
    ensures SumRewards(trajectory + [e]) == SumRewards(trajectory) + e.reward
  {
    var t := trajectory + [e];
    assert t[..|t| - 1] == trajectory;
    forall i | 0 <= i < |t|
      ensures t[i].reward == Outcome(g, t[i]).reward
    {
      if i < |trajectory| {
        assert t[i] == trajectory[i];
      }
    }
    forall i | 0 <= i < |t| - 1
      ensures Linked(g, t, i)
    {
      assert t[i] == trajectory[i];
      if i < |trajectory| - 1 {
        assert Linked(g, trajectory, i);
        assert t[i + 1] == trajectory[i + 1];
      } else {
        assert t[i + 1] == e;
      }
    }
  }

  /** A prefix of a rollout is a rollout. */
  lemma RolloutPrefix(g: GridSpec, trajectory: seq<Entry>, start: Cell, n: nat)
    requires IsRollout(g, trajectory, start)
    requires n <= |trajectory|
    ensures IsRollout(g, trajectory[..n], start)
  {
    var p := trajectory[..n];
    forall i | 0 <= i < |p| - 1
      ensures Linked(g, p, i)
    {
      assert Linked(g, trajectory, i);
      assert p[i] == trajectory[i] && p[i + 1] == trajectory[i + 1];
    }
  }

  /**
   A rollout from a non-goal start pays the step reward for every move but the
   last, and the last move pays the goal reward exactly when it finishes the
   episode; so the return is fixed by the length and by whether the goal was reached.
   */
  lemma {:induction false} RolloutReturn(g: GridSpec, trajectory: seq<Entry>, start: Cell)
    requires IsRollout(g, trajectory, start)
    requires start != g.goal
    requires |trajectory| > 0
    ensures SumRewards(trajectory) ==
      STEP_REWARD * (|trajectory| - 1)
      + (if Outcome(g, trajectory[|trajectory| - 1]).done then GOAL_REWARD else STEP_REWARD)
  {
    var n := |trajectory|;
    var last := trajectory[n - 1];
    assert last.state != g.goal by {
      if n > 1 {
        assert Linked(g, trajectory, n - 2);
      }
    }
    if n > 1 {
      var prefix := trajectory[..n - 1];
      RolloutPrefix(g, trajectory, start, n - 1);
      RolloutReturn(g, prefix, start);
      assert Linked(g, trajectory, n - 2);
    }
  }
}
