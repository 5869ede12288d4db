/**
 A Q-table row (the four action values of one state) and the greedy choice
 over it: the actions whose value equals the row's maximum, listed in action
 order, and one of them picked by a caller-supplied index that stands in for
 the uniform random tie-break.
 */
module Greedy {
  import opened Grid

  /** The values of U, D, L and R in one state. */
  datatype ActionValues = ActionValues(up: real, down: real, left: real, right: real) {

    function Get(a: Action): real {
      match a
      case U => up
      case D => down
      case L => left
      case R => right
    }
  }

  /** The largest of the four values: an upper bound that one of them attains. */
  function MaxValue(values: ActionValues): (m: real)
    ensures forall a: Action :: values.Get(a) <= m
    ensures values.up == m || values.down == m || values.left == m || values.right == m
  {
    var a := if values.up >= values.down then values.up else values.down;
    var b := if values.left >= values.right then values.left else values.right;
    if a >= b then a else b
  }

  /** The action attains the maximum value. */
  predicate IsBest(values: ActionValues, a: Action) {
    values.Get(a) == MaxValue(values)
  }

  /** The actions of `ACTIONS[k..]` whose value equals `m`, in list order. */
  function ValuedFrom(values: ActionValues, m: real, k: nat): (found: seq<Action>)
    requires k <= |ACTIONS|
    ensures forall a :: a in found <==> values.Get(a) == m && k <= Rank(a)
    ensures forall i, j :: 0 <= i < j < |found| ==> Rank(found[i]) < Rank(found[j])
    decreases |ACTIONS| - k
  {
    if k == |ACTIONS| then []
    else
      var a := ACTIONS[k];
      RankOfListed(k);
      var rest := ValuedFrom(values, m, k + 1);
      if values.Get(a) == m then [a] + rest else rest
  }

  /** The maximising actions, in the order U, D, L, R: never empty, since the maximum is attained. */
  function BestActions(values: ActionValues): (best: seq<Action>)
    ensures |best| > 0
    ensures forall a :: a in best <==> IsBest(values, a)
    ensures forall i, j :: 0 <= i < j < |best| ==> Rank(best[i]) < Rank(best[j])
  {
    var m := MaxValue(values);
    var best := ValuedFrom(values, m, 0);
    assert values.Get(U) == m || values.Get(D) == m || values.Get(L) == m || values.Get(R) == m;
    best
  }

  /** Position of an action in the action list. */
  function Rank(a: Action): (k: nat)
    ensures k < |ACTIONS| && ACTIONS[k] == a
  {
    match a
    case U => 0
    case D => 1
    case L => 2
    case R => 3
  }

  /** Where `a` first occurs in `s`. */
  function Position(s: seq<Action>, a: Action): (k: nat)
    requires a in s
    ensures k < |s| && s[k] == a
    ensures forall j :: 0 <= j < k ==> s[j] != a
  {
    if s[0] == a then 0 else 1 + Position(s[1..], a)
  }

  /** The rank of the `k`-th listed action is `k`. */
  lemma RankOfListed(k: nat)
    requires k < |ACTIONS|
    ensures Rank(ACTIONS[k]) == k
  {
  }

  /**
   The greedy action of a row: a maximising action, the `pick`-th one among the
   ties (counted cyclically), so every tie can be chosen and nothing else can.
   */
  function GreedyAction(values: ActionValues, pick: nat): (a: Action)
    ensures forall b: Action :: values.Get(b) <= values.Get(a)
    ensures a in BestActions(values)
  {
    var best := BestActions(values);
    best[Wrap(pick, |best|)]
  }

  /** `pick` counted cyclically through `n` places, starting again at 0 after each `n`. */
  function Wrap(pick: nat, n: nat): (i: nat)
    requires n > 0
    ensures i < n
    ensures pick < n ==> i == pick
  {
    if pick < n then pick else Wrap(pick - n, n)
  }

  /** Every maximising action is the greedy choice for some tie-break index. */
  lemma GreedyReachesEveryTie(values: ActionValues, a: Action)
    requires IsBest(values, a)
    ensures exists pick: nat :: GreedyAction(values, pick) == a
  {
    var best := BestActions(values);
    var k := Position(best, a);
    assert GreedyAction(values, k) == best[k];
  }
}
