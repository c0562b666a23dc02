/**
 * The grid vocabulary shared by the maze and the snake arena: the four
 * actions, their unit displacements and the Manhattan distance.
 */
module Grid {

  /** The four actions, declared in the order U, D, L, R that both programs use for their action lists. */
  datatype Action = U | D | L | R

  /** The action list in table order. */
  const Actions: seq<Action> := [U, D, L, R]

  /** Every action is in the action list. */
  lemma ActionsComplete()
    ensures forall a: Action :: a in Actions
  {
    forall a: Action ensures a in Actions {
      assert Actions[Rank(a)] == a;
    }
  }

  /** A (row, column) cell address. */
  type Pos = (int, int)

  /** Position of an action in the table order U, D, L, R. */
  function Rank(a: Action): (k: nat)
    ensures k < |Actions| && Actions[k] == a
  {
    match a
    case U => 0
    case D => 1
    case L => 2
    case R => 3
  }

  /** The unit displacement of an action: up decreases the row, left decreases the column. */
  function Delta(a: Action): (d: (int, int))
    ensures Abs(d.0) + Abs(d.1) == 1
    ensures a == U <==> d == (-1, 0)
    ensures a == D <==> d == (1, 0)
    ensures a == L <==> d == (0, -1)
    ensures a == R <==> d == (0, 1)
  {
    match a
    case U => (-1, 0)
    case D => (1, 0)
    case L => (0, -1)
    case R => (0, 1)
  }

  /** The cell reached from `p` by one action. */
  function Shift(p: Pos, a: Action): (q: Pos)
    ensures q != p
    ensures Manhattan(p, q) == 1
  {
    (p.0 + Delta(a).0, p.1 + Delta(a).1)
  }

  function Abs(x: int): nat {
    if x < 0 then -x else x
  }

  /** |p.row - q.row| + |p.col - q.col|, the distance both programs use for food. */
  function Manhattan(p: Pos, q: Pos): nat {
    Abs(p.0 - q.0) + Abs(p.1 - q.1)
  }
}
