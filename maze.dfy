/**
 * The maze game: a mouse learns, by tabular Q-learning keyed on its
 * position, to walk from the start cell `?` to the exit `!` of a text maze
 * whose walls are `x`.
 */
module Maze {
  import opened Wrappers
  import opened Grid
  import opened Board
  import opened QLearning

  const TileWall: char := 'x'
  const TileGoal: char := '!'
  const TileStart: char := '?'

  const RewardOut: int := -100
  const RewardWall: int := -100
  const RewardGoal: int := 1000
  const RewardDefault: int := -1

  /**
   * The Q-table of the maze: one row of four action values per position
   * seen so far, learning rate 1 and discount 0.9 by default.
   */
  class QTable {
    var dic: map<Pos, Row>
    var learningRate: real
    var discountFactor: real

    /** Every row the table holds has a value for each of the four actions. */
    ghost predicate Valid()
      reads this
    {
      AllFull(dic)
    }

    constructor (learningRate: real := 1.0, discountFactor: real := 0.9)
      ensures Valid() && dic == map[]
      ensures this.learningRate == learningRate && this.discountFactor == discountFactor
    {
      dic := map[];
      this.learningRate := learningRate;
      this.discountFactor := discountFactor;
    }

    /** `set`: the rule of `Learn`, with the values read before the write. */
    method Set(state: Pos, action: Action, reward: int, newState: Pos)
      requires Valid()
      modifies this
      ensures Valid()
      ensures dic == Learn(old(dic), state, action, reward, newState, learningRate, discountFactor)
      ensures learningRate == old(learningRate) && discountFactor == old(discountFactor)
    {
      ZerosFull();
      if state in dic { FullHasAll(dic[state], action); }
      if newState in dic { FullHasAll(dic[newState], action); }
      LearnKeys(dic, state, action, reward, newState, learningRate, discountFactor);
      ghost var before := dic;
      if state !in dic {
        dic := dic[state := Zeros];
      }
      if newState !in dic {
        dic := dic[newState := Zeros];
      }
      if newState !in before { ZerosMax(); }
      assert MaxValue(dic[newState]) == NextMax(before, newState);
      var target := reward as real + discountFactor * MaxValue(dic[newState]);
      assert target == Target(before, reward, newState, discountFactor);
      dic := dic[state := dic[state][action := Bellman(dic[state][action], target, learningRate)]];
    }

    /**
     * `best_action`: the first action of highest value in the row of
     * `position`, or the caller's random `pick` for a position never seen.
     */
    function BestAction(position: Pos, pick: Action): (a: Action)
      reads this
      requires Valid()
      ensures position !in dic ==> a == pick
      ensures position in dic ==> a in dic[position]
      ensures position in dic ==> forall b :: b in dic[position] ==> dic[position][b] <= dic[position][a]
      ensures position in dic ==> forall b :: b in dic[position] && Rank(b) < Rank(a) ==> dic[position][b] < dic[position][a]
    {
      if position in dic then
        ZerosFull();
        FullHasAll(dic[position], U);
        ArgMaxIsFirstBest(dic[position]);
        ArgMax(dic[position])
      else
        pick
    }
  }

  /**
   * With the maze's default rate of 1 the update forgets the old value:
   * `Q(s, a)` becomes exactly `reward + 0.9 * max Q(s2)`, read before the
   * write.
   */
  lemma DefaultRateLearnsTarget(t: map<Pos, Row>, s: Pos, a: Action, reward: int, s2: Pos)
    requires s in t ==> a in t[s]
    requires s2 in t ==> t[s2] != map[]
    ensures a in Learn(t, s, a, reward, s2, 1.0, 0.9)[s]
    ensures Learn(t, s, a, reward, s2, 1.0, 0.9)[s][a] == reward as real + 0.9 * NextMax(t, s2)
  {
    LearnUpdatesOneEntry(t, s, a, reward, s2, 1.0, 0.9);
  }

  class Environment {
    var maze: map<Pos, char>
    var height: int
    var width: int
    /** Position of the last `?` in row-major order; `None` when the text has none. */
    var start: Option<Pos>
    /** Position of the last `!` in row-major order; `None` when the text has none. */
    var goal: Option<Pos>

    /**
     * Reads a maze text: rows come from the stripped text cut at newlines,
     * every character becomes a cell, and the scan records where `?` and
     * `!` were last seen.
     */
    constructor (text: string)
      ensures var rows := ParseRows(text);
        height == |rows| && width == |rows[0]| &&
        maze.Keys == Domain(rows) &&
        (forall p :: p in maze ==> OnBoard(rows, p) && maze[p] == rows[p.0][p.1]) &&
        start == LastOf(Cells(rows, TileStart)) &&
        goal == LastOf(Cells(rows, TileGoal))
    {
      var rows := ParseRows(text);
      var m: map<Pos, char> := map[];
      var st: Option<Pos> := None;
      var gl: Option<Pos> := None;
      var i := 0;
      while i < |rows|
        invariant 0 <= i <= |rows|
        invariant forall p :: p in m <==> OnBoard(rows, p) && p.0 < i
        invariant forall p :: p in m ==> OnBoard(rows, p) && m[p] == rows[p.0][p.1]
        invariant st == LastOf(Cells(rows[..i], TileStart))
        invariant gl == LastOf(Cells(rows[..i], TileGoal))
      {
        m, st, gl := ScanRow(rows, i, m, st, gl);
        assert rows[..i + 1][..i] == rows[..i];
        assert rows[..i + 1][i] == rows[i];
        i := i + 1;
      }
      assert rows[..i] == rows;
      forall p ensures p in m <==> p in Domain(rows) {
        DomainSpec(rows, p);
      }
      maze := m;
      height := |rows|;
      width := |rows[0]|;
      start := st;
      goal := gl;
    }

    /**
     * `move`: from `position`, try the neighbouring cell in the direction of
     * `action`. Off the map or into a wall the mouse stays put with a
     * penalty of 100; onto the exit it moves and earns 1000; onto any other
     * cell it moves and pays 1.
     */
    function Move(position: Pos, action: Action): (r: (Pos, int))
      reads this
      ensures r.0 == position || r.0 == Shift(position, action)
      ensures r.0 != position <==> Shift(position, action) in maze && maze[Shift(position, action)] != TileWall
      ensures r.0 != position ==> r.0 in maze && maze[r.0] != TileWall
      ensures r.1 == -100 <==> r.0 == position
      ensures r.1 == RewardGoal <==> r.0 != position && maze[r.0] == TileGoal
      ensures r.1 == RewardDefault <==> r.0 != position && maze[r.0] != TileGoal
    {
      var newPosition := Shift(position, action);
      if newPosition !in maze then (position, RewardOut)
      else if maze[newPosition] == TileWall then (position, RewardWall)
      else if maze[newPosition] == TileGoal then (newPosition, RewardGoal)
      else (newPosition, RewardDefault)
    }
  }

  /**
   * One row of the maze constructor's scan: every character of row `i`
   * becomes a cell, and the last `?` and `!` seen move on to that row's.
   */
  method ScanRow(rows: seq<string>, i: int, m0: map<Pos, char>, st0: Option<Pos>, gl0: Option<Pos>)
    returns (m: map<Pos, char>, st: Option<Pos>, gl: Option<Pos>)
    requires 0 <= i < |rows|
    requires forall p :: p in m0 <==> OnBoard(rows, p) && p.0 < i
    requires forall p :: p in m0 ==> OnBoard(rows, p) && m0[p] == rows[p.0][p.1]
    requires st0 == LastOf(Cells(rows[..i], TileStart))
    requires gl0 == LastOf(Cells(rows[..i], TileGoal))
    ensures forall p :: p in m <==> OnBoard(rows, p) && p.0 <= i
    ensures forall p :: p in m ==> OnBoard(rows, p) && m[p] == rows[p.0][p.1]
    ensures st == LastOf(Cells(rows[..i], TileStart) + RowCells(rows[i], i, TileStart))
    ensures gl == LastOf(Cells(rows[..i], TileGoal) + RowCells(rows[i], i, TileGoal))
  {
    m, st, gl := m0, st0, gl0;
    var row := rows[i];
    var j := 0;
    while j < |row|
      invariant 0 <= j <= |row|
      invariant forall p :: p in m <==> OnBoard(rows, p) && (p.0 < i || (p.0 == i && p.1 < j))
      invariant forall p :: p in m ==> OnBoard(rows, p) && m[p] == rows[p.0][p.1]
      invariant st == LastOf(Cells(rows[..i], TileStart) + RowCells(row[..j], i, TileStart))
      invariant gl == LastOf(Cells(rows[..i], TileGoal) + RowCells(row[..j], i, TileGoal))
    {
      ScanStep(Cells(rows[..i], TileStart), row, i, j, TileStart);
      ScanStep(Cells(rows[..i], TileGoal), row, i, j, TileGoal);
      m := m[(i, j) := row[j]];
      if row[j] == TileStart {
        st := Some((i, j));
      } else if row[j] == TileGoal {
        gl := Some((i, j));
      }
      j := j + 1;
    }
    assert row[..j] == row;
  }

  /** One column further along a row-major scan for `c`: the last hit is that column if it holds `c`. */
  lemma ScanStep(before: seq<Pos>, row: string, i: int, j: int, c: char)
    requires 0 <= j < |row|
    ensures LastOf(before + RowCells(row[..j + 1], i, c)) ==
      if row[j] == c then Some((i, j)) else LastOf(before + RowCells(row[..j], i, c))
  {
    assert row[..j + 1][..j] == row[..j];
    var front := before + RowCells(row[..j], i, c);
    if row[j] == c {
      assert before + RowCells(row[..j + 1], i, c) == front + [(i, j)];
    } else {
      assert before + RowCells(row[..j + 1], i, c) == front;
    }
  }

  /**
   * The mouse: its position and score in an environment, and the Q-table it
   * learns with.
   */
  class Agent {
    var env: Environment
    var position: Pos
    var score: int
    var qtable: QTable

    ghost predicate Valid()
      reads this, qtable
    {
      qtable.Valid()
    }

    /** A new agent stands on the start cell with score 0 and an empty table. */
    constructor (env: Environment)
      requires env.start.Some?
      ensures Valid() && fresh(qtable)
      ensures this.env == env && position == env.start.value && score == 0
      ensures qtable.dic == map[] && qtable.learningRate == 1.0 && qtable.discountFactor == 0.9
    {
      this.env := env;
      position := env.start.value;
      score := 0;
      qtable := new QTable();
    }

    /** `reset`: back to the start cell with score 0; the table is kept. */
    method Reset()
      requires env.start.Some?
      modifies this
      ensures env == old(env) && qtable == old(qtable)
      ensures position == env.start.value && score == 0
    {
      position := env.start.value;
      score := 0;
    }

    /** `best_action`: the table's greedy choice for the current position. */
    function BestAction(pick: Action): (a: Action)
      reads this, qtable
      requires Valid()
      ensures position in qtable.dic ==> a in qtable.dic[position]
      ensures position in qtable.dic ==> forall b :: b in qtable.dic[position] ==> qtable.dic[position][b] <= qtable.dic[position][a]
      ensures position in qtable.dic ==>
        forall b :: b in qtable.dic[position] && Rank(b) < Rank(a) ==> qtable.dic[position][b] < qtable.dic[position][a]
      ensures position !in qtable.dic ==> a == pick
    {
      qtable.BestAction(position, pick)
    }

    /**
     * `do`: play `action` (the greedy action when none is given), learn from
     * the transition, then move and add the reward to the score.
     */
    method Do(action: Option<Action>, pick: Action) returns (played: Action, reward: int)
      requires Valid()
      modifies this, qtable
      ensures Valid()
      ensures played == if action.Some? then action.value else old(qtable.BestAction(position, pick))
      ensures (position, reward) == env.Move(old(position), played)
      ensures qtable.dic == Learn(old(qtable.dic), old(position), played, reward, position,
                                  qtable.learningRate, qtable.discountFactor)
      ensures score == old(score) + reward
      ensures env == old(env) && qtable == old(qtable)
      ensures qtable.learningRate == old(qtable.learningRate) && qtable.discountFactor == old(qtable.discountFactor)
    {
      if action.Some? {
        played := action.value;
      } else {
        played := BestAction(pick);
      }
      var outcome := env.Move(position, played);
      var newPosition := outcome.0;
      reward := outcome.1;
      qtable.Set(position, played, reward, newPosition);
      position := newPosition;
      score := score + reward;
    }
  }
}
