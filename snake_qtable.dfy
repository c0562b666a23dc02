/**
 * The snake's learner: a Q-table over game states with epsilon-greedy
 * action choice and an exploration rate that decays after every update.
 */
module SnakeQTable {
  import opened Grid
  import opened QLearning

  /**
   * `arg_max` of the snake game: the first action of highest value, or the
   * caller's random `pick` when the row is empty.
   */
  function ArgMaxOr(row: Row, pick: Action): (a: Action)
    ensures row == map[] ==> a == pick
    ensures row != map[] ==> a in row
    ensures row != map[] ==> forall b :: b in row ==> row[b] <= row[a]
    ensures row != map[] ==> forall b :: b in row && Rank(b) < Rank(a) ==> row[b] < row[a]
  {
    if row == map[] then pick
    else
      ArgMaxIsFirstBest(row);
      ArgMax(row)
  }

  class QTable<S(==)> {
    var table: map<S, Row>
    var learningRate: real
    var discountFactor: real
    var epsilon: real
    var epsilonMin: real
    var epsilonDecay: real

    /** Every row the table holds has a value for each of the four actions. */
    ghost predicate Valid()
      reads this
    {
      AllFull(table)
    }

    constructor (learningRate: real := 0.1, discountFactor: real := 0.95, epsilon: real := 1.0,
                 epsilonMin: real := 0.01, epsilonDecay: real := 0.99)
      ensures Valid() && table == map[]
      ensures this.learningRate == learningRate && this.discountFactor == discountFactor
      ensures this.epsilon == epsilon && this.epsilonMin == epsilonMin && this.epsilonDecay == epsilonDecay
    {
      table := map[];
      this.learningRate := learningRate;
      this.discountFactor := discountFactor;
      this.epsilon := epsilon;
      this.epsilonMin := epsilonMin;
      this.epsilonDecay := epsilonDecay;
    }

    /** `reduce_epsilon`: one step of `Decayed`; nothing else changes. */
    method ReduceEpsilon()
      modifies this
      ensures epsilon == Decayed(old(epsilon), epsilonMin, epsilonDecay)
      ensures epsilonMin == old(epsilonMin) && epsilonDecay == old(epsilonDecay)
      ensures table == old(table) && learningRate == old(learningRate) && discountFactor == old(discountFactor)
    {
      epsilon := if epsilonMin >= epsilon * epsilonDecay then epsilonMin else epsilon * epsilonDecay;
    }

    /** `set`: the rule of `Learn`, with the values read before the write. */
    method Set(state: S, action: Action, reward: int, newState: S)
      requires Valid()
      modifies this
      ensures Valid()
      ensures table == Learn(old(table), state, action, reward, newState, learningRate, discountFactor)
      ensures learningRate == old(learningRate) && discountFactor == old(discountFactor)
      ensures epsilon == old(epsilon) && epsilonMin == old(epsilonMin) && epsilonDecay == old(epsilonDecay)
    {
      ZerosFull();
      if state in table { FullHasAll(table[state], action); }
      if newState in table { FullHasAll(table[newState], action); }
      LearnKeys(table, state, action, reward, newState, learningRate, discountFactor);
      ghost var before := table;
      if state !in table {
        table := table[state := Zeros];
      }
      if newState !in table {
        table := table[newState := Zeros];
      }
      if newState !in before { ZerosMax(); }
      assert MaxValue(table[newState]) == NextMax(before, newState);
      var target := reward as real + discountFactor * MaxValue(table[newState]);
      assert target == Target(before, reward, newState, discountFactor);
      table := table[state := table[state][action := Bellman(table[state][action], target, learningRate)]];
    }

    /**
     * `best_action`: for a state with a non-empty row, explore (`pick`) when
     * the random `roll` falls below epsilon and otherwise take the first
     * action of highest value; for any other state, `pick`.
     */
    function BestAction(state: S, roll: real, pick: Action): (a: Action)
      reads this
      ensures state !in table || table[state] == map[] || roll < epsilon ==> a == pick
      ensures state in table && table[state] != map[] && roll >= epsilon ==>
        a in table[state] && forall b :: b in table[state] ==> table[state][b] <= table[state][a]
      ensures state in table && table[state] != map[] && roll >= epsilon ==>
        forall b :: b in table[state] && Rank(b) < Rank(a) ==> table[state][b] < table[state][a]
    {
      if state in table && table[state] != map[] then
        if roll < epsilon then pick else ArgMaxOr(table[state], pick)
      else
        pick
    }
  }
}
