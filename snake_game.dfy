/**
 * The snake game's clock tick, without the drawing: every time the move
 * interval has passed, the snake takes one step in a direction chosen by the
 * player or by the Q-table, and in the latter case the table learns from the
 * step and lowers its exploration rate.
 */
module SnakeGame {
  import opened Wrappers
  import opened Grid
  import opened QLearning
  import opened SnakeMap
  import opened Board
  import opened SnakeBody
  import opened SnakeQTable
  import opened Arena

  /**
   * What the learner sees: the head, the food list, the body behind the
   * head, and the radar values in the order up, down, left, right.
   */
  datatype State = State(head: Pos, food: seq<Pos>, tail: seq<Pos>, radar: seq<int>)

  /** `radar.values()`: the merged radar keeps the key order up, down, left, right. */
  function RadarValues(radar: map<Action, int>): seq<int>
    requires U in radar && D in radar && L in radar && R in radar
  {
    [radar[U], radar[D], radar[L], radar[R]]
  }

  class Game {
    const env: Environment
    const snake: Snake
    const agent: QTable<State>
    var totalReward: int
    var timeSinceLastMove: real
    var snakeMoveInterval: real
    var snakeDirection: Action
    var pendingDirection: Action
    var manualControl: bool

    ghost predicate Valid()
      reads env, snake, agent
    {
      env.Valid() && snake.Valid() && agent.Valid()
    }

    /** A new game: no reward yet, the timer at 0, heading right, under the learner's control. */
    constructor (env: Environment, snake: Snake, agent: QTable<State>)
      ensures this.env == env && this.snake == snake && this.agent == agent
      ensures totalReward == 0 && timeSinceLastMove == 0.0 && snakeMoveInterval == 0.1
      ensures snakeDirection == R && pendingDirection == R && !manualControl
    {
      this.env := env;
      this.snake := snake;
      this.agent := agent;
      totalReward := 0;
      timeSinceLastMove := 0.0;
      snakeMoveInterval := 0.1;
      snakeDirection := R;
      pendingDirection := R;
      manualControl := false;
    }

    /**
     * The state the learner sees with the head at `head`: the radar gives
     * the smallest row gap to a food item twice, then the smallest column
     * gap twice; each is the gap of some item.
     */
    function Observe(head: Pos): (s: State)
      reads env, snake
      requires snake.Valid()
      ensures s.head == head && s.food == env.foodPositions && s.tail == snake.body[1..]
      ensures |s.radar| == 4 && s.radar[0] == s.radar[1] && s.radar[2] == s.radar[3]
      ensures env.foodPositions == [] ==> s.radar == [env.height, env.height, env.width, env.width]
      ensures env.foodPositions != [] ==> forall f <- env.foodPositions :: s.radar[0] <= Abs(f.0 - head.0)
      ensures env.foodPositions != [] ==> forall f <- env.foodPositions :: s.radar[2] <= Abs(f.1 - head.1)
      ensures env.foodPositions != [] ==> exists f <- env.foodPositions :: s.radar[0] == Abs(f.0 - head.0)
      ensures env.foodPositions != [] ==> exists f <- env.foodPositions :: s.radar[2] == Abs(f.1 - head.1)
    {
      var radar := env.GetRadar(head);
      State(head, env.foodPositions, snake.body[1..], RadarValues(radar))
    }

    /**
     * One step in `direction`, after the state was read: the environment
     * scores the step (`midBody` and `midGrow` are the snake right after
     * it); when `learn` holds and the step succeeded, the table learns from
     * the state before and the state after and lowers epsilon; then the
     * snake moves onto the new head. When the environment fails nothing
     * after it happens. The map, the walls and the bombs never change.
     */
    twostate predicate Stepped(direction: Action, learn: bool, new outcome: Option<(Pos, int)>, new midBody: seq<Pos>, new midGrow: bool)
      reads env, snake, agent
    {
      && old(snake.Valid()) && old(agent.Valid())
      && env.grid == old(env.grid) && env.walls == old(env.walls) && env.bombPositions == old(env.bombPositions)
      && env.height == old(env.height) && env.width == old(env.width)
      && Moved(env.walls, env.bombPositions, Cells(env.grid, Floor), old(snake.body), old(snake.grow),
               old(env.foodPositions), direction, midBody, midGrow, env.foodPositions, outcome)
      && (outcome == None ==> snake.body == midBody && snake.grow == midGrow)
      && (outcome.Some? ==>
            snake.body == [outcome.value.0] + (if midGrow then midBody else DropLast(midBody)) && !snake.grow)
      && (learn && outcome.Some? ==>
            agent.table == Learn(old(agent.table), old(Observe(snake.body[0])), direction, outcome.value.1,
                                 State(outcome.value.0, env.foodPositions, if midBody == [] then [] else midBody[1..],
                                       RadarValues(env.GetRadar(outcome.value.0))),
                                 agent.learningRate, agent.discountFactor) &&
            agent.epsilon == Decayed(old(agent.epsilon), agent.epsilonMin, agent.epsilonDecay))
      && (!learn || outcome == None ==> agent.table == old(agent.table) && agent.epsilon == old(agent.epsilon))
      && agent.learningRate == old(agent.learningRate) && agent.discountFactor == old(agent.discountFactor)
      && agent.epsilonMin == old(agent.epsilonMin) && agent.epsilonDecay == old(agent.epsilonDecay)
    }

    /** The shared part of `on_update` and `do`: the step itself. */
    method Advance(direction: Action, learn: bool) returns (outcome: Option<(Pos, int)>, ghost midBody: seq<Pos>, ghost midGrow: bool)
      requires Valid()
      modifies this, env, snake, agent
      ensures Valid()
      ensures Stepped(direction, learn, outcome, midBody, midGrow)
      ensures totalReward == old(totalReward) + if outcome.Some? then outcome.value.1 else 0
      ensures timeSinceLastMove == old(timeSinceLastMove) && snakeMoveInterval == old(snakeMoveInterval)
      ensures snakeDirection == old(snakeDirection) && pendingDirection == old(pendingDirection)
      ensures manualControl == old(manualControl)
    {
      var state := Observe(snake.body[0]);
      outcome := env.Move(snake, direction);
      midBody := snake.body;
      midGrow := snake.grow;
      if outcome.None? {
        return;
      }
      Proceed(state, direction, learn, outcome.value.0, outcome.value.1);
    }

    /**
     * The rest of a step the environment has scored: learn from it unless
     * under manual control, then move the snake and add up the reward.
     */
    method Proceed(state: State, direction: Action, learn: bool, newHead: Pos, reward: int)
      requires Valid()
      modifies this, snake, agent
      ensures Valid()
      ensures snake.body == [newHead] + (if old(snake.grow) then old(snake.body) else DropLast(old(snake.body))) && !snake.grow
      ensures totalReward == old(totalReward) + reward
      ensures learn ==>
        agent.table == Learn(old(agent.table), state, direction, reward,
                             State(newHead, env.foodPositions, old(snake.body)[1..], RadarValues(env.GetRadar(newHead))),
                             agent.learningRate, agent.discountFactor) &&
        agent.epsilon == Decayed(old(agent.epsilon), agent.epsilonMin, agent.epsilonDecay)
      ensures !learn ==> agent.table == old(agent.table) && agent.epsilon == old(agent.epsilon)
      ensures agent.learningRate == old(agent.learningRate) && agent.discountFactor == old(agent.discountFactor)
      ensures agent.epsilonMin == old(agent.epsilonMin) && agent.epsilonDecay == old(agent.epsilonDecay)
      ensures timeSinceLastMove == old(timeSinceLastMove) && snakeMoveInterval == old(snakeMoveInterval)
      ensures snakeDirection == old(snakeDirection) && pendingDirection == old(pendingDirection)
      ensures manualControl == old(manualControl)
    {
      if learn {
        var newState := Observe(newHead);
        agent.Set(state, direction, reward, newState);
        agent.ReduceEpsilon();
      }
      snake.Move(newHead);
      totalReward := totalReward + reward;
    }

    /**
     * `do`: the learner picks the direction for the current state (with the
     * random `roll` and `pick` of its epsilon-greedy choice) and the step
     * is taken and learnt from.
     */
    method Do(roll: real, pick: Action) returns (played: Action, outcome: Option<(Pos, int)>, ghost midBody: seq<Pos>, ghost midGrow: bool)
      requires Valid()
      modifies this, env, snake, agent
      ensures Valid()
      ensures played == old(agent.BestAction(Observe(snake.body[0]), roll, pick))
      ensures Stepped(played, true, outcome, midBody, midGrow)
      ensures totalReward == old(totalReward) + if outcome.Some? then outcome.value.1 else 0
      ensures timeSinceLastMove == old(timeSinceLastMove) && snakeMoveInterval == old(snakeMoveInterval)
      ensures snakeDirection == old(snakeDirection) && pendingDirection == old(pendingDirection)
      ensures manualControl == old(manualControl)
    {
      played := agent.BestAction(Observe(snake.body[0]), roll, pick);
      outcome, midBody, midGrow := Advance(played, true);
    }

    /**
     * A step of `on_update` that is due: the timer restarts, the direction
     * becomes the player's pending one under manual control and the
     * learner's choice otherwise, and the step is taken, learnt from only
     * without manual control.
     */
    method Tick(roll: real, pick: Action) returns (outcome: Option<(Pos, int)>, ghost midBody: seq<Pos>, ghost midGrow: bool)
      requires Valid()
      modifies this, env, snake, agent
      ensures Valid()
      ensures timeSinceLastMove == 0.0
      ensures snakeDirection == if manualControl then pendingDirection else old(agent.BestAction(Observe(snake.body[0]), roll, pick))
      ensures Stepped(snakeDirection, !manualControl, outcome, midBody, midGrow)
      ensures totalReward == old(totalReward) + if outcome.Some? then outcome.value.1 else 0
      ensures snakeMoveInterval == old(snakeMoveInterval) && pendingDirection == old(pendingDirection)
      ensures manualControl == old(manualControl)
    {
      timeSinceLastMove := 0.0;
      if manualControl {
        snakeDirection := pendingDirection;
      } else {
        snakeDirection := agent.BestAction(Observe(snake.body[0]), roll, pick);
      }
      outcome, midBody, midGrow := Advance(snakeDirection, !manualControl);
    }

    /**
     * The game logic of `on_update`: the elapsed time accumulates, and once
     * it reaches the move interval a step is due (`Tick`). `outcome` is
     * `None` when no step was due or the step failed.
     */
    method OnUpdate(deltaTime: real, roll: real, pick: Action) returns (outcome: Option<(Pos, int)>, ghost midBody: seq<Pos>, ghost midGrow: bool)
      requires Valid()
      modifies this, env, snake, agent
      ensures Valid()
      ensures snakeMoveInterval == old(snakeMoveInterval) && pendingDirection == old(pendingDirection)
      ensures manualControl == old(manualControl)
      ensures old(timeSinceLastMove) + deltaTime < snakeMoveInterval ==>
        timeSinceLastMove == old(timeSinceLastMove) + deltaTime && outcome == None &&
        snakeDirection == old(snakeDirection) && totalReward == old(totalReward) &&
        unchanged(env, snake, agent)
      ensures old(timeSinceLastMove) + deltaTime >= snakeMoveInterval ==>
        timeSinceLastMove == 0.0 &&
        snakeDirection == (if manualControl then pendingDirection else old(agent.BestAction(Observe(snake.body[0]), roll, pick))) &&
        Stepped(snakeDirection, !manualControl, outcome, midBody, midGrow) &&
        totalReward == old(totalReward) + if outcome.Some? then outcome.value.1 else 0
    {
      var elapsed := timeSinceLastMove + deltaTime;
      if elapsed >= snakeMoveInterval {
        outcome, midBody, midGrow := Tick(roll, pick);
      } else {
        timeSinceLastMove := elapsed;
        outcome, midBody, midGrow := None, snake.body, snake.grow;
      }
    }
  }
}
