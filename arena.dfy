/**
 * The snake arena: a character map with walls, food and bombs, the radar
 * the learner observes and the rules that score one move of the snake.
 */
module Arena {
  import opened Wrappers
  import opened Grid
  import opened Text
  import opened Board
  import opened SnakeMap
  import opened SnakeBody

  const RewardFood: int := 50
  const RewardOut: int := -200
  const RewardCloser: int := 5
  const RewardFarther: int := -10
  /** The minimum Manhattan distance between two food items, exclusive. */
  const FoodSpacing: int := 3
  const InitialFood: int := 30
  const InitialBombs: int := 10

  /** Python's `list.remove(x)` when `x` may be absent: drop the first occurrence, if any. */
  function RemoveFirst(s: seq<Pos>, x: Pos): (r: seq<Pos>)
    ensures x in s ==> multiset(r) == multiset(s) - multiset{x} && |r| == |s| - 1
    ensures x !in s ==> r == s
  {
    if s == [] then []
    else if s[0] == x then
      assert s == [s[0]] + s[1..];
      s[1..]
    else
      assert s == [s[0]] + s[1..];
      [s[0]] + RemoveFirst(s[1..], x)
  }

  /** `r` is `s` with its first occurrence of `x` cut out, the order of the rest kept. */
  ghost predicate RemovedAt(s: seq<Pos>, x: Pos, r: seq<Pos>) {
    exists i :: 0 <= i < |s| && s[i] == x && x !in s[..i] && r == s[..i] + s[i + 1..]
  }

  /** `RemoveFirst` cuts out the first occurrence and keeps the order of everything else. */
  lemma {:induction false} RemoveFirstOrder(s: seq<Pos>, x: Pos)
    ensures x in s ==> RemovedAt(s, x, RemoveFirst(s, x))
    decreases |s|
  {
    if x in s {
      if s[0] == x {
        assert s[0] == x && x !in s[..0] && RemoveFirst(s, x) == s[..0] + s[0 + 1..];
      } else {
        assert s == [s[0]] + s[1..];
        RemoveFirstOrder(s[1..], x);
        var t := s[1..];
        var j :| 0 <= j < |t| && t[j] == x && x !in t[..j] && RemoveFirst(t, x) == t[..j] + t[j + 1..];
        RemovedAtCons(s[0], t, x, RemoveFirst(t, x), j);
      }
    }
  }

  /** Cutting the first `x`, at `j`, out of `t` cuts it out of `[a] + t` at `j + 1`, when `a` is not `x`. */
  lemma RemovedAtCons(a: Pos, t: seq<Pos>, x: Pos, rest: seq<Pos>, j: int)
    requires a != x && 0 <= j < |t| && t[j] == x && x !in t[..j] && rest == t[..j] + t[j + 1..]
    ensures RemovedAt([a] + t, x, [a] + rest)
  {
    var s := [a] + t;
    var front := [a] + t[..j];
    assert s[..j + 1] == front;
    assert s[j + 1 + 1..] == t[j + 1..];
    assert x !in front;
    assert [a] + rest == front + t[j + 1..];
    assert s[j + 1] == x && x !in s[..j + 1] && [a] + rest == s[..j + 1] + s[j + 1 + 1..];
  }

  /** `c` is more than `FoodSpacing` away from every placed item. */
  predicate Far(c: Pos, positions: seq<Pos>) {
    forall p <- positions :: Manhattan(c, p) > FoodSpacing
  }

  /** No two items are within `FoodSpacing` of each other. */
  predicate Spaced(positions: seq<Pos>) {
    forall a, b :: 0 <= a < b < |positions| ==> Manhattan(positions[a], positions[b]) > FoodSpacing
  }

  /** The elements of `s` not in `excluded`, in order. */
  function Without(s: seq<Pos>, excluded: seq<Pos>): (r: seq<Pos>)
    ensures forall y :: y in r <==> y in s && y !in excluded
    ensures multiset(r) <= multiset(s)
  {
    if s == [] then []
    else
      assert s == [s[0]] + s[1..];
      (if s[0] in excluded then [] else [s[0]]) + Without(s[1..], excluded)
  }

  /**
   * `min(food, key=distance to target)`: the first item at the smallest
   * Manhattan distance.
   */
  function Nearest(food: seq<Pos>, target: Pos): (r: Pos)
    requires food != []
    ensures r in food
    ensures forall f <- food :: Manhattan(r, target) <= Manhattan(f, target)
  {
    if |food| == 1 then food[0]
    else
      var best := Nearest(food[1..], target);
      if Manhattan(food[0], target) <= Manhattan(best, target) then food[0] else best
  }

  /** Every item before the chosen one is strictly farther from the target. */
  lemma {:induction false} NearestIsFirst(food: seq<Pos>, target: Pos, k: nat)
    requires k < |food|
    requires food[k] == Nearest(food, target)
    requires forall i :: 0 <= i < k ==> food[i] != food[k]
    ensures forall i :: 0 <= i < k ==> Manhattan(food[i], target) > Manhattan(food[k], target)
  {
    if |food| > 1 && k > 0 {
      var best := Nearest(food[1..], target);
      assert food[k] == best;
      assert food[1..][k - 1] == food[k];
      NearestIsFirst(food[1..], target, k - 1);
      forall i | 0 <= i < k ensures Manhattan(food[i], target) > Manhattan(food[k], target) {
        if i > 0 {
          assert food[i] == food[1..][i - 1];
        }
      }
    }
  }

  /** `min(values or [default])`. */
  function MinOr(values: seq<int>, default: int): (r: int)
    ensures values == [] ==> r == default
    ensures values != [] ==> r in values && forall v <- values :: r <= v
  {
    if values == [] then default
    else
      var rest := MinOr(values[1..], values[0]);
      assert values == [values[0]] + values[1..];
      if rest < values[0] then rest else values[0]
  }

  function RowGaps(food: seq<Pos>, head: Pos): (gaps: seq<int>)
    ensures |gaps| == |food|
  {
    seq(|food|, k requires 0 <= k < |food| => Abs(food[k].0 - head.0))
  }

  function ColumnGaps(food: seq<Pos>, head: Pos): (gaps: seq<int>)
    ensures |gaps| == |food|
  {
    seq(|food|, k requires 0 <= k < |food| => Abs(food[k].1 - head.1))
  }

  /** The smallest row and column gaps are those of some food item, and no item is closer. */
  lemma GapsSpec(food: seq<Pos>, head: Pos, height: int, width: int)
    ensures food != [] ==>
      (exists f <- food :: MinOr(RowGaps(food, head), height) == Abs(f.0 - head.0)) &&
      (forall f <- food :: MinOr(RowGaps(food, head), height) <= Abs(f.0 - head.0))
    ensures food != [] ==>
      (exists f <- food :: MinOr(ColumnGaps(food, head), width) == Abs(f.1 - head.1)) &&
      (forall f <- food :: MinOr(ColumnGaps(food, head), width) <= Abs(f.1 - head.1))
  {
    if food != [] {
      var gaps, cgaps := RowGaps(food, head), ColumnGaps(food, head);
      var rowGap, columnGap := MinOr(gaps, height), MinOr(cgaps, width);
      var k :| 0 <= k < |gaps| && gaps[k] == rowGap;
      assert food[k] in food;
      forall f | f in food ensures rowGap <= Abs(f.0 - head.0) {
        var i :| 0 <= i < |food| && food[i] == f;
        assert gaps[i] in gaps;
      }
      var m :| 0 <= m < |cgaps| && cgaps[m] == columnGap;
      assert food[m] in food;
      forall f | f in food ensures columnGap <= Abs(f.1 - head.1) {
        var i :| 0 <= i < |food| && food[i] == f;
        assert cgaps[i] in cgaps;
      }
    }
  }

  /**
   * One pass of the source `place_food` loop: the candidate at index
   * `draw` (modulo the list length) is kept if it is far from every item
   * placed so far, and only then leaves the candidate list.
   */
  function FoodStep(positions: seq<Pos>, empty: seq<Pos>, draw: nat): (seq<Pos>, seq<Pos>)
    requires empty != []
  {
    var pos := empty[draw % |empty|];
    if Far(pos, positions) then (positions + [pos], RemoveFirst(empty, pos)) else (positions, empty)
  }

  /** A candidate far from every placed item keeps the items spaced. */
  lemma SpacedSnoc(positions: seq<Pos>, pos: Pos)
    requires Spaced(positions) && Far(pos, positions)
    ensures Spaced(positions + [pos])
  {
    var next := positions + [pos];
    forall a, b | 0 <= a < b < |next| ensures Manhattan(next[a], next[b]) > FoodSpacing {
      if b == |positions| {
        assert next[a] in positions;
      } else {
        assert next[a] == positions[a] && next[b] == positions[b];
      }
    }
  }

  /** Removing one occurrence of `x` keeps every other element and adds none. */
  lemma RemoveFirstKeeps(s: seq<Pos>, x: Pos)
    ensures forall e <- RemoveFirst(s, x) :: e in s
    ensures forall c <- s :: c == x || c in RemoveFirst(s, x)
  {
    var rest := RemoveFirst(s, x);
    forall e | e in rest ensures e in s {
      assert e in multiset(rest);
    }
    forall c | c in s && c != x ensures c in rest {
      assert multiset(s)[c] >= 1;
      assert multiset(rest)[c] >= 1;
    }
  }

  /**
   * One candidate of the loop handled: once it is near some placed item it
   * can leave the candidates without any floor cell losing its cover.
   */
  lemma CoverStep(floor: seq<Pos>, empty: seq<Pos>, positions: seq<Pos>, positions': seq<Pos>, pos: Pos)
    requires forall c <- floor :: c in empty || exists p <- positions :: Manhattan(c, p) <= FoodSpacing
    requires forall p <- positions :: p in positions'
    requires !Far(pos, positions')
    ensures forall c <- floor :: c in RemoveFirst(empty, pos) || exists p <- positions' :: Manhattan(c, p) <= FoodSpacing
  {
    RemoveFirstKeeps(empty, pos);
  }

  /** Some floor cell near a placed item means some item was placed. */
  lemma CoverNeedsItems(floor: seq<Pos>, positions: seq<Pos>)
    requires floor != [] && forall c <- floor :: exists p <- positions :: Manhattan(c, p) <= FoodSpacing
    ensures positions != []
  {
    assert floor[0] in floor;
  }

  /**
   * One pass of the corrected `place_food` loop: some candidate leaves the
   * list, and joins the placed items when it is far from all of them.
   */
  method PlaceOne(floor: seq<Pos>, positions: seq<Pos>, emptySpaces: seq<Pos>) returns (positions': seq<Pos>, emptySpaces': seq<Pos>)
    requires emptySpaces != []
    requires forall p <- positions :: p in floor
    requires forall e <- emptySpaces :: e in floor
    requires Spaced(positions)
    requires forall c <- floor :: c in emptySpaces || exists p <- positions :: Manhattan(c, p) <= FoodSpacing
    ensures |positions| <= |positions'| <= |positions| + 1
    ensures |emptySpaces'| == |emptySpaces| - 1
    ensures forall p <- positions' :: p in floor
    ensures forall e <- emptySpaces' :: e in floor
    ensures Spaced(positions')
    ensures forall c <- floor :: c in emptySpaces' || exists p <- positions' :: Manhattan(c, p) <= FoodSpacing
  {
    assert emptySpaces[0] in emptySpaces;
    var pos :| pos in emptySpaces;
    positions' := positions;
    if Far(pos, positions) {
      SpacedSnoc(positions, pos);
      positions' := positions + [pos];
      assert Manhattan(pos, pos) <= FoodSpacing;
    }
    CoverStep(floor, emptySpaces, positions, positions', pos);
    RemoveFirstKeeps(emptySpaces, pos);
    emptySpaces' := RemoveFirst(emptySpaces, pos);
  }

  /** The source `place_food` loop driven by the draws of `draws`, stopping early when its condition fails. */
  function FoodRun(numFood: int, positions: seq<Pos>, empty: seq<Pos>, draws: seq<nat>): (seq<Pos>, seq<Pos>)
    decreases |draws|
  {
    if draws == [] || |positions| >= numFood || empty == [] then (positions, empty)
    else
      var next := FoodStep(positions, empty, draws[0]);
      FoodRun(numFood, next.0, next.1, draws[1..])
  }

  /** The loop as written keeps its promise while it runs: placed items are spaced floor cells. */
  lemma {:induction false} FoodRunSpaced(numFood: int, positions: seq<Pos>, empty: seq<Pos>, draws: seq<nat>, floor: seq<Pos>)
    requires Spaced(positions) && (forall p <- positions :: p in floor) && (forall e <- empty :: e in floor)
    ensures var r := FoodRun(numFood, positions, empty, draws);
      Spaced(r.0) && (forall p <- r.0 :: p in floor) && (forall e <- r.1 :: e in floor)
    decreases |draws|
  {
    if !(draws == [] || |positions| >= numFood || empty == []) {
      var pos := empty[draws[0] % |empty|];
      var next := FoodStep(positions, empty, draws[0]);
      if Far(pos, positions) {
        SpacedSnoc(positions, pos);
        RemoveFirstKeeps(empty, pos);
      }
      FoodRunSpaced(numFood, next.0, next.1, draws[1..], floor);
    }
  }

  /** The loop as written adds an item only while fewer than `numFood` are placed. */
  lemma {:induction false} FoodRunBound(numFood: int, positions: seq<Pos>, empty: seq<Pos>, draws: seq<nat>)
    requires |positions| <= numFood || positions == []
    ensures |FoodRun(numFood, positions, empty, draws).0| <= numFood || FoodRun(numFood, positions, empty, draws).0 == []
    decreases |draws|
  {
    if !(draws == [] || |positions| >= numFood || empty == []) {
      var next := FoodStep(positions, empty, draws[0]);
      FoodRunBound(numFood, next.0, next.1, draws[1..]);
    }
  }

  /** The floor of the 5 by 5 generated map, in row-major order. */
  const SmallFloor: seq<Pos> := [(1, 1), (1, 2), (1, 3), (2, 1), (2, 2), (2, 3), (3, 1), (3, 2), (3, 3)]
  /** The two items the stalled run holds. */
  const StalledFood: seq<Pos> := [(1, 1), (3, 3)]

  /** One more row at the end of the map adds that row's positions. */
  lemma CellsSnoc(rows: seq<string>, row: string, c: char)
    ensures Cells(rows + [row], c) == Cells(rows, c) + RowCells(row, |rows|, c)
  {
    assert (rows + [row])[..|rows|] == rows;
  }

  lemma SmallRows(width: int, height: int)
    requires width == 5 && height == 5
    ensures MapRows(width, height) == [SmallBorder, SmallInner, SmallInner, SmallInner, SmallBorder]
  {
    assert BorderRow(width) == SmallBorder;
    assert Repeat(Floor, width - 2) == "...";
    assert InnerRow(width) == SmallInner;
  }

  /** The 5 by 5 map reads back as a border row, three inner rows and a border row. */
  lemma SmallMapRows(width: int, height: int)
    requires width == 5 && height == 5
    ensures ParseRows(Join(MapRows(width, height), '\n')) == [SmallBorder, SmallInner, SmallInner, SmallInner, SmallBorder]
  {
    ParseGeneratedMap(width, height);
    SmallRows(width, height);
  }

  const SmallBorder: string := "xxxxx"
  const SmallInner: string := "x...x"

  /** One more character of `row` adds its position when it holds `c`. */
  lemma RowCellsPrefix(row: string, k: int, i: int, c: char)
    requires 0 <= k < |row|
    ensures RowCells(row[..k + 1], i, c) == RowCells(row[..k], i, c) + if row[k] == c then [(i, k)] else []
  {
    assert row[..k + 1][..k] == row[..k];
  }

  lemma BorderRowFloor(row: string, i: int)
    requires row == SmallBorder
    ensures RowCells(row, i, Floor) == []
  {
    assert row[..0] == [] && row[..5] == row;
    RowCellsPrefix(row, 0, i, Floor);
    RowCellsPrefix(row, 1, i, Floor);
    RowCellsPrefix(row, 2, i, Floor);
    RowCellsPrefix(row, 3, i, Floor);
    RowCellsPrefix(row, 4, i, Floor);
  }

  lemma InnerRowFloor(row: string, i: int)
    requires row == SmallInner
    ensures RowCells(row, i, Floor) == [(i, 1), (i, 2), (i, 3)]
  {
    assert row[..0] == [] && row[..5] == row;
    RowCellsPrefix(row, 0, i, Floor);
    RowCellsPrefix(row, 1, i, Floor);
    RowCellsPrefix(row, 2, i, Floor);
    RowCellsPrefix(row, 3, i, Floor);
    RowCellsPrefix(row, 4, i, Floor);
  }

  /** The border row and the first inner row of the 5 by 5 map. */
  lemma SmallCellsTop(border: string, inner: string)
    requires border == SmallBorder && inner == SmallInner
    ensures Cells([border, inner], Floor) == [(1, 1), (1, 2), (1, 3)]
  {
    assert [] + [border] == [border];
    assert [border] + [inner] == [border, inner];
    CellsSnoc([], border, Floor);
    BorderRowFloor(border, 0);
    CellsSnoc([border], inner, Floor);
    InnerRowFloor(inner, 1);
  }

  /** The first four rows of the 5 by 5 map hold its whole floor. */
  lemma SmallCellsInner(border: string, inner: string)
    requires border == SmallBorder && inner == SmallInner
    ensures Cells([border, inner, inner, inner], Floor) == SmallFloor
  {
    assert [border, inner] + [inner] == [border, inner, inner];
    assert [border, inner, inner] + [inner] == [border, inner, inner, inner];
    SmallCellsTop(border, inner);
    CellsSnoc([border, inner], inner, Floor);
    InnerRowFloor(inner, 2);
    CellsSnoc([border, inner, inner], inner, Floor);
    InnerRowFloor(inner, 3);
  }

  lemma SmallCells(border: string, inner: string)
    requires border == SmallBorder && inner == SmallInner
    ensures Cells([border, inner, inner, inner, border], Floor) == SmallFloor
  {
    assert [border, inner, inner, inner] + [border] == [border, inner, inner, inner, border];
    SmallCellsInner(border, inner);
    CellsSnoc([border, inner, inner, inner], border, Floor);
    BorderRowFloor(border, 4);
  }

  lemma SmallMapFloor(width: int, height: int)
    requires width == 5 && height == 5
    ensures Cells(ParseRows(Join(MapRows(width, height), '\n')), Floor) == SmallFloor
  {
    SmallMapRows(width, height);
    SmallCells(SmallBorder, SmallInner);
  }

  /** A run whose every candidate is near a placed item never changes again. */
  lemma {:induction false} StuckIsFixed(numFood: int, positions: seq<Pos>, empty: seq<Pos>, draws: seq<nat>)
    requires forall e <- empty :: !Far(e, positions)
    ensures FoodRun(numFood, positions, empty, draws) == (positions, empty)
    decreases |draws|
  {
    if !(draws == [] || |positions| >= numFood || empty == []) {
      assert empty[draws[0] % |empty|] in empty;
      StuckIsFixed(numFood, positions, empty, draws[1..]);
    }
  }

  /** The first two draws: index 0 takes `(1, 1)`, then index 7 of the eight left takes `(3, 3)`. */
  lemma FirstTwoDraws(floor: seq<Pos>)
    requires |floor| == 9 && floor[0] == (1, 1) && floor[8] == (3, 3)
    ensures FoodStep([], floor, 0).0 == [(1, 1)] && FoodStep([], floor, 0).1 == floor[1..]
    ensures FoodStep([(1, 1)], floor[1..], 7).0 == StalledFood
    ensures FoodStep([(1, 1)], floor[1..], 7).1 == RemoveFirst(floor[1..], (3, 3))
  {
    assert floor[1..][7] == (3, 3);
    assert Manhattan((3, 3), (1, 1)) == 4;
  }

  /** Every floor cell of the 5 by 5 map is within 3 of `(1, 1)` or `(3, 3)`. */
  lemma SmallFloorCovered()
    ensures forall e <- SmallFloor :: !Far(e, StalledFood)
  {
    forall e | e in SmallFloor ensures !Far(e, StalledFood) {
      assert Manhattan(e, (1, 1)) <= FoodSpacing || Manhattan(e, (3, 3)) <= FoodSpacing;
    }
  }

  /**
   * A nine-cell floor that starts with `(1, 1)`, ends with `(3, 3)` and lies
   * within 3 of one of the two: after draws 0 and 7, no draw changes the run.
   */
  lemma {:induction false} TwoDrawsStall(floor: seq<Pos>, draws: seq<nat>)
    requires |floor| == 9 && floor[0] == (1, 1) && floor[8] == (3, 3)
    requires forall e <- floor :: !Far(e, StalledFood)
    ensures FoodRun(InitialFood, [], floor, [0, 7] + draws).0 == StalledFood
    ensures |FoodRun(InitialFood, [], floor, [0, 7] + draws).1| == 7
  {
    FirstTwoDraws(floor);
    var rest := RemoveFirst(floor[1..], (3, 3));
    RestStuck(floor, rest);
    StuckIsFixed(InitialFood, StalledFood, rest, draws);
    assert [0, 7] + draws == [0] + ([7] + draws);
    RunStep(InitialFood, [], floor, 0, [7] + draws);
    RunStep(InitialFood, [(1, 1)], floor[1..], 7, draws);
  }

  /** What is left after the second draw is all within 3 of the two items, and seven cells long. */
  lemma RestStuck(floor: seq<Pos>, rest: seq<Pos>)
    requires |floor| == 9 && floor[8] == (3, 3)
    requires forall e <- floor :: !Far(e, StalledFood)
    requires rest == RemoveFirst(floor[1..], (3, 3))
    ensures |rest| == 7 && forall e <- rest :: !Far(e, StalledFood)
  {
    assert floor[1..][7] == (3, 3);
    forall e | e in rest ensures !Far(e, StalledFood) {
      assert e in multiset(rest);
      assert e in floor;
    }
  }

  /** One draw of a run that has not stopped is one `FoodStep`. */
  lemma RunStep(numFood: int, positions: seq<Pos>, empty: seq<Pos>, draw: nat, draws: seq<nat>)
    requires |positions| < numFood && empty != []
    ensures FoodRun(numFood, positions, empty, [draw] + draws) ==
      FoodRun(numFood, FoodStep(positions, empty, draw).0, FoodStep(positions, empty, draw).1, draws)
  {
    assert ([draw] + draws)[0] == draw && ([draw] + draws)[1..] == draws;
  }

  /**
   * `place_food(30)` on `generate_map(5, 5)` as written: after drawing
   * `(1, 1)` and then `(3, 3)`, every floor cell is within 3 of one of the
   * two, so whatever is drawn next is rejected and left in the list; the
   * loop condition (fewer than 30 items, candidates left) holds forever and
   * the loop never ends.
   */
  lemma PlaceFoodStalls(width: int, height: int, draws: seq<nat>)
    requires width == 5 && height == 5
    ensures Cells(ParseRows(Join(MapRows(width, height), '\n')), Floor) == SmallFloor
    ensures FoodRun(InitialFood, [], SmallFloor, [0, 7] + draws).0 == StalledFood
    ensures |FoodRun(InitialFood, [], SmallFloor, [0, 7] + draws).1| == 7
  {
    SmallMapFloor(width, height);
    SmallFloorCovered();
    TwoDrawsStall(SmallFloor, draws);
  }

  /**
   * One step of `move`, from the snake `body` (growing when `grow`) and the
   * food list `food` to `body2`, `grow2` and `food2`, with outcome `r`: into
   * a wall, the snake stays and pays 200; onto a bomb, it keeps half its
   * body and pays 200; onto food, it will grow, earns 50, and the item is
   * replaced by a new one on the floor at the end of the list; otherwise it
   * earns 5 when the nearest food (the first of least distance to the new
   * head) gets closer and pays 10 when not. `None` is the error raised when
   * there is no food to be near.
   */
  ghost predicate Moved(walls: seq<Pos>, bombs: seq<Pos>, floor: seq<Pos>,
                        body: seq<Pos>, grow: bool, food: seq<Pos>, action: Action,
                        body2: seq<Pos>, grow2: bool, food2: seq<Pos>, r: Option<(Pos, int)>)
    requires body != []
  {
    var head, newHead := body[0], Shift(body[0], action);
    if newHead in walls then
      r == Some((head, RewardOut)) && food2 == food && body2 == body && grow2 == grow
    else if newHead in bombs then
      r == Some((newHead, RewardOut)) && food2 == food && grow2 == grow &&
      body2 == if |body| > 1 then body[..KeepCount(|body|, 0.5)] else body
    else if newHead in food then
      r == Some((newHead, RewardFood)) && grow2 && body2 == body &&
      |food2| == |food| && food2[..|food2| - 1] == RemoveFirst(food, newHead) && food2[|food2| - 1] in floor
    else if food == [] then
      r == None && floor == [] && food2 == food && body2 == body && grow2 == grow
    else
      var closest := Nearest(food, newHead);
      r == Some((newHead, if Manhattan(closest, newHead) < Manhattan(closest, head) then RewardCloser else RewardFarther)) &&
      food2 == food && body2 == body && grow2 == grow
  }

  /**
   * What every step of `move` keeps: the snake still has a head, which only
   * a wall-free, bomb-free step can move, and no longer body; the food list
   * keeps its length; the snake is set to grow exactly when it ate; a
   * penalty of 200 means a wall or a bomb; the error needs an empty floor.
   */
  lemma MovedShape(walls: seq<Pos>, bombs: seq<Pos>, floor: seq<Pos>,
                   body: seq<Pos>, grow: bool, food: seq<Pos>, action: Action,
                   body2: seq<Pos>, grow2: bool, food2: seq<Pos>, r: Option<(Pos, int)>)
    requires body != []
    requires Moved(walls, bombs, floor, body, grow, food, action, body2, grow2, food2, r)
    ensures 1 <= |body2| <= |body| && body2[0] == body[0]
    ensures |food2| == |food|
    ensures r.Some? ==> r.value.0 == body[0] || r.value.0 == Shift(body[0], action)
    ensures r.Some? ==> (r.value.1 == RewardOut <==> Shift(body[0], action) in walls || Shift(body[0], action) in bombs)
    ensures r.Some? ==> r.value.1 in {RewardOut, RewardFood, RewardCloser, RewardFarther}
    ensures grow2 <==> grow || (r.Some? && r.value.1 == RewardFood)
    ensures r == None ==> floor == [] && food == []
  {
    var newHead := Shift(body[0], action);
    if newHead !in walls && newHead in bombs && |body| > 1 {
      KeepCountBounds(|body|, 0.5);
    }
  }

  /**
   * The loop of `place_bombs`: draw a candidate, keep it, take it out of
   * the pool, until `count` are kept or the pool is empty. The result is a
   * sub-multiset of the pool with `min(count, |pool|)` elements (0 for a
   * count of 0 or less).
   */
  method DrawDistinct(pool: seq<Pos>, count: int) returns (positions: seq<Pos>)
    ensures multiset(positions) <= multiset(pool)
    ensures |positions| == if count <= 0 then 0 else if count < |pool| then count else |pool|
  {
    positions := [];
    var emptySpaces := pool;
    while |positions| < count && emptySpaces != []
      invariant multiset(positions) + multiset(emptySpaces) == multiset(pool)
      invariant |positions| + |emptySpaces| == |pool|
      invariant |positions| <= count || positions == []
      decreases |emptySpaces|
    {
      assert emptySpaces[0] in emptySpaces;
      var pos :| pos in emptySpaces;
      positions := positions + [pos];
      emptySpaces := RemoveFirst(emptySpaces, pos);
    }
  }

  class Environment {
    /** The map rows, `self.map`. */
    var grid: seq<string>
    var height: int
    var width: int
    var walls: seq<Pos>
    var foodPositions: seq<Pos>
    var bombPositions: seq<Pos>

    /**
     * Walls are exactly the `x` cells in row-major order; food and bombs
     * lie on floor cells; and some food is on the map whenever the map has
     * floor.
     */
    ghost predicate Valid()
      reads this
    {
      && |grid| >= 1
      && walls == Cells(grid, Wall)
      && (forall f <- foodPositions :: f in Cells(grid, Floor))
      && (forall b <- bombPositions :: b in Cells(grid, Floor))
      && (Cells(grid, Floor) != [] ==> foodPositions != [])
    }

    /**
     * Reads the map text into rows, then places the walls, 30 food items
     * and 10 bombs.
     */
    constructor (mapText: string)
      ensures Valid()
      ensures grid == ParseRows(mapText) && height == |grid| && width == |grid[0]|
      ensures |foodPositions| <= InitialFood && Spaced(foodPositions)
      ensures |bombPositions| <= InitialBombs
      ensures forall b <- bombPositions :: b !in foodPositions
    {
      grid := ParseRows(mapText);
      height := |ParseRows(mapText)|;
      width := |ParseRows(mapText)[0]|;
      walls := [];
      foodPositions := [];
      bombPositions := [];
      new;
      walls := CreateWalls();
      foodPositions := PlaceFood(InitialFood);
      bombPositions := PlaceBombs(InitialBombs);
    }

    /** `create_walls`: the `x` cells, scanned row by row. */
    method CreateWalls() returns (found: seq<Pos>)
      ensures found == Cells(grid, Wall)
    {
      found := [];
      var i := 0;
      while i < |grid|
        invariant 0 <= i <= |grid|
        invariant found == Cells(grid[..i], Wall)
      {
        var row := grid[i];
        var j := 0;
        while j < |row|
          invariant 0 <= j <= |row|
          invariant found == Cells(grid[..i], Wall) + RowCells(row[..j], i, Wall)
        {
          assert row[..j + 1][..j] == row[..j];
          if row[j] == Wall {
            found := found + [(i, j)];
          }
          j := j + 1;
        }
        assert row[..j] == row;
        assert grid[..i + 1][..i] == grid[..i];
        i := i + 1;
      }
      assert grid[..i] == grid;
    }

    /**
     * `place_food`, with the loop corrected to drop a rejected candidate
     * as well as an accepted one (see `PlaceFoodAsWritten`). The items are
     * floor cells, pairwise more than 3 apart, at most `numFood` of them;
     * when fewer are placed, every floor cell is within 3 of one of them.
     */
    method PlaceFood(numFood: int) returns (positions: seq<Pos>)
      ensures |positions| <= numFood || positions == []
      ensures forall p <- positions :: p in Cells(grid, Floor)
      ensures Spaced(positions)
      ensures |positions| < numFood ==>
        forall c <- Cells(grid, Floor) :: exists p <- positions :: Manhattan(c, p) <= FoodSpacing
      ensures numFood > 0 && Cells(grid, Floor) != [] ==> positions != []
    {
      var floor := Cells(grid, Floor);
      positions := [];
      var emptySpaces := floor;
      while |positions| < numFood && emptySpaces != []
        invariant |positions| <= numFood || positions == []
        invariant forall p <- positions :: p in floor
        invariant forall e <- emptySpaces :: e in floor
        invariant Spaced(positions)
        invariant forall c <- floor :: c in emptySpaces || exists p <- positions :: Manhattan(c, p) <= FoodSpacing
        decreases |emptySpaces|
      {
        positions, emptySpaces := PlaceOne(floor, positions, emptySpaces);
      }
      if floor != [] && |positions| < numFood {
        CoverNeedsItems(floor, positions);
      }
    }

    /**
     * `place_food` as written, run for the given random draws: a rejected
     * candidate stays in the list, so once every candidate left is near a
     * placed item the loop can only stop for lack of draws.
     */
    method PlaceFoodAsWritten(numFood: int, draws: seq<nat>) returns (positions: seq<Pos>, emptySpaces: seq<Pos>)
      ensures (positions, emptySpaces) == FoodRun(numFood, [], Cells(grid, Floor), draws)
      ensures Spaced(positions) && forall p <- positions :: p in Cells(grid, Floor)
      ensures |positions| <= numFood || positions == []
    {
      positions := [];
      emptySpaces := Cells(grid, Floor);
      var i := 0;
      while i < |draws| && |positions| < numFood && emptySpaces != []
        invariant 0 <= i <= |draws|
        invariant FoodRun(numFood, positions, emptySpaces, draws[i..]) == FoodRun(numFood, [], Cells(grid, Floor), draws)
      {
        assert draws[i..][1..] == draws[i + 1..];
        var pos := emptySpaces[draws[i] % |emptySpaces|];
        if Far(pos, positions) {
          positions := positions + [pos];
          emptySpaces := RemoveFirst(emptySpaces, pos);
        }
        i := i + 1;
      }
      FoodRunSpaced(numFood, [], Cells(grid, Floor), draws, Cells(grid, Floor));
      FoodRunBound(numFood, [], Cells(grid, Floor), draws);
    }

    /**
     * `place_bombs`: up to `numBombs` distinct floor cells that hold no
     * food, drawn at random; as many as asked for when enough are free.
     */
    method PlaceBombs(numBombs: int) returns (positions: seq<Pos>)
      ensures multiset(positions) <= multiset(Without(Cells(grid, Floor), foodPositions))
      ensures |positions| == if numBombs <= 0 then 0
        else if numBombs < |Without(Cells(grid, Floor), foodPositions)| then numBombs
        else |Without(Cells(grid, Floor), foodPositions)|
      ensures forall p <- positions :: p in Cells(grid, Floor) && p !in foodPositions
    {
      var eligible := Without(Cells(grid, Floor), foodPositions);
      positions := DrawDistinct(eligible, numBombs);
      forall p | p in positions ensures p in Cells(grid, Floor) && p !in foodPositions {
        assert p in multiset(eligible);
      }
    }

    /**
     * `get_radar`: the merge `{**radar, **food_distances}` keeps only the
     * food distances, so up and down both give the smallest row gap to a
     * food item, left and right the smallest column gap, and the height or
     * width when there is no food; the wall distances never reach the
     * result.
     */
    function GetRadar(head: Pos): (radar: map<Action, int>)
      reads this
      ensures U in radar && D in radar && L in radar && R in radar
      ensures radar[U] == radar[D] && radar[L] == radar[R]
      ensures foodPositions == [] ==> radar[U] == height && radar[L] == width
      ensures foodPositions != [] ==>
        (exists f <- foodPositions :: radar[U] == Abs(f.0 - head.0)) &&
        (forall f <- foodPositions :: radar[U] <= Abs(f.0 - head.0))
      ensures foodPositions != [] ==>
        (exists f <- foodPositions :: radar[L] == Abs(f.1 - head.1)) &&
        (forall f <- foodPositions :: radar[L] <= Abs(f.1 - head.1))
    {
      var wallDistances := map[U := height - head.0, D := head.0, L := head.1, R := width - head.1];
      var rowGap := MinOr(RowGaps(foodPositions, head), height);
      var columnGap := MinOr(ColumnGaps(foodPositions, head), width);
      var foodDistances := map[U := rowGap, D := rowGap, L := columnGap, R := columnGap];
      GapsSpec(foodPositions, head, height, width);
      wallDistances + foodDistances
    }

    /**
     * The food part of `move`: the eaten item leaves the list and a new one,
     * from `place_food(1)`, goes at its end.
     */
    method EatFood(food: Pos)
      requires Valid() && food in foodPositions
      modifies this
      ensures Valid()
      ensures grid == old(grid) && walls == old(walls) && bombPositions == old(bombPositions)
      ensures height == old(height) && width == old(width)
      ensures |foodPositions| == |old(foodPositions)|
      ensures foodPositions[..|foodPositions| - 1] == RemoveFirst(old(foodPositions), food)
      ensures foodPositions[|foodPositions| - 1] in Cells(grid, Floor)
    {
      var placed := PlaceFood(1);
      assert placed != [] by {
        assert foodPositions[0] in Cells(grid, Floor);
      }
      var remaining := RemoveFirst(foodPositions, food);
      foodPositions := remaining + [placed[0]];
      assert foodPositions[..|foodPositions| - 1] == remaining;
      forall f | f in foodPositions ensures f in Cells(grid, Floor) {
        if f in remaining {
          assert f in multiset(remaining);
        }
      }
    }

    /**
     * `move`: score one step of `snake` in direction `action`, changing the
     * food list and the snake as the source does. `None` stands for the
     * error the source raises when it looks for the nearest food in an
     * empty list.
     */
    method Move(snake: Snake, action: Action) returns (r: Option<(Pos, int)>)
      requires Valid() && snake.Valid()
      modifies this, snake
      ensures Valid() && snake.Valid()
      ensures grid == old(grid) && walls == old(walls) && bombPositions == old(bombPositions)
      ensures height == old(height) && width == old(width)
      ensures Moved(walls, bombPositions, Cells(grid, Floor), old(snake.body), old(snake.grow), old(foodPositions), action,
                    snake.body, snake.grow, foodPositions, r)
    {
      var head := snake.body[0];
      var newHead := Shift(head, action);
      if newHead in walls {
        return Some((head, RewardOut));
      }
      if newHead in bombPositions {
        snake.ReduceBody(0.5);
        return Some((newHead, RewardOut));
      }
      var reward := 0;
      if newHead in foodPositions {
        EatFood(newHead);
        snake.grow := true;
        reward := reward + RewardFood;
      } else {
        if foodPositions == [] {
          return None;
        }
        var closestFood := Nearest(foodPositions, newHead);
        var currentDistance := Manhattan(closestFood, head);
        var newDistance := Manhattan(closestFood, newHead);
        if newDistance < currentDistance {
          reward := reward + RewardCloser;
        } else {
          reward := reward + RewardFarther;
        }
      }
      return Some((newHead, reward));
    }
  }
}
