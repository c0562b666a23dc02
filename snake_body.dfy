/**
 * The snake: a list of cells, head first, and a flag that makes the next
 * move keep the tail.
 */
module SnakeBody {
  import opened Grid
  import opened Arith

  /** Python's `s[:-1]`: everything but the last element, and `[]` for `[]`. */
  function DropLast<T>(s: seq<T>): (r: seq<T>)
    ensures |r| == if s == [] then 0 else |s| - 1
    ensures r == s[..|r|]
  {
    if s == [] then [] else s[..|s| - 1]
  }

  /** Python's `int(x)` on a float: truncation toward zero. */
  function Trunc(x: real): (n: int)
    ensures x >= 0.0 ==> n as real <= x < n as real + 1.0
    ensures x < 0.0 ==> n as real - 1.0 < x <= n as real
  {
    if x >= 0.0 then x.Floor else -((-x).Floor)
  }

  /**
   * How many segments `reduce_body` keeps of a body of `n > 1` segments:
   * `max(1, int(n * (1 - percentage)))`, which the slice then clamps to `n`.
   */
  function KeepCount(n: nat, percentage: real): int {
    var k := Trunc(n as real * (1.0 - percentage));
    var keep := if k > 1 then k else 1;
    if keep < n then keep else n
  }

  /**
   * The kept count is between 1 and `n`; a positive percentage removes at
   * least one segment; a percentage of 0 or less removes none.
   */
  lemma KeepCountBounds(n: nat, percentage: real)
    requires n > 1
    ensures 1 <= KeepCount(n, percentage) <= n
    ensures percentage > 0.0 ==> KeepCount(n, percentage) < n
    ensures percentage <= 0.0 ==> KeepCount(n, percentage) == n
  {
    var x := n as real * (1.0 - percentage);
    if percentage > 0.0 {
      assert x == n as real - n as real * percentage;
      MulPositive(n as real, percentage);
    } else {
      assert x == n as real + n as real * -percentage;
      MulNonNegative(n as real, -percentage);
      assert Trunc(x) >= n;
    }
  }

  /** Halving, as a bomb does: `max(1, n / 2)` segments stay. */
  lemma KeepHalf(n: nat)
    requires n > 1
    ensures KeepCount(n, 0.5) == if n / 2 > 1 then n / 2 else 1
  {
    var x := n as real * (1.0 - 0.5);
    assert x == (n / 2) as real + (n % 2) as real / 2.0;
  }

  class Snake {
    /** Head first. */
    var body: seq<Pos>
    /** Set when the snake has just eaten: the next move keeps the tail. */
    var grow: bool

    predicate Valid()
      reads this
    {
      |body| >= 1
    }

    constructor (startPosition: Pos)
      ensures Valid()
      ensures body == [startPosition] && !grow
    {
      body := [startPosition];
      grow := false;
    }

    /**
     * `move`: the new head goes in front; the tail cell is dropped unless
     * the snake is growing, and the growth flag is cleared.
     */
    method Move(newHead: Pos)
      modifies this
      ensures !grow
      ensures body == [newHead] + if old(grow) then old(body) else DropLast(old(body))
      ensures Valid()
      ensures |body| == if old(grow) || old(body) == [] then |old(body)| + 1 else |old(body)|
    {
      if grow {
        body := [newHead] + body;
        grow := false;
      } else {
        body := [newHead] + DropLast(body);
      }
    }

    /**
     * `reduce_body`: a snake longer than one segment keeps its first
     * `KeepCount` segments; a one-segment snake is left alone.
     */
    method ReduceBody(percentage: real)
      requires Valid()
      modifies this
      ensures Valid()
      ensures grow == old(grow)
      ensures |old(body)| > 1 ==> body == old(body)[..KeepCount(|old(body)|, percentage)]
      ensures |old(body)| <= 1 ==> body == old(body)
      ensures body[0] == old(body)[0]
    {
      if |body| > 1 {
        KeepCountBounds(|body|, percentage);
        var segmentsToKeep := Trunc(|body| as real * (1.0 - percentage));
        if segmentsToKeep < 1 {
          segmentsToKeep := 1;
        }
        if segmentsToKeep > |body| {
          segmentsToKeep := |body|;
        }
        body := body[..segmentsToKeep];
      }
    }
  }
}
