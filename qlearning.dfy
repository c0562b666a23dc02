/**
 * The tabular Q-learning core shared by the maze and the snake arena: a row of
 * action values per state, the greedy choice `arg_max`, the maximum over a
 * row, the one-step Bellman update performed by `QTable.set`, and the
 * exploration-rate decay of the snake table. Q-values are mathematical reals.
 */
module QLearning {
  import opened Grid
  import opened Arith

  /** The action values of one state (a Python dict from action to number). */
  type Row = map<Action, real>

  /** The row every unseen state receives: all four actions at zero, in the order U, D, L, R. */
  const Zeros: Row := map[U := 0.0, D := 0.0, L := 0.0, R := 0.0]

  /** A row holding a value for each of the four actions. */
  predicate Full(row: Row) {
    U in row && D in row && L in row && R in row
  }

  lemma FullHasAll(row: Row, a: Action)
    requires Full(row)
    ensures a in row
  {
  }

  lemma ZerosFull()
    ensures Full(Zeros) && Zeros != map[]
    ensures forall a :: a in Zeros && Zeros[a] == 0.0
  {
    var empty: Row := map[];
    assert U in Zeros && U !in empty;
    forall a: Action ensures a in Zeros && Zeros[a] == 0.0 {
      match a
      case U =>
      case D =>
      case L =>
      case R =>
    }
  }

  lemma ActionsAscending()
    ensures Ascending(Actions)
  {
  }

  /** Every row of the table holds all four actions: what every table built by `set` looks like. */
  ghost predicate AllFull<S>(t: map<S, Row>) {
    forall s :: s in t ==> Full(t[s])
  }

  /** The keys of `row` in the order given by `order` (the dict's key order, U, D, L, R). */
  function InOrder(row: Row, order: seq<Action>): seq<Action> {
    if order == [] then []
    else (if order[0] in row then [order[0]] else []) + InOrder(row, order[1..])
  }

  /** The keys of a row in table order U, D, L, R. */
  function Keys(row: Row): seq<Action> {
    InOrder(row, Actions)
  }

  /** Keys listed in strictly increasing table order. */
  predicate Ascending(keys: seq<Action>) {
    forall i, j :: 0 <= i < j < |keys| ==> Rank(keys[i]) < Rank(keys[j])
  }

  /** `InOrder` keeps exactly the keys of the row that the order lists, in ascending order. */
  lemma {:induction false} InOrderSpec(row: Row, order: seq<Action>)
    requires Ascending(order)
    ensures forall a :: a in InOrder(row, order) <==> a in row && a in order
    ensures Ascending(InOrder(row, order))
    ensures order != [] ==> forall a :: a in InOrder(row, order) ==> Rank(order[0]) <= Rank(a)
  {
    if order != [] {
      AscendingTail(order);
      InOrderSpec(row, order[1..]);
      var rest := InOrder(row, order[1..]);
      assert order == [order[0]] + order[1..];
      if order[0] in row {
        assert InOrder(row, order) == [order[0]] + rest;
        AscendingCons(order[0], rest);
      } else {
        assert InOrder(row, order) == rest;
      }
    }
  }

  /** The tail of an ascending list is ascending and lies above its head. */
  lemma AscendingTail(order: seq<Action>)
    requires Ascending(order) && order != []
    ensures Ascending(order[1..])
    ensures forall a <- order[1..] :: Rank(order[0]) < Rank(a)
  {
    forall i, j | 0 <= i < j < |order[1..]| ensures Rank(order[1..][i]) < Rank(order[1..][j]) {
      assert order[1..][i] == order[i + 1] && order[1..][j] == order[j + 1];
    }
    forall a | a in order[1..] ensures Rank(order[0]) < Rank(a) {
      var i :| 0 <= i < |order[1..]| && order[1..][i] == a;
      assert order[i + 1] == a;
    }
  }

  /** An ascending list stays ascending with a smaller key in front. */
  lemma AscendingCons(x: Action, rest: seq<Action>)
    requires Ascending(rest)
    requires forall a <- rest :: Rank(x) < Rank(a)
    ensures Ascending([x] + rest)
  {
    forall i, j | 0 <= i < j < |[x] + rest| ensures Rank(([x] + rest)[i]) < Rank(([x] + rest)[j]) {
      assert ([x] + rest)[j] == rest[j - 1];
      assert rest[j - 1] in rest;
      if i > 0 {
        assert ([x] + rest)[i] == rest[i - 1];
      }
    }
  }

  /** The keys of a row are exactly its actions, in table order, and a non-empty row has some. */
  lemma KeysSpec(row: Row)
    ensures forall a :: a in Keys(row) <==> a in row
    ensures Ascending(Keys(row))
    ensures row != map[] ==> Keys(row) != []
  {
    ActionsAscending();
    ActionsComplete();
    InOrderSpec(row, Actions);
    if row != map[] {
      var a :| a in row;
      assert a in Keys(row);
    }
  }

  /**
   * Python's `max(keys, key=row.get)`: walk the keys, replacing the best so
   * far only by a strictly larger value, so a tie keeps the earlier key.
   */
  function Scan(row: Row, keys: seq<Action>, best: Action): (r: Action)
    requires best in row
    requires forall k <- keys :: k in row
    ensures r in row
  {
    if keys == [] then best
    else Scan(row, keys[1..], if row[keys[0]] > row[best] then keys[0] else best)
  }

  /** `arg_max(row)` on a row with at least one action: the greedy action. */
  function ArgMax(row: Row): (a: Action)
    requires row != map[]
    ensures a in row
  {
    KeysSpec(row);
    var keys := Keys(row);
    Scan(row, keys[1..], keys[0])
  }

  /** `max(row.values())`, computed by its own walk over the keys. */
  function MaxOver(row: Row, keys: seq<Action>): real
    requires keys != []
    requires forall k <- keys :: k in row
  {
    if |keys| == 1 then row[keys[0]]
    else
      var m := MaxOver(row, keys[1..]);
      if row[keys[0]] >= m then row[keys[0]] else m
  }

  function MaxValue(row: Row): real
    requires row != map[]
  {
    KeysSpec(row);
    MaxOver(row, Keys(row))
  }

  /** The scan returns the starting key or a later one, of a value at least that of every key it saw. */
  lemma {:induction false} ScanSpec(row: Row, keys: seq<Action>, best: Action)
    requires best in row
    requires forall k <- keys :: k in row
    ensures Scan(row, keys, best) in row
    ensures Scan(row, keys, best) == best || Scan(row, keys, best) in keys
    ensures forall k <- [best] + keys :: row[k] <= row[Scan(row, keys, best)]
  {
    if keys != [] {
      var next := if row[keys[0]] > row[best] then keys[0] else best;
      ScanSpec(row, keys[1..], next);
      assert forall k <- [best] + keys :: k == best || k == keys[0] || k in [next] + keys[1..];
    }
  }

  /** The walk for `max` returns a value of one of the keys, at least that of every key. */
  lemma {:induction false} MaxOverSpec(row: Row, keys: seq<Action>)
    requires keys != []
    requires forall k <- keys :: k in row
    ensures exists k <- keys :: MaxOver(row, keys) == row[k]
    ensures forall k <- keys :: row[k] <= MaxOver(row, keys)
  {
    assert keys[0] in keys;
    if |keys| > 1 {
      MaxOverSpec(row, keys[1..]);
      var k :| k in keys[1..] && MaxOver(row, keys[1..]) == row[k];
      assert k in keys;
      assert forall j <- keys :: j == keys[0] || j in keys[1..];
    }
  }

  /**
   * The scan returns the first key, in ascending table order, whose value is
   * maximal: every key ranked before it has a strictly smaller value.
   */
  lemma {:induction false} ScanFirst(row: Row, keys: seq<Action>, best: Action)
    requires best in row
    requires forall k <- keys :: k in row
    requires Ascending([best] + keys)
    ensures forall k <- [best] + keys :: Rank(k) < Rank(Scan(row, keys, best)) ==> row[k] < row[Scan(row, keys, best)]
  {
    if keys != [] {
      var s := [best] + keys;
      assert s[0] == best && s[1] == keys[0];
      assert Rank(best) < Rank(keys[0]);
      var next := if row[keys[0]] > row[best] then keys[0] else best;
      var s' := [next] + keys[1..];
      forall i, j | 0 <= i < j < |s'| ensures Rank(s'[i]) < Rank(s'[j]) {
        assert s'[j] == s[j + 1];
        if i == 0 {
          assert Rank(s[1]) < Rank(s[j + 1]);
        } else {
          assert s'[i] == s[i + 1];
        }
      }
      assert Ascending(s');
      ScanFirst(row, keys[1..], next);
      ScanSpec(row, keys[1..], next);
      var r := Scan(row, keys, best);
      assert r == Scan(row, keys[1..], next);
      assert next in s';
      if r != next {
        var m :| 0 <= m < |keys[1..]| && keys[1..][m] == r;
        assert s'[0] == next && s'[m + 1] == r;
        assert Rank(s'[0]) < Rank(s'[m + 1]);
      }
      forall k | k in s && Rank(k) < Rank(r) ensures row[k] < row[r] {
        if k == best && next == keys[0] {
          assert row[best] < row[next];
        } else if k == keys[0] && next == best {
          assert row[best] < row[r];
        } else {
          assert k in s';
        }
      }
    }
  }

  /**
   * `arg_max` picks an action of maximal value, and on ties the first of
   * U, D, L, R: every action ranked before it has a strictly smaller value.
   */
  lemma ArgMaxIsFirstBest(row: Row)
    requires row != map[]
    ensures ArgMax(row) in row
    ensures forall a :: a in row ==> row[a] <= row[ArgMax(row)]
    ensures forall a :: a in row && Rank(a) < Rank(ArgMax(row)) ==> row[a] < row[ArgMax(row)]
  {
    KeysSpec(row);
    var keys := Keys(row);
    assert keys == [keys[0]] + keys[1..];
    ScanSpec(row, keys[1..], keys[0]);
    ScanFirst(row, keys[1..], keys[0]);
  }

  /** The maximum of a row is the value of its greedy action. */
  lemma MaxIsGreedyValue(row: Row)
    requires row != map[]
    ensures MaxValue(row) == row[ArgMax(row)]
    ensures forall a :: a in row ==> row[a] <= MaxValue(row)
  {
    ArgMaxIsFirstBest(row);
    KeysSpec(row);
    MaxOverSpec(row, Keys(row));
  }

  lemma ZerosMax()
    ensures Zeros != map[]
    ensures MaxValue(Zeros) == 0.0
    ensures ArgMax(Zeros) == U
  {
    ZerosFull();
    ArgMaxIsFirstBest(Zeros);
    MaxIsGreedyValue(Zeros);
  }

  /** The value of `(s, a)` before an update: zero for a state the table has not seen. */
  function OldQ<S>(t: map<S, Row>, s: S, a: Action): real
    requires s in t ==> a in t[s]
  {
    if s in t then t[s][a] else 0.0
  }

  /** `max Q(s2)` before the update: zero for a state the table has not seen. */
  function NextMax<S>(t: map<S, Row>, s2: S): real
    requires s2 in t ==> t[s2] != map[]
  {
    if s2 in t then MaxValue(t[s2]) else 0.0
  }

  /** The lazy initialisation of `set`: a state the table has not seen gets a zero row. */
  function Touch<S>(t: map<S, Row>, s: S): (t': map<S, Row>)
    ensures t'.Keys == t.Keys + {s}
    ensures forall k :: k in t ==> t'[k] == t[k]
    ensures s !in t ==> t'[s] == Zeros
  {
    if s in t then t else t[s := Zeros]
  }

  /** One step of the update rule: `q + lr * (target - q)`. */
  function Bellman(q: real, target: real, lr: real): real {
    q + lr * (target - q)
  }

  /**
   * `QTable.set(s, a, reward, s2)` as a function of the table: materialise
   * `s` and then `s2` with zero rows if missing, and add
   * `lr * (reward + gamma * max(Q(s2)) - Q(s, a))` to `Q(s, a)`. Both values
   * are those of the table before the write, zero for a state it has not
   * seen.
   */
  function Learn<S>(t: map<S, Row>, s: S, a: Action, reward: int, s2: S, lr: real, gamma: real): map<S, Row>
    requires s in t ==> a in t[s]
    requires s2 in t ==> t[s2] != map[]
  {
    var t2 := Touch(Touch(t, s), s2);
    t2[s := t2[s][a := Bellman(OldQ(t, s, a), Target(t, reward, s2, gamma), lr)]]
  }

  /** The Bellman target `reward + gamma * max Q(s2)`, with the maximum taken before the write. */
  function Target<S>(t: map<S, Row>, reward: int, s2: S, gamma: real): real
    requires s2 in t ==> t[s2] != map[]
  {
    reward as real + gamma * NextMax(t, s2)
  }

  /**
   * After the update both states are keys, a newly created row is zero
   * everywhere except possibly at the updated action, and rows stay full.
   */
  lemma LearnKeys<S>(t: map<S, Row>, s: S, a: Action, reward: int, s2: S, lr: real, gamma: real)
    requires s in t ==> a in t[s]
    requires s2 in t ==> t[s2] != map[]
    ensures Learn(t, s, a, reward, s2, lr, gamma).Keys == t.Keys + {s, s2}
    ensures forall k, b :: k in Learn(t, s, a, reward, s2, lr, gamma) && k !in t && (k != s || b != a) ==>
      b in Learn(t, s, a, reward, s2, lr, gamma)[k] && Learn(t, s, a, reward, s2, lr, gamma)[k][b] == 0.0
    ensures AllFull(t) ==> AllFull(Learn(t, s, a, reward, s2, lr, gamma))
  {
    ZerosFull();
    var t2 := Touch(Touch(t, s), s2);
    var t' := t2[s := t2[s][a := Bellman(OldQ(t, s, a), Target(t, reward, s2, gamma), lr)]];
    assert Learn(t, s, a, reward, s2, lr, gamma) == t';
    assert t2.Keys == t.Keys + {s, s2};
    forall k | k in t' && k !in t
      ensures forall b :: k != s || b != a ==> b in t'[k] && t'[k][b] == 0.0
    {
      assert t2[k] == Zeros;
    }
    if AllFull(t) {
      forall k | k in t' ensures Full(t'[k]) {
        assert Full(t2[k]);
      }
    }
  }

  /**
   * The update writes `Q(s, a) + lr * (target - Q(s, a))` into `(s, a)`, where
   * the old value and the target are read from the table before the write
   * (also when `s == s2`); every other entry keeps its value.
   */
  lemma LearnUpdatesOneEntry<S>(t: map<S, Row>, s: S, a: Action, reward: int, s2: S, lr: real, gamma: real)
    requires s in t ==> a in t[s]
    requires s2 in t ==> t[s2] != map[]
    ensures var t' := Learn(t, s, a, reward, s2, lr, gamma);
      a in t'[s] && t'[s][a] == Bellman(OldQ(t, s, a), Target(t, reward, s2, gamma), lr)
    ensures var t' := Learn(t, s, a, reward, s2, lr, gamma);
      forall k :: k in t && k != s ==> t'[k] == t[k]
    ensures var t' := Learn(t, s, a, reward, s2, lr, gamma);
      s in t ==> forall b :: b in t[s] && b != a ==> b in t'[s] && t'[s][b] == t[s][b]
  {
    ZerosFull();
    var t2 := Touch(Touch(t, s), s2);
    assert t2[s2] == if s2 in t then t[s2] else Zeros;
    if s2 !in t {
      ZerosMax();
    }
    assert MaxValue(t2[s2]) == NextMax(t, s2);
    assert t2[s][a] == OldQ(t, s, a);
  }

  /** One step of the rule with a rate in [0, 1] shrinks the distance to the target by the factor `1 - lr`. */
  lemma BellmanContracts(q: real, target: real, lr: real)
    requires 0.0 <= lr <= 1.0
    ensures RAbs(Bellman(q, target, lr) - target) == (1.0 - lr) * RAbs(q - target)
    ensures RAbs(Bellman(q, target, lr) - target) <= RAbs(q - target)
    ensures 0.0 < lr && q != target ==> RAbs(Bellman(q, target, lr) - target) < RAbs(q - target)
  {
    var d := q - target;
    var c := 1.0 - lr;
    assert Bellman(q, target, lr) - target == c * d;
    MulNonNegative(c, RAbs(d));
    assert RAbs(c * d) == c * RAbs(d) by {
      if d < 0.0 {
        assert c * d == -(c * RAbs(d));
      } else {
        assert c * d == c * RAbs(d);
      }
    }
    assert RAbs(d) - c * RAbs(d) == lr * RAbs(d);
    MulNonNegative(lr, RAbs(d));
    if 0.0 < lr && d != 0.0 {
      MulPositive(lr, RAbs(d));
    }
  }

  /**
   * For a learning rate in [0, 1] the update moves `Q(s, a)` toward the
   * target: the distance shrinks by the factor `1 - lr`, strictly when
   * `lr > 0` and the old value missed the target.
   */
  lemma LearnMovesTowardTarget<S>(t: map<S, Row>, s: S, a: Action, reward: int, s2: S, lr: real, gamma: real)
    requires s in t ==> a in t[s]
    requires s2 in t ==> t[s2] != map[]
    requires 0.0 <= lr <= 1.0
    ensures var q, g := OldQ(t, s, a), Target(t, reward, s2, gamma);
      var t' := Learn(t, s, a, reward, s2, lr, gamma);
      && a in t'[s]
      && RAbs(t'[s][a] - g) == (1.0 - lr) * RAbs(q - g)
      && (0.0 < lr && q != g ==> RAbs(t'[s][a] - g) < RAbs(q - g))
  {
    LearnUpdatesOneEntry(t, s, a, reward, s2, lr, gamma);
    BellmanContracts(OldQ(t, s, a), Target(t, reward, s2, gamma), lr);
  }

  function RAbs(x: real): real {
    if x < 0.0 then -x else x
  }

  /** `max(epsilon_min, epsilon * epsilon_decay)`: Python's `max` keeps the first argument unless the second is larger. */
  function Decayed(epsilon: real, epsilonMin: real, epsilonDecay: real): real {
    if epsilon * epsilonDecay > epsilonMin then epsilon * epsilonDecay else epsilonMin
  }

  /**
   * The decayed rate is the larger of the minimum and the product, so never
   * below the minimum; from a rate at or above the minimum, with a decay of
   * at most 1, it never exceeds the old rate.
   */
  lemma DecayBounds(epsilon: real, epsilonMin: real, epsilonDecay: real)
    ensures Decayed(epsilon, epsilonMin, epsilonDecay) >= epsilonMin
    ensures Decayed(epsilon, epsilonMin, epsilonDecay) >= epsilon * epsilonDecay
    ensures Decayed(epsilon, epsilonMin, epsilonDecay) == epsilonMin || Decayed(epsilon, epsilonMin, epsilonDecay) == epsilon * epsilonDecay
    ensures epsilonMin <= epsilon && 0.0 <= epsilon && epsilonDecay <= 1.0 ==> Decayed(epsilon, epsilonMin, epsilonDecay) <= epsilon
  {
    if 0.0 <= epsilon && epsilonDecay <= 1.0 {
      MulNonNegative(epsilon, 1.0 - epsilonDecay);
      assert epsilon - epsilon * epsilonDecay == epsilon * (1.0 - epsilonDecay);
    }
  }

  /** The exploration rate after `k` decays. */
  function DecayedTimes(epsilon: real, epsilonMin: real, epsilonDecay: real, k: nat): real {
    if k == 0 then epsilon else Decayed(DecayedTimes(epsilon, epsilonMin, epsilonDecay, k - 1), epsilonMin, epsilonDecay)
  }

  /** `epsilon * decay^k`, the product that repeated decay follows until it meets the minimum. */
  function Scaled(epsilon: real, epsilonDecay: real, k: nat): real {
    if k == 0 then epsilon else Scaled(epsilon, epsilonDecay, k - 1) * epsilonDecay
  }

  function RMax(x: real, y: real): real {
    if x >= y then x else y
  }

  /**
   * Closed form of repeated decay: after `k` steps the rate is
   * `max(epsilon_min, epsilon * decay^k)` (`Scaled`), for a decay in [0, 1], a
   * non-negative minimum and a start at or above it.
   */
  lemma {:induction false} DecayClosedForm(epsilon: real, epsilonMin: real, epsilonDecay: real, k: nat)
    requires 0.0 <= epsilonDecay <= 1.0 && 0.0 <= epsilonMin <= epsilon
    ensures DecayedTimes(epsilon, epsilonMin, epsilonDecay, k) == RMax(epsilonMin, Scaled(epsilon, epsilonDecay, k))
  {
    if k > 0 {
      DecayClosedForm(epsilon, epsilonMin, epsilonDecay, k - 1);
      DecayLink(DecayedTimes(epsilon, epsilonMin, epsilonDecay, k), DecayedTimes(epsilon, epsilonMin, epsilonDecay, k - 1),
                Scaled(epsilon, epsilonDecay, k), Scaled(epsilon, epsilonDecay, k - 1), epsilonMin, epsilonDecay);
    }
  }

  /** One link of the closed-form induction, stated over plain values. */
  lemma DecayLink(now: real, prev: real, s: real, sPrev: real, epsilonMin: real, epsilonDecay: real)
    requires 0.0 <= epsilonDecay <= 1.0 && 0.0 <= epsilonMin
    requires prev == RMax(epsilonMin, sPrev) && now == Decayed(prev, epsilonMin, epsilonDecay) && s == sPrev * epsilonDecay
    ensures now == RMax(epsilonMin, s)
  {
    DecayStep(sPrev, epsilonMin, epsilonDecay);
  }

  /** One decay applied to `max(epsilon_min, x)` gives `max(epsilon_min, x * decay)`. */
  lemma DecayStep(x: real, epsilonMin: real, epsilonDecay: real)
    requires 0.0 <= epsilonDecay <= 1.0 && 0.0 <= epsilonMin
    ensures Decayed(RMax(epsilonMin, x), epsilonMin, epsilonDecay) == RMax(epsilonMin, x * epsilonDecay)
  {
    if x < epsilonMin {
      var z := epsilonMin * epsilonDecay;
      var y := x * epsilonDecay;
      MulNonNegative(epsilonMin, 1.0 - epsilonDecay);
      MulNonNegative(epsilonMin - x, epsilonDecay);
      assert z <= epsilonMin by {
        assert epsilonMin - z == epsilonMin * (1.0 - epsilonDecay);
      }
      assert y <= z by {
        assert z - y == (epsilonMin - x) * epsilonDecay;
      }
    }
  }

  /** Repeated decay never increases the rate and never goes below the minimum. */
  lemma {:induction false} DecayMonotone(epsilon: real, epsilonMin: real, epsilonDecay: real, k: nat)
    requires 0.0 <= epsilonDecay <= 1.0 && 0.0 <= epsilonMin <= epsilon
    ensures epsilonMin <= DecayedTimes(epsilon, epsilonMin, epsilonDecay, k + 1) <= DecayedTimes(epsilon, epsilonMin, epsilonDecay, k) <= epsilon
  {
    if k > 0 {
      DecayMonotone(epsilon, epsilonMin, epsilonDecay, k - 1);
    }
    DecayBounds(DecayedTimes(epsilon, epsilonMin, epsilonDecay, k), epsilonMin, epsilonDecay);
  }

  /**
   * Bernoulli's inequality for the scaled rate: `epsilon * decay^k` times
   * `1 + k * (1 - decay)` is at most `epsilon`.
   */
  lemma {:induction false} ScaledBernoulli(epsilon: real, epsilonDecay: real, k: nat)
    requires 0.0 <= epsilon && 0.0 <= epsilonDecay <= 1.0
    ensures 0.0 <= Scaled(epsilon, epsilonDecay, k)
    ensures Scaled(epsilon, epsilonDecay, k) * (1.0 + k as real * (1.0 - epsilonDecay)) <= epsilon
  {
    if k > 0 {
      ScaledBernoulli(epsilon, epsilonDecay, k - 1);
      var s := Scaled(epsilon, epsilonDecay, k - 1);
      var before := 1.0 + (k - 1) as real * (1.0 - epsilonDecay);
      var after := 1.0 + k as real * (1.0 - epsilonDecay);
      MulNonNegative(s, epsilonDecay);
      BernoulliStep(s, epsilonDecay, (k - 1) as real, before, after);
    }
  }

  /** One step of Bernoulli's inequality: `d * (1 + (j + 1)(1 - d)) <= 1 + j(1 - d)`, scaled by `s`. */
  lemma BernoulliStep(s: real, d: real, j: real, before: real, after: real)
    requires 0.0 <= s && 0.0 <= d <= 1.0 && 0.0 <= j
    requires before == 1.0 + j * (1.0 - d) && after == 1.0 + (j + 1.0) * (1.0 - d)
    ensures s * d * after <= s * before
  {
    MulNonNegative(1.0 - d, 1.0 - d);
    MulNonNegative((1.0 - d) * (1.0 - d), j + 1.0);
    assert before - d * after == (1.0 - d) * (1.0 - d) * (j + 1.0);
    MulNonNegative(s, before - d * after);
    assert s * d * after == s * before - s * (before - d * after);
  }

  /** Archimedes: enough steps of a positive size exceed any gap. */
  lemma EnoughSteps(gap: real, size: real) returns (k: nat)
    requires 0.0 <= gap && 0.0 < size
    ensures gap < k as real * size
  {
    var q := gap / size;
    assert q * size == gap;
    k := q.Floor + 1;
    MulPositive(k as real - q, size);
    assert k as real * size == q * size + (k as real - q) * size;
  }

  /** A product below a bound's product with the same positive factor is below the bound. */
  lemma BelowMin(s: real, b: real, epsilon: real, epsilonMin: real)
    requires 0.0 < b && s * b <= epsilon < epsilonMin * b
    ensures s < epsilonMin
  {
    assert (epsilonMin - s) * b == epsilonMin * b - s * b;
  }

  /**
   * With a decay below 1 and a positive minimum, repeated decay reaches the
   * minimum after finitely many steps (and, by `DecayMonotone`, stays there).
   */
  lemma DecayReachesMin(epsilon: real, epsilonMin: real, epsilonDecay: real)
    requires 0.0 <= epsilonDecay < 1.0 && 0.0 < epsilonMin <= epsilon
    ensures exists k: nat :: DecayedTimes(epsilon, epsilonMin, epsilonDecay, k) == epsilonMin
  {
    var h := 1.0 - epsilonDecay;
    MulPositive(epsilonMin, h);
    var k := EnoughSteps(epsilon - epsilonMin, epsilonMin * h);
    var b := 1.0 + k as real * h;
    assert epsilonMin * b == epsilonMin + k as real * (epsilonMin * h);
    MulNonNegative(k as real, h);
    ScaledBernoulli(epsilon, epsilonDecay, k);
    BelowMin(Scaled(epsilon, epsilonDecay, k), b, epsilon, epsilonMin);
    DecayClosedForm(epsilon, epsilonMin, epsilonDecay, k);
    assert DecayedTimes(epsilon, epsilonMin, epsilonDecay, k) == epsilonMin;
  }
}
