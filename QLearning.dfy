/**
 * The tabular Q-learning agent: a table from state keys to four action
 * values, epsilon-greedy action choice with random tie-breaking, the
 * one-step Bellman update, the grid state encoder and the per-persona
 * reward table.
 *
 * Java's `Random` is replaced by oracle arguments: `coin` plays the part of
 * `nextDouble()` and `draw` of the value behind `nextInt(n)`, which is taken
 * to be `draw % n`. Values are reals, so the constants 0.5, 0.9 and 0.01
 * are exact.
 */
module QLearning {
  import opened Wrappers
  import opened Dungeon

  /** The reward profiles. */
  datatype Persona = Baseline | Runner | Survivalist | MonsterKiller | TreasureCollector

  /** Learning rate. */
  const Alpha: real := 0.5
  /** Discount factor. */
  const Gamma: real := 0.9

  /** The action values of one state, for UP, RIGHT, DOWN and LEFT. */
  type Row = r: seq<real> | |r| == 4 witness [0.0, 0.0, 0.0, 0.0]

  /** The values `nextDouble()` returns: reals in [0, 1). */
  type UnitInterval = r: real | 0.0 <= r < 1.0

  /** The row a state gets when it is first seen. */
  const Zeros: Row := [0.0, 0.0, 0.0, 0.0]

  // ---------------------------------------------------------------------
  // Rewards
  // ---------------------------------------------------------------------

  /** The persona's reward for one transition, one case per persona. */
  function Reward(p: Persona, moved: bool, killedMonster: bool, wasKilled: bool, reachedExit: bool,
                  collectedTreasure: bool): (r: real)
    ensures -1.01 <= r <= 1.5
  {
    match p
    case Baseline =>
      (if reachedExit then 0.5 else 0.0)
    case Runner =>
      (if reachedExit then 0.5 else 0.0) - (if moved then 0.01 else 0.0)
    case Survivalist =>
      (if reachedExit then 0.5 else 0.0) - (if wasKilled then 1.0 else 0.0) - (if moved then 0.01 else 0.0)
    case MonsterKiller =>
      (if killedMonster then 1.0 else 0.0) + (if reachedExit then 0.5 else 0.0)
      - (if wasKilled then 0.5 else 0.0) - (if moved then 0.01 else 0.0)
    case TreasureCollector =>
      (if collectedTreasure then 1.0 else 0.0) + (if reachedExit then 0.5 else 0.0)
      - (if wasKilled then 0.5 else 0.0) - (if moved then 0.01 else 0.0)
  }

  /** One row of the reward table: the weight of each event for a persona. */
  datatype Weights = Weights(exit: real, move: real, kill: real, death: real, treasure: real)

  /** The reward table, one row per persona. */
  function Table(p: Persona): Weights
  {
    match p
    case Baseline => Weights(0.5, 0.0, 0.0, 0.0, 0.0)
    case Runner => Weights(0.5, -0.01, 0.0, 0.0, 0.0)
    case Survivalist => Weights(0.5, -0.01, 0.0, -1.0, 0.0)
    case MonsterKiller => Weights(0.5, -0.01, 1.0, -0.5, 0.0)
    case TreasureCollector => Weights(0.5, -0.01, 0.0, -0.5, 1.0)
  }

  function Flag(b: bool): real { if b then 1.0 else 0.0 }

  /** The reward is additive: each event that happened contributes its table weight. */
  lemma RewardIsWeightedSum(p: Persona, moved: bool, killedMonster: bool, wasKilled: bool,
                            reachedExit: bool, collectedTreasure: bool)
    ensures var w := Table(p);
      Reward(p, moved, killedMonster, wasKilled, reachedExit, collectedTreasure)
      == w.exit * Flag(reachedExit) + w.move * Flag(moved) + w.kill * Flag(killedMonster)
         + w.death * Flag(wasKilled) + w.treasure * Flag(collectedTreasure)
  {
  }

  /** The baseline persona is rewarded for reaching the exit and for nothing else. */
  lemma BaselineOnlyExit(moved: bool, killedMonster: bool, wasKilled: bool, reachedExit: bool,
                         collectedTreasure: bool)
    ensures Reward(Baseline, moved, killedMonster, wasKilled, reachedExit, collectedTreasure)
         == (if reachedExit then 0.5 else 0.0)
  {
  }

  /** Every persona but the baseline pays 0.01 for a move. */
  lemma MoveCost(p: Persona, killedMonster: bool, wasKilled: bool, reachedExit: bool, collectedTreasure: bool)
    requires p != Baseline
    ensures Reward(p, true, killedMonster, wasKilled, reachedExit, collectedTreasure)
         == Reward(p, false, killedMonster, wasKilled, reachedExit, collectedTreasure) - 0.01
  {
  }

  /** A monster killer that moves, kills and reaches the exit earns 1.49. */
  lemma MonsterKillerExample()
    ensures Reward(MonsterKiller, true, true, false, true, false) == 1.49
  {
  }

  // ---------------------------------------------------------------------
  // State keys
  // ---------------------------------------------------------------------

  /** The hit points reduced to four buckets: up to 5, up to 14, up to 30, and more. */
  function AbstractHp(hp: int): (b: int)
    ensures 0 <= b <= 3
    ensures b == 0 <==> hp <= 5
    ensures b == 1 <==> 6 <= hp <= 14
    ensures b == 2 <==> 15 <= hp <= 30
    ensures b == 3 <==> hp >= 31
  {
    if hp <= 5 then 0 else if hp <= 14 then 1 else if hp <= 30 then 2 else 3
  }

  /** More hit points never give a lower bucket. */
  lemma AbstractHpMonotone(hp: int, hp': int)
    requires hp <= hp'
    ensures AbstractHp(hp) <= AbstractHp(hp')
  {
  }

  /** 14 and 15 hit points fall in different buckets, 10 and 12 in the same one. */
  lemma AbstractHpExamples()
    ensures AbstractHp(14) != AbstractHp(15)
    ensures AbstractHp(10) == AbstractHp(12)
    ensures AbstractHp(-3) == 0
  {
  }

  /** The decimal digit of a bucket, as Java appends an int. */
  function Digit(b: int): (c: char)
    requires 0 <= b <= 9
    ensures '0' <= c <= '9' && c as int - '0' as int == b
  {
    ('0' as int + b) as char
  }

  /**
   * The symbol of one tile: the first of wall '#', hero '@', monster 'm',
   * reward 'r', potion 'p', exit 'X', entrance 'E' that applies, else '.'.
   */
  function TileSymbol(t: Tile): (c: char)
    ensures c in "#@mrpXE."
    ensures c == '#' <==> !t.passable
    ensures c == '@' <==> t.passable && t.hero
    ensures c == 'm' <==> t.passable && !t.hero && t.monster
    ensures c == 'r' <==> t.passable && !t.hero && !t.monster && t.reward
    ensures c == 'p' <==> t.passable && !t.hero && !t.monster && !t.reward && t.potion
    ensures c == 'X' <==> t.passable && !t.hero && !t.monster && !t.reward && !t.potion && t.exit
    ensures c == 'E' <==> t.passable && !t.hero && !t.monster && !t.reward && !t.potion && !t.exit && t.entrance
    ensures c == '.' <==> t.passable && !t.hero && !t.monster && !t.reward && !t.potion && !t.exit && !t.entrance
  {
    if !t.passable then '#'
    else if t.hero then '@'
    else if t.monster then 'm'
    else if t.reward then 'r'
    else if t.potion then 'p'
    else if t.exit then 'X'
    else if t.entrance then 'E'
    else '.'
  }

  /** The symbols of row `y`, from x = 0 to the width. */
  function RowKey<S>(g: Game<S>, s: S, y: int): (r: string)
    ensures |r| == g.sizeX(s)
  {
    seq(g.sizeX(s), x => TileSymbol(g.tile(s, x, y)))
  }

  /** The symbols of rows 0 .. h-1, row after row. */
  function GridKey<S>(g: Game<S>, s: S, h: nat): string
  {
    if h == 0 then [] else GridKey(g, s, h - 1) + RowKey(g, s, h - 1)
  }

  /** The state key: the grid row by row, then "HP:" and the hit-point bucket. */
  function StateKey<S>(g: Game<S>, s: S): string
  {
    GridKey(g, s, g.sizeY(s)) + "HP:" + [Digit(AbstractHp(g.hitpoints(s)))]
  }

  /** The grid part has width * h symbols. */
  lemma {:induction false} GridKeyLength<S>(g: Game<S>, s: S, h: nat)
    ensures |GridKey(g, s, h)| == g.sizeX(s) * h
  {
    if h > 0 {
      GridKeyLength(g, s, h - 1);
      assert g.sizeX(s) * (h - 1) + g.sizeX(s) == g.sizeX(s) * h;
    }
  }

  /** Row-major layout: the symbol of tile (x, y) sits at index y * width + x of the grid part. */
  lemma {:induction false} GridKeyAt<S>(g: Game<S>, s: S, h: nat, y: int, x: int)
    requires 0 <= y < h && 0 <= x < g.sizeX(s)
    ensures 0 <= y * g.sizeX(s) + x < |GridKey(g, s, h)|
    ensures GridKey(g, s, h)[y * g.sizeX(s) + x] == TileSymbol(g.tile(s, x, y))
  {
    var w := g.sizeX(s);
    var pre := GridKey(g, s, h - 1);
    var row := RowKey(g, s, h - 1);
    var key := GridKey(g, s, h);
    GridKeyLength(g, s, h - 1);
    assert key == pre + row && |key| == |pre| + w;
    var i := y * w + x;
    if y < h - 1 {
      GridKeyAt(g, s, h - 1, y, x);
      assert 0 <= i < |pre|;
      assert key[i] == pre[i];
    } else {
      assert y * w == w * (h - 1) == |pre|;
      assert key[i] == row[x];
    }
  }

  /** The key is width * height tile symbols followed by "HP:" and a digit 0..3 naming the bucket. */
  lemma StateKeyTail<S>(g: Game<S>, s: S)
    ensures var n := g.sizeX(s) * g.sizeY(s);
      && |StateKey(g, s)| == n + 4
      && StateKey(g, s)[n..] == "HP:" + [Digit(AbstractHp(g.hitpoints(s)))]
      && '0' <= StateKey(g, s)[n + 3] <= '3'
  {
    GridKeyLength(g, s, g.sizeY(s));
    var tail := "HP:" + [Digit(AbstractHp(g.hitpoints(s)))];
    assert StateKey(g, s) == GridKey(g, s, g.sizeY(s)) + tail;
  }

  /** The key's character at index y * width + x is the symbol of tile (x, y). */
  lemma StateKeyCell<S>(g: Game<S>, s: S, y: int, x: int)
    requires 0 <= y < g.sizeY(s) && 0 <= x < g.sizeX(s)
    ensures |StateKey(g, s)| == g.sizeX(s) * g.sizeY(s) + 4
    ensures 0 <= y * g.sizeX(s) + x < g.sizeX(s) * g.sizeY(s)
    ensures StateKey(g, s)[y * g.sizeX(s) + x] == TileSymbol(g.tile(s, x, y))
  {
    var grid := GridKey(g, s, g.sizeY(s));
    GridKeyLength(g, s, g.sizeY(s));
    GridKeyAt(g, s, g.sizeY(s), y, x);
    assert StateKey(g, s) == grid + ("HP:" + [Digit(AbstractHp(g.hitpoints(s)))]);
  }

  /**
   * Equal keys of two states with the same dimensions mean equal hit-point
   * buckets and the same symbol on every tile: the key loses nothing of
   * what it encodes.
   */
  lemma StateKeyDetermines<S>(g: Game<S>, s1: S, s2: S)
    requires g.sizeX(s1) == g.sizeX(s2) && g.sizeY(s1) == g.sizeY(s2)
    requires StateKey(g, s1) == StateKey(g, s2)
    ensures AbstractHp(g.hitpoints(s1)) == AbstractHp(g.hitpoints(s2))
    ensures forall y, x :: 0 <= y < g.sizeY(s1) && 0 <= x < g.sizeX(s1) ==>
      TileSymbol(g.tile(s1, x, y)) == TileSymbol(g.tile(s2, x, y))
  {
    StateKeyTail(g, s1);
    StateKeyTail(g, s2);
    var n := g.sizeX(s1) * g.sizeY(s1);
    assert StateKey(g, s1)[n + 3] == Digit(AbstractHp(g.hitpoints(s1)));
    assert StateKey(g, s2)[n + 3] == Digit(AbstractHp(g.hitpoints(s2)));
    forall y, x | 0 <= y < g.sizeY(s1) && 0 <= x < g.sizeX(s1)
      ensures TileSymbol(g.tile(s1, x, y)) == TileSymbol(g.tile(s2, x, y))
    {
      StateKeyCell(g, s1, y, x);
      StateKeyCell(g, s2, y, x);
    }
  }

  // ---------------------------------------------------------------------
  // Row maximum and ties
  // ---------------------------------------------------------------------

  /** The greatest value of a row. */
  function RowMax(row: Row): (m: real)
    ensures exists i :: 0 <= i < 4 && row[i] == m
    ensures forall i :: 0 <= i < 4 ==> row[i] <= m
  {
    var a := if row[0] < row[1] then row[1] else row[0];
    var b := if a < row[2] then row[2] else a;
    if b < row[3] then row[3] else b
  }

  /** The indices below `n` whose value equals `m`, in increasing order. */
  function TiedUpTo(row: Row, m: real, n: nat): seq<int>
    requires n <= 4
  {
    if n == 0 then [] else TiedUpTo(row, m, n - 1) + (if row[n - 1] == m then [n - 1] else [])
  }

  lemma {:induction false} TiedUpToMembers(row: Row, m: real, n: nat)
    requires n <= 4
    ensures forall a :: a in TiedUpTo(row, m, n) <==> 0 <= a < n && row[a] == m
    ensures |TiedUpTo(row, m, n)| <= n
  {
    if n > 0 {
      TiedUpToMembers(row, m, n - 1);
    }
  }

  lemma {:induction false} TiedUpToIncreasing(row: Row, m: real, n: nat)
    requires n <= 4
    ensures forall k, l :: 0 <= k < l < |TiedUpTo(row, m, n)| ==> TiedUpTo(row, m, n)[k] < TiedUpTo(row, m, n)[l]
  {
    if n > 0 {
      TiedUpToIncreasing(row, m, n - 1);
      TiedUpToMembers(row, m, n - 1);
      var pre := TiedUpTo(row, m, n - 1);
      assert forall k :: 0 <= k < |pre| ==> pre[k] in pre;
    }
  }

  /** The actions whose value is the row's maximum, in increasing order. */
  function TiedActions(row: Row): (ts: seq<int>)
    ensures 1 <= |ts| <= 4
    ensures forall a :: a in ts <==> 0 <= a < 4 && row[a] == RowMax(row)
  {
    TiedUpToMembers(row, RowMax(row), 4);
    TiedUpToIncreasing(row, RowMax(row), 4);
    TiedUpTo(row, RowMax(row), 4)
  }

  /** The tied actions are listed in strictly increasing order, so each appears once. */
  lemma TiedActionsIncreasing(row: Row)
    ensures forall k, l :: 0 <= k < l < |TiedActions(row)| ==> TiedActions(row)[k] < TiedActions(row)[l]
  {
    TiedUpToIncreasing(row, RowMax(row), 4);
  }

  /** Every tied action is the choice for some draw, and for exactly one draw below the number of ties. */
  lemma EveryTieReachable(row: Row, a: int)
    requires a in TiedActions(row)
    ensures exists d: nat :: d < |TiedActions(row)| && TiedActions(row)[d % |TiedActions(row)|] == a
    ensures forall d, d' :: 0 <= d < d' < |TiedActions(row)| ==> TiedActions(row)[d] != TiedActions(row)[d']
  {
    var ts := TiedActions(row);
    var k :| 0 <= k < |ts| && ts[k] == a;
    assert k % |ts| == k;
    TiedActionsIncreasing(row);
  }

  /** The row [2, 2, 1, 0] ties actions 0 and 1 only. */
  lemma TiedExample()
    ensures TiedActions([2.0, 2.0, 1.0, 0.0]) == [0, 1]
  {
    var row: Row := [2.0, 2.0, 1.0, 0.0];
    assert RowMax(row) == 2.0;
  }

  /** The first loop of the greedy choice: the row's maximum. */
  method MaxOf(row: Row) returns (maxQ: real)
    ensures maxQ == RowMax(row)
  {
    maxQ := row[0];
    for i := 0 to 4
      invariant exists j :: 0 <= j < 4 && row[j] == maxQ
      invariant forall j :: 0 <= j < i ==> row[j] <= maxQ
    {
      if row[i] > maxQ {
        maxQ := row[i];
      }
    }
  }

  /**
   * The greedy choice: collect the indices whose value equals the maximum,
   * then take the one the draw selects.
   */
  method GreedyAction(row: Row, draw: nat) returns (action: int)
    ensures action == TiedActions(row)[draw % |TiedActions(row)|]
    ensures 0 <= action < 4 && row[action] == RowMax(row)
  {
    var maxQ := MaxOf(row);
    var bestActions: seq<int> := [];
    for i := 0 to 4
      invariant bestActions == TiedUpTo(row, maxQ, i)
    {
      if row[i] == maxQ {
        bestActions := bestActions + [i];
      }
    }
    assert bestActions == TiedActions(row);
    action := bestActions[draw % |bestActions|];
    assert action in TiedActions(row);
  }

  // ---------------------------------------------------------------------
  // The Bellman update
  // ---------------------------------------------------------------------

  /** The new value Q + alpha * (reward + gamma * maxNext - Q): with alpha = 0.5, the midpoint of Q and the target. */
  function Bellman(q: real, reward: real, maxNext: real): (r: real)
    ensures r == (q + (reward + Gamma * maxNext)) / 2.0
    ensures q <= reward + Gamma * maxNext ==> q <= r <= reward + Gamma * maxNext
    ensures reward + Gamma * maxNext <= q ==> reward + Gamma * maxNext <= r <= q
  {
    q + Alpha * (reward + Gamma * maxNext - q)
  }

  /** The row of `key`, or zeros when the table has none. */
  function RowOrZeros(table: map<string, Row>, key: string): (row: Row)
    ensures key in table ==> row == table[key]
    ensures key !in table ==> row == Zeros
  {
    if key in table then table[key] else Zeros
  }

  /** The best value of the next state: its row's maximum if the table has it, else 0. */
  function MaxNext(table: map<string, Row>, key: string): (m: real)
    ensures key in table ==> (exists a :: 0 <= a < 4 && m == table[key][a]) && forall a :: 0 <= a < 4 ==> table[key][a] <= m
    ensures key !in table ==> m == 0.0
  {
    if key in table then RowMax(table[key]) else 0.0
  }

  /** The table after one Q update of `state`/`action`, with the next state's best value read from the old table. */
  function Updated(table: map<string, Row>, state: string, action: int, reward: real, nextState: string): map<string, Row>
    requires 0 <= action < 4
  {
    var row := RowOrZeros(table, state);
    table[state := row[action := Bellman(row[action], reward, MaxNext(table, nextState))]]
  }

  /**
   * An update adds `state` to the table and changes only the entry of
   * `action` in its row; the other three values and every other key keep
   * what they had (zeros for a state that was unseen).
   */
  lemma UpdateFrame(table: map<string, Row>, state: string, action: int, reward: real, nextState: string)
    requires 0 <= action < 4
    ensures var t := Updated(table, state, action, reward, nextState);
      && t.Keys == table.Keys + {state}
      && (forall k :: k in table && k != state ==> t[k] == table[k])
      && (forall j :: 0 <= j < 4 && j != action ==> t[state][j] == RowOrZeros(table, state)[j])
      && t[state][action] == Bellman(RowOrZeros(table, state)[action], reward, MaxNext(table, nextState))
  {
  }

  /** From Q = 0 with reward 1 and an unseen next state, the new value is exactly 0.5. */
  lemma UpdateExample(state: string, nextState: string)
    requires state != nextState
    ensures Updated(map[], state, 2, 1.0, nextState)[state] == [0.0, 0.0, 0.5, 0.0]
  {
  }

  /**
   * Updating a state towards itself reads the best value before the write:
   * from [1, 0, 0, 0], action 1 with reward 0 gets 0.5 * 0.9 * 1.
   */
  lemma SelfUpdateExample(state: string)
    ensures Updated(map[state := [1.0, 0.0, 0.0, 0.0]], state, 1, 0.0, state)[state] == [1.0, 0.45, 0.0, 0.0]
  {
    var table: map<string, Row> := map[state := [1.0, 0.0, 0.0, 0.0]];
    assert MaxNext(table, state) == 1.0;
  }

  /**
   * The table after the action choice in the state with key `key`: when the
   * agent does not explore, an unseen key gets a row of zeros.
   */
  function ChoiceTable(table: map<string, Row>, key: string, explores: bool): map<string, Row>
  {
    if !explores && key !in table then table[key := Zeros] else table
  }

  /**
   * The action chosen in the state with key `key`: the draw modulo 4 when
   * exploring or when the key is unseen, otherwise the tied maximum the
   * draw selects.
   */
  function ChosenAction(table: map<string, Row>, key: string, explores: bool, draw: nat): (a: int)
    ensures 0 <= a < 4
    ensures explores || key !in table ==> a == draw % 4
    ensures !explores && key in table ==> forall j :: 0 <= j < 4 ==> table[key][j] <= table[key][a]
  {
    if explores || key !in table then draw % 4
    else
      var ts := TiedActions(table[key]);
      assert ts[draw % |ts|] in ts;
      ts[draw % |ts|]
  }

  // ---------------------------------------------------------------------
  // The controller
  // ---------------------------------------------------------------------

  /** The Q-learning agent: its table, its exploration rate and the persona that rewards it. */
  class QLearningController<S> {
    const game: Game<S>
    const persona: Persona
    var qTable: map<string, Row>
    var epsilon: real

    /** A fresh agent for a persona: empty table, no exploration. */
    constructor(game: Game<S>, persona: Persona)
      ensures this.game == game && this.persona == persona
      ensures qTable == map[] && epsilon == 0.0
    {
      this.game := game;
      this.persona := persona;
      qTable := map[];
      epsilon := 0.0;
    }

    /** An agent meant to receive a trained table: baseline persona, empty table. */
    constructor Trained(game: Game<S>)
      ensures this.game == game && persona == Baseline
      ensures qTable == map[] && epsilon == 0.0
    {
      this.game := game;
      persona := Baseline;
      qTable := map[];
      epsilon := 0.0;
    }

    /** Builds the state key of `s` with two nested loops over the rows and the cells of each row. */
    method GetStateRepresentation(s: S) returns (key: string)
      ensures key == StateKey(game, s)
    {
      var width := game.sizeX(s);
      var height := game.sizeY(s);
      key := [];
      for y := 0 to height
        invariant key == GridKey(game, s, y)
      {
        for x := 0 to width
          invariant key == GridKey(game, s, y) + RowKey(game, s, y)[..x]
        {
          key := key + [TileSymbol(game.tile(s, x, y))];
        }
        assert RowKey(game, s, y)[..width] == RowKey(game, s, y);
      }
      key := key + "HP:" + [Digit(AbstractHp(game.hitpoints(s)))];
    }

    /**
     * Epsilon-greedy choice in state `s`. With `coin < epsilon`, a random
     * action and no change. Otherwise an unseen key gets a row of zeros
     * and a random action; a seen key gives the tied maximum the draw
     * selects, and the table is left alone.
     */
    method GetNextAction(s: S, coin: real, draw: nat) returns (action: int)
      requires 0.0 <= coin < 1.0
      modifies this`qTable
      ensures 0 <= action < 4
      ensures qTable == ChoiceTable(old(qTable), StateKey(game, s), coin < epsilon)
      ensures action == ChosenAction(old(qTable), StateKey(game, s), coin < epsilon, draw)
      ensures var key := StateKey(game, s);
        && (coin < epsilon ==> qTable == old(qTable) && action == draw % 4)
        && (coin >= epsilon && key !in old(qTable) ==> qTable == old(qTable)[key := Zeros] && action == draw % 4)
        && (coin >= epsilon && key in old(qTable) ==>
              qTable == old(qTable) && action == TiedActions(qTable[key])[draw % |TiedActions(qTable[key])|])
    {
      var state := GetStateRepresentation(s);
      if coin < epsilon {
        return draw % 4;
      }
      if state !in qTable {
        qTable := qTable[state := Zeros];
        return draw % 4;
      }
      var qValues := qTable[state];
      action := GreedyAction(qValues, draw);
    }

    /** The Q update: the row of `state` (zeros if unseen) gets the Bellman value at `action`. */
    method UpdateQTable(state: string, action: int, reward: real, nextState: string)
      requires 0 <= action < 4
      modifies this`qTable
      ensures qTable == Updated(old(qTable), state, action, reward, nextState)
    {
      var qValues := if state in qTable then qTable[state] else Zeros;
      var currentQ := qValues[action];
      var maxNextQ := 0.0;
      if nextState in qTable {
        maxNextQ := MaxOf(qTable[nextState]);
      }
      var newQ := currentQ + Alpha * (reward + Gamma * maxNextQ - currentQ);
      qValues := qValues[action := newQ];
      qTable := qTable[state := qValues];
    }

    method SetEpsilon(e: real)
      modifies this`epsilon
      ensures epsilon == e
    {
      epsilon := e;
    }

    /**
     * Installs a table read from storage. `read` is the outcome of the read:
     * on a failure (None) the table keeps its previous contents.
     */
    method LoadPolicy(read: Option<map<string, Row>>)
      modifies this`qTable
      ensures read.None? ==> qTable == old(qTable)
      ensures read.Some? ==> qTable == read.value
    {
      if read.Some? {
        qTable := read.value;
      }
    }
  }
}
