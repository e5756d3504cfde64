/**
 * The training driver of the Q-learning agent: episodes from a resume
 * point up to the total, an exploration rate that decays with the episode
 * index, at most 200 steps per episode, transition flags derived from the
 * game before and after each step, and a checkpoint every 15000 episodes.
 *
 * The game is the abstract `Game`; the random numbers of each step come
 * from oracles indexed by episode and step.
 */
module QTraining {
  import opened Wrappers
  import opened Dungeon
  import opened QLearning

  const TotalEpisodes: int := 150000
  const MaxStepsPerGame: int := 200
  /** Episodes between two checkpoints. */
  const CheckpointEvery: int := 15000
  /** Episodes of pure exploration before the decay starts. */
  const WarmupEpisodes: int := 2500

  // ---------------------------------------------------------------------
  // Exploration schedule
  // ---------------------------------------------------------------------

  /**
   * The exploration rate of episode `i`: 1 up to the warm-up, then a
   * linear decay by 0.9 over the remaining episodes, never below 0.1.
   */
  function Epsilon(i: int): (e: real)
    ensures 0.1 <= e <= 1.0
    ensures i <= WarmupEpisodes ==> e == 1.0
  {
    if i > WarmupEpisodes then
      var progress := (i - WarmupEpisodes) as real / (TotalEpisodes - WarmupEpisodes) as real;
      var eps := 1.0 - progress * 0.9;
      if eps < 0.1 then 0.1 else eps
    else
      1.0
  }

  /** The exploration rate never increases from one episode to a later one. */
  lemma EpsilonNonIncreasing(i: int, j: int)
    requires i <= j
    ensures Epsilon(j) <= Epsilon(i)
  {
    if i > WarmupEpisodes {
      var d := (TotalEpisodes - WarmupEpisodes) as real;
      assert (i - WarmupEpisodes) as real / d <= (j - WarmupEpisodes) as real / d;
    }
  }

  /** Within the run the floor of 0.1 is never reached: the decay alone sets the rate. */
  lemma EpsilonAboveFloor(i: int)
    requires WarmupEpisodes < i < TotalEpisodes
    ensures Epsilon(i) == 1.0 - (i - WarmupEpisodes) as real / (TotalEpisodes - WarmupEpisodes) as real * 0.9
    ensures Epsilon(i) > 0.1
  {
    var d := (TotalEpisodes - WarmupEpisodes) as real;
    assert (i - WarmupEpisodes) as real / d < 1.0;
  }

  // ---------------------------------------------------------------------
  // Episodes and checkpoints
  // ---------------------------------------------------------------------

  /** A checkpoint follows episode `i` when `i` is a positive multiple of 15000. */
  predicate IsCheckpointEpisode(i: int)
  {
    i % CheckpointEvery == 0 && i > 0
  }

  /** The checkpointed episodes of a run are exactly 15000, 30000, ..., 135000. */
  lemma CheckpointEpisodes(i: int)
    requires 0 <= i < TotalEpisodes
    ensures IsCheckpointEpisode(i) <==> exists k :: 1 <= k <= 9 && i == CheckpointEvery * k
  {
    if IsCheckpointEpisode(i) {
      var k := i / CheckpointEvery;
      assert i == CheckpointEvery * k;
      assert 1 <= k <= 9;
    }
    if exists k :: 1 <= k <= 9 && i == CheckpointEvery * k {
      var k :| 1 <= k <= 9 && i == CheckpointEvery * k;
      assert i % CheckpointEvery == 0;
    }
  }

  /** The episode indices lo, lo + 1, ..., hi - 1 (empty when lo >= hi). */
  function Range(lo: int, hi: int): (r: seq<int>)
    ensures |r| == if lo < hi then hi - lo else 0
    decreases hi - lo
  {
    if lo >= hi then [] else [lo] + Range(lo + 1, hi)
  }

  /** The k-th episode of a range is lo + k. */
  lemma {:induction false} RangeAt(lo: int, hi: int)
    ensures forall k :: 0 <= k < |Range(lo, hi)| ==> Range(lo, hi)[k] == lo + k
    decreases hi - lo
  {
    if lo < hi {
      RangeAt(lo + 1, hi);
      assert Range(lo, hi) == [lo] + Range(lo + 1, hi);
    }
  }

  /** Every episode from `lo` to `hi - 1` runs, each exactly once, and no other. */
  lemma RangeOnce(lo: int, hi: int)
    ensures forall x :: x in Range(lo, hi) <==> lo <= x < hi
    ensures forall k, l :: 0 <= k < l < |Range(lo, hi)| ==> Range(lo, hi)[k] < Range(lo, hi)[l]
  {
    var r := Range(lo, hi);
    RangeAt(lo, hi);
    forall x | lo <= x < hi
      ensures x in r
    {
      assert r[x - lo] == x;
    }
  }

  lemma RangeSnoc(lo: int, hi: int)
    requires lo <= hi
    ensures Range(lo, hi + 1) == Range(lo, hi) + [hi]
  {
    var a := Range(lo, hi + 1);
    var b := Range(lo, hi) + [hi];
    RangeAt(lo, hi + 1);
    RangeAt(lo, hi);
    assert |a| == |b|;
    forall k | 0 <= k < |a|
      ensures a[k] == b[k]
    {
    }
  }

  /** Running episode `i` next extends the run and, for a checkpoint episode, the checkpoints. */
  lemma ExtendRun(lo: int, i: int, eps: seq<int>, saved: seq<int>)
    requires lo <= i && eps == Range(lo, i) && saved == Checkpoints(eps)
    ensures eps + [i] == Range(lo, i + 1)
    ensures saved + (if IsCheckpointEpisode(i) then [i] else []) == Checkpoints(eps + [i])
  {
    RangeSnoc(lo, i);
    assert (eps + [i])[..|eps|] == eps;
  }

  /** The episodes of `eps` after which a checkpoint is written, in the order they run. */
  function Checkpoints(eps: seq<int>): seq<int>
  {
    if eps == [] then []
    else Checkpoints(eps[..|eps| - 1]) + (if IsCheckpointEpisode(eps[|eps| - 1]) then [eps[|eps| - 1]] else [])
  }

  /** A checkpoint is written after exactly the checkpoint episodes of the run. */
  lemma {:induction false} CheckpointsMembers(eps: seq<int>)
    ensures forall x :: x in Checkpoints(eps) <==> x in eps && IsCheckpointEpisode(x)
    decreases |eps|
  {
    if eps != [] {
      var init := eps[..|eps| - 1];
      CheckpointsMembers(init);
      assert eps == init + [eps[|eps| - 1]];
    }
  }

  /** Episodes run in increasing order give checkpoints in increasing order. */
  lemma {:induction false} CheckpointsIncreasing(eps: seq<int>)
    requires forall k, l :: 0 <= k < l < |eps| ==> eps[k] < eps[l]
    ensures forall k, l :: 0 <= k < l < |Checkpoints(eps)| ==> Checkpoints(eps)[k] < Checkpoints(eps)[l]
    decreases |eps|
  {
    if eps != [] {
      var init, last := eps[..|eps| - 1], eps[|eps| - 1];
      var r0 := Checkpoints(init);
      CheckpointsIncreasing(init);
      CheckpointsMembers(init);
      forall k | 0 <= k < |r0|
        ensures r0[k] < last
      {
        assert r0[k] in r0;
        var j :| 0 <= j < |init| && init[j] == r0[k];
        assert eps[j] == init[j];
      }
    }
  }

  /**
   * A run from `lo` writes checkpoints after exactly the multiples 15000 * k,
   * 1 <= k <= 9, that are at least `lo`, in increasing order.
   */
  lemma RunCheckpoints(lo: int)
    requires 0 <= lo
    ensures forall x :: x in Checkpoints(Range(lo, TotalEpisodes)) <==>
      lo <= x && exists k :: 1 <= k <= 9 && x == CheckpointEvery * k
    ensures var r := Checkpoints(Range(lo, TotalEpisodes));
      forall k, l :: 0 <= k < l < |r| ==> r[k] < r[l]
  {
    RangeOnce(lo, TotalEpisodes);
    CheckpointsMembers(Range(lo, TotalEpisodes));
    CheckpointsIncreasing(Range(lo, TotalEpisodes));
    forall x
      ensures x in Checkpoints(Range(lo, TotalEpisodes)) <==> lo <= x && exists k :: 1 <= k <= 9 && x == CheckpointEvery * k
    {
      if lo <= x < TotalEpisodes {
        CheckpointEpisodes(x);
      }
    }
  }

  /** The first episode: the one the checkpoint names, or 0 without a checkpoint. */
  function StartEpisode(checkpoint: Option<int>): (i: int)
    ensures checkpoint.None? ==> i == 0
    ensures checkpoint.Some? ==> i == checkpoint.value
  {
    match checkpoint
    case None => 0
    case Some(e) => e
  }

  // ---------------------------------------------------------------------
  // Transitions
  // ---------------------------------------------------------------------

  /** What one step did, as the persona's reward sees it. */
  datatype Transition = Transition(moved: bool, killed: bool, wasKilled: bool, reachedExit: bool, collected: bool)

  /**
   * The flags of a step from the game after it and the dead-monster and
   * collected-treasure counts before and after it.
   */
  function DeriveFlags(halted: bool, alive: bool, prevMonsters: int, currMonsters: int,
                       prevTreasures: int, currTreasures: int): (t: Transition)
    ensures t.moved
    ensures t.wasKilled <==> !alive
    ensures t.reachedExit <==> halted && alive
    ensures t.reachedExit ==> !t.wasKilled
    ensures t.killed <==> currMonsters > prevMonsters
    ensures t.collected <==> currTreasures > prevTreasures
  {
    var isDead := !alive;
    Transition(true, currMonsters > prevMonsters, isDead, halted && !isDead, currTreasures > prevTreasures)
  }

  /** The reward a persona gets for a transition. */
  function TransitionReward(p: Persona, t: Transition): real
  {
    Reward(p, t.moved, t.killed, t.wasKilled, t.reachedExit, t.collected)
  }

  // ---------------------------------------------------------------------
  // Episodes
  // ---------------------------------------------------------------------

  /** The flags of the step from `s` to `next`, from the dead counts of the two states. */
  function StepFlags<S>(g: Game<S>, s: S, next: S): Transition
  {
    DeriveFlags(g.halted(next), g.heroAlive(next),
                GridCount(g.deadMonsters(s)), GridCount(g.deadMonsters(next)),
                GridCount(g.deadRewards(s)), GridCount(g.deadRewards(next)))
  }

  /**
   * The table after one training step from `s` by `action`: the choice's
   * table, updated at the key of `s` with the persona's reward for the
   * step's flags and the key of the state after it.
   */
  function StepTable<S>(g: Game<S>, p: Persona, table: map<string, Row>, explores: bool, s: S, action: int): map<string, Row>
    requires 0 <= action < 4
  {
    var key := StateKey(g, s);
    var next := g.step(s, action);
    Updated(ChoiceTable(table, key, explores), key, action, TransitionReward(p, StepFlags(g, s, next)), StateKey(g, next))
  }

  /**
   * A training step changes the table by exactly one Q update of the step's
   * state and action: the zero row the choice may add for an unseen key is
   * overwritten by the update, and an unseen next state counts 0 either way.
   */
  lemma StepTableIsUpdate<S>(g: Game<S>, p: Persona, table: map<string, Row>, explores: bool, s: S, action: int)
    requires 0 <= action < 4
    ensures var next := g.step(s, action);
      StepTable(g, p, table, explores, s, action)
      == Updated(table, StateKey(g, s), action, TransitionReward(p, StepFlags(g, s, next)), StateKey(g, next))
  {
    var key := StateKey(g, s);
    var next := g.step(s, action);
    var chosen := ChoiceTable(table, key, explores);
    assert RowOrZeros(chosen, key) == RowOrZeros(table, key);
    if StateKey(g, next) == key && key !in table {
      assert MaxNext(chosen, key) == RowMax(Zeros) == 0.0;
    } else {
      assert MaxNext(chosen, StateKey(g, next)) == MaxNext(table, StateKey(g, next));
    }
  }

  /**
   * What a training step does to the table: the step's state key is added,
   * every other key keeps its row, the other three values of the step's row
   * are kept (zeros for an unseen key), and the chosen action's value moves
   * to the Bellman midpoint with the persona's reward for the step's flags.
   */
  lemma StepTableFrame<S>(g: Game<S>, p: Persona, table: map<string, Row>, explores: bool, s: S, action: int)
    requires 0 <= action < 4
    ensures var t := StepTable(g, p, table, explores, s, action);
      var key, next := StateKey(g, s), g.step(s, action);
      && t.Keys == table.Keys + {key}
      && (forall k :: k in table && k != key ==> t[k] == table[k])
      && (forall j :: 0 <= j < 4 && j != action ==> t[key][j] == RowOrZeros(table, key)[j])
      && t[key][action] == Bellman(RowOrZeros(table, key)[action], TransitionReward(p, StepFlags(g, s, next)),
                                   MaxNext(table, StateKey(g, next)))
  {
    var next := g.step(s, action);
    StepTableIsUpdate(g, p, table, explores, s, action);
    UpdateFrame(table, StateKey(g, s), action, TransitionReward(p, StepFlags(g, s, next)), StateKey(g, next));
  }

  /** Up to the end of the warm-up every coin falls below the rate: the agent explores and keeps its table. */
  lemma WarmupExplores(i: int, c: UnitInterval, d: nat, table: map<string, Row>, key: string)
    requires i <= WarmupEpisodes
    ensures c < Epsilon(i)
    ensures ChosenAction(table, key, c < Epsilon(i), d) == d % 4
    ensures ChoiceTable(table, key, c < Epsilon(i)) == table
  {
  }

  /**
   * One step at state `s` with coin `c` and draw `d` under rate `eps`: the
   * chosen action, the state after it, and the table after it.
   */
  ghost predicate StepAt<S>(g: Game<S>, p: Persona, eps: real, c: real, d: nat, s: S, action: int, next: S,
                            table: map<string, Row>, table': map<string, Row>)
  {
    && 0 <= action < 4
    && action == ChosenAction(table, StateKey(g, s), c < eps, d)
    && next == g.step(s, action)
    && table' == StepTable(g, p, table, c < eps, s, action)
  }

  /** The first `n` steps of episode `i`, as recorded in `trace`, `actions` and `tables`, are `StepAt` steps. */
  ghost predicate StepsUpTo<S>(g: Game<S>, p: Persona, eps: real, i: int, coin: (int, int) -> UnitInterval, draw: (int, int) -> nat,
                               n: int, trace: seq<S>, actions: seq<int>, tables: seq<map<string, Row>>)
  {
    && 0 <= n && |trace| == n + 1 && |actions| == n && |tables| == n + 1
    && forall k :: 0 <= k < n ==>
         StepAt(g, p, eps, coin(i, k), draw(i, k), trace[k], actions[k], trace[k + 1], tables[k], tables[k + 1])
  }

  /** Recording one more step keeps the record made of `StepAt` steps. */
  lemma StepsSnoc<S>(g: Game<S>, p: Persona, eps: real, i: int, coin: (int, int) -> UnitInterval, draw: (int, int) -> nat,
                     n: int, trace: seq<S>, actions: seq<int>, tables: seq<map<string, Row>>,
                     action: int, next: S, table': map<string, Row>)
    requires StepsUpTo(g, p, eps, i, coin, draw, n, trace, actions, tables)
    requires StepAt(g, p, eps, coin(i, n), draw(i, n), trace[n], action, next, tables[n], table')
    ensures StepsUpTo(g, p, eps, i, coin, draw, n + 1, trace + [next], actions + [action], tables + [table'])
  {
    var trace', actions', tables' := trace + [next], actions + [action], tables + [table'];
    forall k | 0 <= k < n + 1
      ensures StepAt(g, p, eps, coin(i, k), draw(i, k), trace'[k], actions'[k], trace'[k + 1], tables'[k], tables'[k + 1])
    {
      if k < n {
        assert trace'[k] == trace[k] && trace'[k + 1] == trace[k + 1] && actions'[k] == actions[k];
        assert tables'[k] == tables[k] && tables'[k + 1] == tables[k + 1];
      }
    }
  }

  /**
   * Episode `i` from `start` under rate `eps`: `steps` steps through the
   * states of `trace`, with the moves of `actions` and the tables of
   * `tables`; it stops at the first halted state after the start, or after
   * 200 steps.
   */
  ghost predicate Episode<S>(g: Game<S>, p: Persona, eps: real, i: int, start: S,
                             coin: (int, int) -> UnitInterval, draw: (int, int) -> nat,
                             steps: int, trace: seq<S>, actions: seq<int>, tables: seq<map<string, Row>>)
  {
    && 1 <= steps <= MaxStepsPerGame
    && StepsUpTo(g, p, eps, i, coin, draw, steps, trace, actions, tables)
    && trace[0] == start
    && (forall k :: 0 < k < steps ==> !g.halted(trace[k]))
    && (steps < MaxStepsPerGame ==> g.halted(trace[steps]))
  }

  /**
   * Episode `i` from `start`, played with the rate of its index, takes the
   * table from `before` to `after`.
   */
  ghost predicate PlaysEpisode<S(!new)>(g: Game<S>, p: Persona, i: int, start: S,
                                  coin: (int, int) -> UnitInterval, draw: (int, int) -> nat,
                                  before: map<string, Row>, after: map<string, Row>)
  {
    exists steps, trace, actions, tables ::
      && Episode(g, p, Epsilon(i), i, start, coin, draw, steps, trace, actions, tables)
      && tables[0] == before && tables[steps] == after
  }

  /**
   * The episodes of `episodes` were played from `start` one after another:
   * `finals[0]` is the table before the first, and episode `episodes[k]`
   * takes `finals[k]` to `finals[k + 1]`.
   */
  ghost predicate PlayedRun<S(!new)>(g: Game<S>, p: Persona, start: S,
                                     coin: (int, int) -> UnitInterval, draw: (int, int) -> nat,
                                     episodes: seq<int>, finals: seq<map<string, Row>>)
  {
    && |finals| == |episodes| + 1
    && forall k {:trigger PlaysEpisode(g, p, episodes[k], start, coin, draw, finals[k], finals[k + 1])} :: 0 <= k < |episodes| ==>
      PlaysEpisode(g, p, episodes[k], start, coin, draw, finals[k], finals[k + 1])
  }

  /** One more played episode extends a played run. */
  lemma PlayedRunSnoc<S(!new)>(g: Game<S>, p: Persona, start: S,
                               coin: (int, int) -> UnitInterval, draw: (int, int) -> nat,
                               episodes: seq<int>, finals: seq<map<string, Row>>, i: int, table: map<string, Row>)
    requires PlayedRun(g, p, start, coin, draw, episodes, finals)
    requires PlaysEpisode(g, p, i, start, coin, draw, finals[|episodes|], table)
    ensures PlayedRun(g, p, start, coin, draw, episodes + [i], finals + [table])
  {
    var episodes', finals' := episodes + [i], finals + [table];
    forall k | 0 <= k < |episodes'|
      ensures PlaysEpisode(g, p, episodes'[k], start, coin, draw, finals'[k], finals'[k + 1])
    {
      if k < |episodes| {
        assert episodes'[k] == episodes[k] && finals'[k] == finals[k] && finals'[k + 1] == finals[k + 1];
      }
    }
  }

  /**
   * One step of an episode in state `s`: choose an action, apply it, derive
   * the flags from the dead counts before and after, and update the table
   * with the persona's reward. `prevMonsters` and `prevTreasures` are the
   * dead counts of `s`.
   */
  method TrainingStep<S>(agent: QLearningController<S>, s: S, c: real, d: nat, prevMonsters: int, prevTreasures: int)
    returns (action: int, next: S, currMonsters: int, currTreasures: int, flags: Transition)
    requires 0.0 <= c < 1.0
    requires prevMonsters == GridCount(agent.game.deadMonsters(s))
    requires prevTreasures == GridCount(agent.game.deadRewards(s))
    modifies agent`qTable
    ensures StepAt(agent.game, agent.persona, agent.epsilon, c, d, s, action, next, old(agent.qTable), agent.qTable)
    ensures currMonsters == GridCount(agent.game.deadMonsters(next))
    ensures currTreasures == GridCount(agent.game.deadRewards(next))
    ensures flags == StepFlags(agent.game, s, next)
  {
    var game := agent.game;
    var state := agent.GetStateRepresentation(s);
    action := agent.GetNextAction(s, c, d);
    next := game.step(s, action);
    currMonsters := CountMarked(game.deadMonsters(next));
    currTreasures := CountMarked(game.deadRewards(next));
    flags := DeriveFlags(game.halted(next), game.heroAlive(next), prevMonsters, currMonsters, prevTreasures, currTreasures);
    var reward := TransitionReward(agent.persona, flags);
    var nextState := agent.GetStateRepresentation(next);
    agent.UpdateQTable(state, action, reward, nextState);
  }

  /**
   * Step `n` of episode `i` from state `s`, the last recorded one: one training step,
   * with the records extended by its state, its move and the new table.
   */
  method EpisodeStep<S>(agent: QLearningController<S>, i: int, coin: (int, int) -> UnitInterval, draw: (int, int) -> nat,
                        s: S, prevMonsters: int, prevTreasures: int,
                        n: int, ghost trace: seq<S>, ghost actions: seq<int>, ghost tables: seq<map<string, Row>>)
    returns (next: S, currMonsters: int, currTreasures: int,
             ghost trace': seq<S>, ghost actions': seq<int>, ghost tables': seq<map<string, Row>>)
    requires StepsUpTo(agent.game, agent.persona, agent.epsilon, i, coin, draw, n, trace, actions, tables)
    requires trace[n] == s && tables[n] == agent.qTable
    requires prevMonsters == GridCount(agent.game.deadMonsters(s))
    requires prevTreasures == GridCount(agent.game.deadRewards(s))
    modifies agent`qTable
    ensures StepsUpTo(agent.game, agent.persona, agent.epsilon, i, coin, draw, n + 1, trace', actions', tables')
    ensures trace' == trace + [next] && tables'[n + 1] == agent.qTable
    ensures trace'[0] == trace[0] && tables'[0] == tables[0]
    ensures currMonsters == GridCount(agent.game.deadMonsters(next))
    ensures currTreasures == GridCount(agent.game.deadRewards(next))
  {
    var action, currM, currT, flags;
    action, next, currM, currT, flags := TrainingStep(agent, s, coin(i, n), draw(i, n), prevMonsters, prevTreasures);
    currMonsters, currTreasures := currM, currT;
    StepsSnoc(agent.game, agent.persona, agent.epsilon, i, coin, draw, n, trace, actions, tables, action, next, agent.qTable);
    trace', actions', tables' := trace + [next], actions + [action], tables + [agent.qTable];
  }

  /**
   * Episode `i` from `start`: at most 200 steps, each choosing an action,
   * applying it, deriving the flags and updating the table; the episode
   * ends right after the step in which the game halts. The dead counts of
   * each state carry over as the previous counts of the next step.
   * `trace`, `actions` and `tables` record the states, the moves and the
   * tables.
   */
  method PlayEpisode<S>(agent: QLearningController<S>, i: int, start: S, coin: (int, int) -> UnitInterval, draw: (int, int) -> nat)
    returns (steps: int, final: S, ghost trace: seq<S>, ghost actions: seq<int>, ghost tables: seq<map<string, Row>>)
    modifies agent`qTable
    ensures Episode(agent.game, agent.persona, agent.epsilon, i, start, coin, draw, steps, trace, actions, tables)
    ensures trace[steps] == final
    ensures tables[0] == old(agent.qTable) && tables[steps] == agent.qTable
  {
    var game := agent.game;
    var s := start;
    steps := 0;
    var done := false;
    trace := [start];
    actions := [];
    tables := [agent.qTable];
    var prevMonsters := CountMarked(game.deadMonsters(s));
    var prevTreasures := CountMarked(game.deadRewards(s));
    while !done && steps < MaxStepsPerGame
      invariant 0 <= steps <= MaxStepsPerGame
      invariant done ==> steps >= 1 && game.halted(s)
      invariant !done ==> steps == 0 || !game.halted(s)
      invariant StepsUpTo(game, agent.persona, agent.epsilon, i, coin, draw, steps, trace, actions, tables)
      invariant trace[0] == start && trace[steps] == s
      invariant tables[0] == old(agent.qTable) && tables[steps] == agent.qTable
      invariant prevMonsters == GridCount(game.deadMonsters(s)) && prevTreasures == GridCount(game.deadRewards(s))
      invariant forall k :: 0 < k < steps ==> !game.halted(trace[k])
      decreases MaxStepsPerGame - steps, if done then 0 else 1
    {
      var next, currMonsters, currTreasures;
      next, currMonsters, currTreasures, trace, actions, tables :=
        EpisodeStep(agent, i, coin, draw, s, prevMonsters, prevTreasures, steps, trace, actions, tables);
      s := next;
      prevMonsters := currMonsters;
      prevTreasures := currTreasures;
      steps := steps + 1;
      if game.halted(s) {
        done := true;
      }
    }
    final := s;
  }

  /** Episode `i`: set the rate of its index, then play it from `start`. */
  method RunEpisode<S>(agent: QLearningController<S>, i: int, start: S, coin: (int, int) -> UnitInterval, draw: (int, int) -> nat)
    returns (ghost steps: int, ghost trace: seq<S>, ghost actions: seq<int>, ghost tables: seq<map<string, Row>>)
    modifies agent`qTable, agent`epsilon
    ensures agent.epsilon == Epsilon(i)
    ensures Episode(agent.game, agent.persona, Epsilon(i), i, start, coin, draw, steps, trace, actions, tables)
    ensures tables[0] == old(agent.qTable) && tables[steps] == agent.qTable
  {
    agent.SetEpsilon(Epsilon(i));
    var n, final;
    n, final, trace, actions, tables := PlayEpisode(agent, i, start, coin, draw);
    steps := n;
  }

  /**
   * Episode `i` of a run that started at `lo`: play it with the rate of its
   * index, then record it, and record a checkpoint when `i` is a checkpoint
   * episode. `finals'` extends the record of tables by the new one.
   */
  method TrainEpisode<S(!new)>(agent: QLearningController<S>, lo: int, i: int, start: S,
                         coin: (int, int) -> UnitInterval, draw: (int, int) -> nat,
                         ghost episodes: seq<int>, ghost saved: seq<int>, ghost finals: seq<map<string, Row>>)
    returns (ghost episodes': seq<int>, ghost saved': seq<int>, ghost finals': seq<map<string, Row>>)
    requires lo <= i && episodes == Range(lo, i) && saved == Checkpoints(episodes)
    requires PlayedRun(agent.game, agent.persona, start, coin, draw, episodes, finals)
    requires finals[|episodes|] == agent.qTable
    modifies agent`qTable, agent`epsilon
    ensures agent.epsilon == Epsilon(i)
    ensures PlaysEpisode(agent.game, agent.persona, i, start, coin, draw, old(agent.qTable), agent.qTable)
    ensures episodes' == episodes + [i] && saved' == saved + (if IsCheckpointEpisode(i) then [i] else [])
    ensures episodes' == Range(lo, i + 1) && saved' == Checkpoints(episodes')
    ensures PlayedRun(agent.game, agent.persona, start, coin, draw, episodes', finals')
    ensures finals' == finals + [agent.qTable]
  {
    ghost var steps, trace, actions, tables := RunEpisode(agent, i, start, coin, draw);
    ExtendRun(lo, i, episodes, saved);
    episodes' := episodes + [i];
    saved' := saved + (if IsCheckpointEpisode(i) then [i] else []);
    assert PlaysEpisode(agent.game, agent.persona, i, start, coin, draw, old(agent.qTable), agent.qTable);
    PlayedRunSnoc(agent.game, agent.persona, start, coin, draw, episodes, finals, i, agent.qTable);
    finals' := finals + [agent.qTable];
  }

  /**
   * Trains a fresh agent: episodes from the resume point (0 without a
   * checkpoint) to `TotalEpisodes - 1`, each from `start` with the rate of
   * its index, and a checkpoint after every checkpoint episode.
   * `episodes` and `saved` record the episodes run and checkpointed;
   * `finals` records the table before the first episode and after each one.
   */
  method TrainAgent<S(!new)>(game: Game<S>, persona: Persona, start: S, checkpoint: Option<int>,
                       coin: (int, int) -> UnitInterval, draw: (int, int) -> nat)
    returns (agent: QLearningController<S>, ghost episodes: seq<int>, ghost saved: seq<int>,
             ghost finals: seq<map<string, Row>>)
    ensures fresh(agent) && agent.game == game && agent.persona == persona
    ensures PlayedRun(game, persona, start, coin, draw, episodes, finals)
    ensures finals[0] == map[] && agent.qTable == finals[|episodes|]
    ensures episodes == Range(StartEpisode(checkpoint), TotalEpisodes)
    ensures saved == Checkpoints(episodes)
    ensures episodes != [] ==> agent.epsilon == Epsilon(TotalEpisodes - 1)
  {
    agent := new QLearningController(game, persona);
    var startEpisode := 0;
    if checkpoint.Some? {
      startEpisode := checkpoint.value;
    }
    episodes := [];
    saved := [];
    finals := [agent.qTable];
    var i := startEpisode;
    while i < TotalEpisodes
      invariant startEpisode <= i && (i <= TotalEpisodes || i == startEpisode)
      invariant episodes == Range(startEpisode, i)
      invariant saved == Checkpoints(episodes)
      invariant episodes != [] ==> episodes[|episodes| - 1] == i - 1 && agent.epsilon == Epsilon(i - 1)
      invariant agent.game == game && agent.persona == persona
      invariant PlayedRun(game, persona, start, coin, draw, episodes, finals)
      invariant finals[0] == map[] && agent.qTable == finals[|episodes|]
      decreases TotalEpisodes - i
    {
      episodes, saved, finals := TrainEpisode(agent, startEpisode, i, start, coin, draw, episodes, saved, finals);
      i := i + 1;
    }
  }
}
