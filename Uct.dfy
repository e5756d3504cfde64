/**
 * The Monte Carlo Tree Search agent with the UCT selection rule. Each
 * decision builds a fresh arena tree rooted at a copy of the live game state,
 * runs select / expand / simulate / backpropagate for a fixed budget and
 * returns the action of the root child with the best average reward.
 */
module Uct {
  import opened Wrappers
  import opened Dungeon
  import opened UctTree

  /** The iteration budget: the search loop stops once its counter exceeds it. */
  const MaxIterations: int := 100
  /** At most this many moves per random playout. */
  const MaxRolloutSteps: int := 15
  /** How many random candidates a playout move tests before falling back to action 0. */
  const RandomAttempts: int := 10

  /** The budget test of the search loop: rounds 0 to `MaxIterations` run, the next one does not. */
  predicate Terminate(i: int): (r: bool)
    ensures !r <==> i < MaxIterations + 1
  {
    i > MaxIterations
  }

  /**
   * What one search round did: the selection descent `path`, the tree `mid`
   * after expansion, the `leaf` the playout starts from, and the playout's
   * moves `acts` and states `trace`.
   */
  datatype RoundTrace<S> = RoundTrace(path: seq<int>, mid: seq<Node<S>>, leaf: int, acts: seq<int>, trace: seq<S>)

  /**
   * One search round `w` from tree `before` to tree `after`: selection
   * descends along `w.path`; the last node of the path is either terminal and
   * is the leaf (`w.mid == before`), or it is expanded and the new child is
   * the leaf; a playout of at most 15 moves from the leaf, stopping early
   * only at a terminal state, visits `w.trace`; and backpropagation adds one
   * visit and the playout's reward to every node on the leaf's parent chain.
   */
  ghost predicate Round<S>(g: Game<S>, explore: (real, int, int) -> real, c: real,
                           before: seq<Node<S>>, after: seq<Node<S>>, w: RoundTrace<S>)
  {
    && Linked(before)
    && Descent(g, explore, c, before, w.path)
    && (var last := w.path[|w.path| - 1];
        || (TerminalState(g, before[last].state) && w.mid == before && w.leaf == last)
        || (&& !TerminalState(g, before[last].state)
            && FirstUntried(g, before, last) >= 0
            && w.mid == Expanded(g, before, last)
            && w.leaf == |before|))
    && Linked(w.mid) && 0 <= w.leaf < |w.mid|
    && Playout(g, w.mid[w.leaf].state, w.acts, w.trace)
    && |w.acts| <= MaxRolloutSteps
    && (|w.acts| < MaxRolloutSteps ==> TerminalState(g, w.trace[|w.acts|]))
    && after == BumpPath(w.mid, Ancestors(w.mid, w.leaf), RolloutReward(g, w.trace[|w.acts|]))
  }

  /**
   * A round keeps the search invariant and adds one root visit: the tree
   * stays valid and rooted at the live state, and every node but the root
   * stays visited.
   */
  lemma RoundKeepsSearch<S>(g: Game<S>, explore: (real, int, int) -> real, c: real,
                            before: seq<Node<S>>, after: seq<Node<S>>, w: RoundTrace<S>, live: S, n: int)
    requires SearchInvariant(g, before, live, n)
    requires Round(g, explore, c, before, after, w)
    ensures SearchInvariant(g, after, live, n + 1)
  {
    var last := w.path[|w.path| - 1];
    if !TerminalState(g, before[last].state) {
      ExpandKeepsTree(g, before, last);
      ExpandedFrame(g, before, last);
    }
    SearchStep(g, before, w.mid, w.leaf, RolloutReward(g, w.trace[|w.acts|]), live, n);
  }

  /**
   * The trees of a search from `live`: the fresh root, then one tree per
   * round, each made from the one before by the round of `rounds` at the
   * same position.
   */
  ghost predicate Rounds<S>(g: Game<S>, explore: (real, int, int) -> real, c: real,
                            live: S, trees: seq<seq<Node<S>>>, rounds: seq<RoundTrace<S>>)
  {
    && |trees| == |rounds| + 1
    && trees[0] == [NewNode(live)]
    && forall k {:trigger rounds[k]} :: 0 <= k < |rounds| ==> Round(g, explore, c, trees[k], trees[k + 1], rounds[k])
  }

  /** One more round extends the trees of a search. */
  lemma RoundsSnoc<S>(g: Game<S>, explore: (real, int, int) -> real, c: real,
                      live: S, trees: seq<seq<Node<S>>>, rounds: seq<RoundTrace<S>>,
                      after: seq<Node<S>>, w: RoundTrace<S>)
    requires Rounds(g, explore, c, live, trees, rounds)
    requires Round(g, explore, c, trees[|trees| - 1], after, w)
    ensures Rounds(g, explore, c, live, trees + [after], rounds + [w])
  {
    var trees', rounds' := trees + [after], rounds + [w];
    forall k | 0 <= k < |rounds'|
      ensures Round(g, explore, c, trees'[k], trees'[k + 1], rounds'[k])
    {
      SnocAt(trees, after, k);
      SnocAt(trees, after, k + 1);
      SnocAt(rounds, w, k);
      if k < |rounds| {
        assert Round(g, explore, c, trees[k], trees[k + 1], rounds[k]);
      }
    }
  }

  /** The elements of a sequence with one element appended. */
  lemma SnocAt<T>(s: seq<T>, x: T, k: int)
    requires 0 <= k <= |s|
    ensures (s + [x])[k] == if k < |s| then s[k] else x
  {
  }

  /** The k-th tree of a search keeps the search invariant with k root visits. */
  lemma {:induction false} RoundsKeepSearch<S>(g: Game<S>, explore: (real, int, int) -> real, c: real,
                                               live: S, trees: seq<seq<Node<S>>>, rounds: seq<RoundTrace<S>>, k: int)
    requires Rounds(g, explore, c, live, trees, rounds) && 0 <= k < |trees|
    ensures SearchInvariant(g, trees[k], live, k)
    decreases k
  {
    if k == 0 {
      SearchStart(g, live);
    } else {
      var j := k - 1;
      RoundsKeepSearch(g, explore, c, live, trees, rounds, j);
      assert Round(g, explore, c, trees[j], trees[j + 1], rounds[j]);
      RoundKeepsSearch(g, explore, c, trees[j], trees[j + 1], rounds[j], live, j);
    }
  }

  class UctController<S> {
    /** The game interface the agent consults. */
    const game: Game<S>
    /** The exploration term c * sqrt(ln(parent visits) / visits); square root and logarithm are not modelled. */
    const exploration: (real, int, int) -> real
    /** The exploration coefficient. */
    const C: real
    /** The arena of the current search; index 0 is the root node. */
    var nodes: seq<Node<S>>
    /** The node the search works at; -1 stands for null. */
    var current: int

    /** The arena is a well-formed search tree; this holds after a search, not before the first one. */
    ghost predicate Valid()
      reads this
    {
      Tree(game, nodes)
    }

    /** A controller with no tree yet: `Valid` holds only once a search has built one. */
    constructor (game: Game<S>, exploration: (real, int, int) -> real)
      ensures this.game == game && this.exploration == exploration
      ensures C == 1.4 && nodes == [] && current == -1
    {
      this.game := game;
      this.exploration := exploration;
      C := 1.4;
      nodes := [];
      current := -1;
    }

    /**
     * What a search from `live` leaves behind in `result`: the trees of
     * `trees`, starting at the fresh root and each made from the one before
     * by the search round of `rounds` at its position, ending at the current tree, which is valid and
     * rooted at `live`. A completed search ran 101 rounds, visited the root
     * 101 times and every node at least once, and chose the action of the
     * first root child with the strictly greatest average reward (0 without
     * children). A fault (`None`) happens in a round whose selection descent
     * from the root, in the last tree, ends at a stuck node.
     */
    ghost predicate Decided(live: S, trees: seq<seq<Node<S>>>, rounds: seq<RoundTrace<S>>, result: Option<int>)
      reads this
    {
      && Valid()
      && nodes[0].state == live
      && Rounds(game, exploration, C, live, trees, rounds)
      && nodes == trees[|trees| - 1]
      && (result.Some? ==>
            && |trees| == MaxIterations + 2
            && nodes[0].timesVisited == MaxIterations + 1
            && (forall i :: 0 <= i < |nodes| ==> nodes[i].timesVisited >= 1)
            && (nodes[0].children == [] ==> result.value == 0)
            && (nodes[0].children != [] ==>
                  exists k :: FirstStrictMax(ChildAverages(nodes, 0), k) && result.value == ChildActions(nodes, 0)[k]))
      && (result.None? ==>
            && |trees| <= MaxIterations + 1
            && exists path :: Descent(game, exploration, C, nodes, path) && Stuck(game, nodes, path[|path| - 1]))
    }

    /**
     * The decision entry point: the action of the completed search, or 0
     * when the search faults. `trees`, `rounds` and `result` are the
     * search's trees, rounds and outcome.
     */
    method GetNextAction(live: S)
      returns (action: int, ghost trees: seq<seq<Node<S>>>, ghost rounds: seq<RoundTrace<S>>, ghost result: Option<int>)
      modifies this`nodes, this`current
      ensures Decided(live, trees, rounds, result)
      ensures action == if result.Some? then result.value else 0
      ensures 0 <= action < 4
    {
      var outcome;
      outcome, trees, rounds := RunUct(live);
      result := outcome;
      if outcome.Some? {
        action := outcome.value;
      } else {
        action := 0;
      }
    }

    /**
     * The search. `None` stands for the null dereference that happens when
     * selection reaches a non-terminal node with no children and no untried
     * legal action. `trees` records the tree before the first round and
     * after each completed round, `rounds` what each completed round did.
     */
    method RunUct(live: S) returns (result: Option<int>, ghost trees: seq<seq<Node<S>>>, ghost rounds: seq<RoundTrace<S>>)
      modifies this`nodes, this`current
      ensures Decided(live, trees, rounds, result)
      ensures result.Some? ==> 0 <= result.value < 4
    {
      nodes := [NewNode(live)];
      SearchStart(game, live);
      trees, rounds := [nodes], [];
      var iterations := 0;
      while !Terminate(iterations)
        invariant 0 <= iterations <= MaxIterations + 1
        invariant SearchInvariant(game, nodes, live, iterations)
        invariant Rounds(game, exploration, C, live, trees, rounds)
        invariant |trees| == iterations + 1 && trees[iterations] == nodes
        decreases MaxIterations + 1 - iterations
      {
        var ok, w, path := SearchRound(live, iterations);
        if !ok {
          return None, trees, rounds;
        }
        RoundsSnoc(game, exploration, C, live, trees, rounds, nodes, w);
        trees, rounds := trees + [nodes], rounds + [w];
        iterations := iterations + 1;
      }
      var bestAction, bestIndex := BestRootAction();
      return Some(bestAction), trees, rounds;
    }

    /**
     * One round of the search: selection and expansion, a playout from the
     * reached node, and backpropagation of its reward. `w` is what the round
     * did. When selection faults, the tree is unchanged and `path` is the
     * descent that ends at the stuck node.
     */
    method SearchRound(live: S, iterations: int) returns (ok: bool, ghost w: RoundTrace<S>, ghost path: seq<int>)
      requires SearchInvariant(game, nodes, live, iterations)
      modifies this`nodes, this`current
      ensures ok ==> Round(game, exploration, C, old(nodes), nodes, w)
      ensures ok ==> SearchInvariant(game, nodes, live, iterations + 1)
      ensures !ok ==> nodes == old(nodes) && Descent(game, exploration, C, nodes, path) && Stuck(game, nodes, path[|path| - 1])
    {
      ghost var before := nodes;
      ghost var expandedFrom: int;
      ok, expandedFrom, path := TreePolicy();
      if !ok {
        w := RoundTrace(path, nodes, current, [], []);
        return;
      }
      var reward, rollout, trace := DefaultPolicy();
      ghost var mid, leaf := nodes, current;
      Backpropagate(reward);
      SearchStep(game, before, mid, leaf, reward, live, iterations);
      w := RoundTrace(path, mid, leaf, rollout, trace);
    }

    /**
     * Selection and expansion: descend from the root while the node is not
     * terminal; expand the first node that is not fully expanded, otherwise
     * move to the best child. `ok` is false when the move reached null.
     * `path` is the descent, ending where selection stopped.
     */
    method TreePolicy() returns (ok: bool, ghost expandedFrom: int, ghost path: seq<int>)
      requires Valid()
      modifies this`nodes, this`current
      ensures Valid()
      ensures Descent(game, exploration, C, old(nodes), path)
      ensures |old(nodes)| <= |nodes| <= |old(nodes)| + 1
      ensures forall j :: 0 <= j < |old(nodes)| ==>
        nodes[j].timesVisited == old(nodes)[j].timesVisited && nodes[j].state == old(nodes)[j].state
      ensures !ok ==> nodes == old(nodes) && current == -1 && Stuck(game, nodes, path[|path| - 1])
      ensures ok ==> 0 <= current < |nodes|
      ensures ok && expandedFrom < 0 ==>
        nodes == old(nodes) && current == path[|path| - 1] && TerminalState(game, nodes[current].state)
      ensures ok && expandedFrom >= 0 ==>
        && expandedFrom == path[|path| - 1]
        && !TerminalState(game, old(nodes)[expandedFrom].state)
        && FirstUntried(game, old(nodes), expandedFrom) >= 0
        && nodes == Expanded(game, old(nodes), expandedFrom)
        && current == |old(nodes)|
    {
      current := 0;
      expandedFrom := -1;
      path := [0];
      while !TerminalState(game, nodes[current].state)
        invariant Valid() && nodes == old(nodes) && 0 <= current < |nodes|
        invariant Descent(game, exploration, C, nodes, path) && path[|path| - 1] == current
        decreases |nodes| - current
      {
        var full := FullyExpanded(current);
        if !full {
          expandedFrom := current;
          ExpandKeepsTree(game, nodes, current);
          ExpandedFrame(game, nodes, current);
          Expand();
          return true, expandedFrom, path;
        } else {
          ghost var from := current;
          ChildrenInRange(nodes, from);
          ghost var k := BestChild(C);
          if current == -1 {
            return false, -1, path;
          }
          assert FirstStrictMax(ChildScores(exploration, C, nodes, from), k) && current == nodes[from].children[k];
          DescentExtend(game, exploration, C, nodes, path, current);
          path := path + [current];
        }
      }
      ok := true;
    }

    /**
     * The random playout from the current node's state: at most 15 random
     * moves, stopping early at a terminal state, evaluated by the rollout
     * reward. `actions` and `trace` record the moves and the visited states.
     */
    method DefaultPolicy() returns (reward: real, ghost actions: seq<int>, ghost trace: seq<S>)
      requires 0 <= current < |nodes|
      ensures Playout(game, nodes[current].state, actions, trace)
      ensures |actions| <= MaxRolloutSteps
      ensures |actions| < MaxRolloutSteps ==> TerminalState(game, trace[|actions|])
      ensures reward == RolloutReward(game, trace[|actions|])
    {
      var simState := nodes[current].state;
      var steps := 0;
      actions, trace := [], [simState];
      while !TerminalState(game, simState) && steps < MaxRolloutSteps
        invariant 0 <= steps <= MaxRolloutSteps && steps == |actions|
        invariant Playout(game, nodes[current].state, actions, trace)
        invariant simState == trace[steps]
      {
        var action, tested := RandomAction(simState);
        simState := game.step(simState, action);
        actions, trace := actions + [action], trace + [simState];
        steps := steps + 1;
      }
      reward := GetReward(simState);
    }

    /**
     * Walks from the current node up the parent links to the root, adding one
     * visit and the reward to every node on the way.
     */
    method Backpropagate(reward: real)
      requires Linked(nodes) && 0 <= current < |nodes|
      modifies this`nodes
      ensures nodes == BumpPath(old(nodes), Ancestors(old(nodes), current), reward)
    {
      ghost var ns := nodes;
      var node := current;
      ghost var done: set<int> := {};
      while node != -1
        invariant -1 <= node < |ns|
        invariant node >= 0 ==> Ancestors(ns, current) == done + Ancestors(ns, node)
        invariant node == -1 ==> done == Ancestors(ns, current)
        invariant forall j :: j in done ==> j > node
        invariant nodes == BumpPath(ns, done, reward)
        decreases node + 1
      {
        assert nodes[node] == ns[node];
        var updated := nodes[node].(timesVisited := nodes[node].timesVisited + 1,
                                    reward := nodes[node].reward + reward);
        assert updated == Bumped(ns[node], reward);
        BumpPathAdd(ns, done, node, reward);
        nodes := nodes[node := updated];
        done := done + {node};
        assert nodes[node].parent == ns[node].parent;
        AncestorsStep(ns, node);
        node := nodes[node].parent;
      }
    }

    /** Whether node `n` has no untried legal action left (4 children count as fully expanded). */
    method FullyExpanded(n: int) returns (full: bool)
      requires Linked(nodes) && 0 <= n < |nodes|
      ensures full <==> FirstUntried(game, nodes, n) < 0
    {
      ChildrenInRange(nodes, n);
      var cs := nodes[n].children;
      ghost var acts := ChildActions(nodes, n);
      if |cs| >= 4 {
        FullyExpandedIffNoUntried(game, nodes, n);
        return true;
      }
      for i := 0 to 4
        invariant forall j :: 0 <= j < i ==> j in acts || !game.legal(nodes[n].state, j)
      {
        var tried := false;
        for k := 0 to |cs|
          invariant !tried
          invariant forall l :: 0 <= l < k ==> acts[l] != i
        {
          if nodes[cs[k]].parentAction == i {
            assert acts[k] == i;
            tried := true;
            break;
          }
        }
        if !tried && game.legal(nodes[n].state, i) {
          FirstUntriedByScan(game, nodes, n, i);
          return false;
        }
      }
      FirstUntriedByScan(game, nodes, n, -1);
      return true;
    }

    /** The first action in 0..3 that no child used and that is legal, or -1. */
    method UntriedAction(n: int) returns (action: int)
      requires Linked(nodes) && 0 <= n < |nodes|
      ensures action == FirstUntried(game, nodes, n)
    {
      ChildrenInRange(nodes, n);
      var cs := nodes[n].children;
      ghost var acts := ChildActions(nodes, n);
      label Outer:
      for i := 0 to 4
        invariant forall j :: 0 <= j < i ==> j in acts || !game.legal(nodes[n].state, j)
      {
        for k := 0 to |cs|
          invariant forall l :: 0 <= l < k ==> acts[l] != i
        {
          if nodes[cs[k]].parentAction == i {
            assert acts[k] == i;
            continue Outer;
          }
        }
        if game.legal(nodes[n].state, i) {
          FirstUntriedByScan(game, nodes, n, i);
          return i;
        }
      }
      FirstUntriedByScan(game, nodes, n, -1);
      return -1;
    }

    /** Appends a child for the first untried legal action and makes it the current node. */
    method Expand()
      requires Linked(nodes) && 0 <= current < |nodes|
      requires FirstUntried(game, nodes, current) >= 0
      modifies this`nodes, this`current
      ensures nodes == Expanded(game, old(nodes), old(current))
      ensures current == |old(nodes)|
    {
      ghost var ns, p := nodes, current;
      var action := UntriedAction(current);
      var nextState := game.step(nodes[current].state, action);
      nodes := AddChild(nodes, current, action, nextState);
      current := |nodes| - 1;
    }

    /**
     * Moves to the first child with the strictly greatest UCT value, or to
     * null (-1) when the current node has no children.
     */
    method BestChild(c: real) returns (ghost k: int)
      requires Linked(nodes) && 0 <= current < |nodes|
      modifies this`current
      ensures var cs := nodes[old(current)].children;
        && (cs == [] ==> current == -1 && k == -1)
        && (cs != [] ==> FirstStrictMax(ChildScores(exploration, c, nodes, old(current)), k) && current == cs[k])
      ensures old(current) < current < |nodes| || current == -1
    {
      var nt := current;
      var cs := nodes[nt].children;
      ChildrenInRange(nodes, nt);
      ghost var scores := ChildScores(exploration, c, nodes, nt);
      var bestChild := -1;
      var bestValue := NegInf;
      k := -1;
      for i := 0 to |cs|
        invariant ScanPrefix(scores, i, k)
        invariant k == -1 ==> bestChild == -1 && bestValue == NegInf
        invariant k >= 0 ==> bestChild == cs[k] && bestValue == scores[k]
      {
        var uctValue := UctValue(exploration, c, nodes, cs[i]);
        assert uctValue == scores[i];
        ScanStep(scores, i, k);
        if Above(uctValue, bestValue) {
          bestValue := uctValue;
          bestChild := cs[i];
          k := i;
        }
      }
      if k >= 0 {
        ScanDone(scores, k);
      }
      current := bestChild;
    }

    /** The action of the first root child with the strictly greatest average reward, 0 when the root has no children. */
    method BestRootAction() returns (bestAction: int, ghost k: int)
      requires Linked(nodes)
      ensures var cs := nodes[0].children;
        && (cs == [] ==> bestAction == 0 && k == -1)
        && (cs != [] ==> FirstStrictMax(ChildAverages(nodes, 0), k) && bestAction == ChildActions(nodes, 0)[k])
      ensures 0 <= bestAction < 4
    {
      var cs := nodes[0].children;
      ChildrenInRange(nodes, 0);
      ghost var averages := ChildAverages(nodes, 0);
      bestAction := 0;
      var bestValue := NegInf;
      k := -1;
      for i := 0 to |cs|
        invariant ScanPrefix(averages, i, k)
        invariant k == -1 ==> bestAction == 0 && bestValue == NegInf
        invariant k >= 0 ==> bestAction == nodes[cs[k]].parentAction && bestValue == averages[k]
      {
        var child := nodes[cs[i]];
        var avgReward := if child.timesVisited > 0 then child.reward / child.timesVisited as real else 0.0;
        assert Finite(avgReward) == averages[i];
        ScanStep(averages, i, k);
        if Above(Finite(avgReward), bestValue) {
          bestValue := Finite(avgReward);
          bestAction := child.parentAction;
          k := i;
        }
      }
      if k >= 0 {
        ScanDone(averages, k);
      }
    }

    /**
     * A playout move: the first of up to 10 random candidates that is legal,
     * or 0 when none of them is. `tested` lists the candidates in draw order.
     */
    method RandomAction(s: S) returns (action: int, ghost tested: seq<int>)
      ensures 0 <= action < 4
      ensures 1 <= |tested| <= RandomAttempts
      ensures forall j :: 0 <= j < |tested| ==> 0 <= tested[j] < 4
      ensures forall j :: 0 <= j < |tested| - 1 ==> !game.legal(s, tested[j])
      ensures game.legal(s, tested[|tested| - 1]) ==> action == tested[|tested| - 1]
      ensures !game.legal(s, tested[|tested| - 1]) ==> |tested| == RandomAttempts && action == 0
      ensures game.legal(s, action) || action == 0
    {
      action :| 0 <= action < 4;
      var attempts := 0;
      tested := [];
      while attempts < RandomAttempts
        invariant 0 <= attempts <= RandomAttempts && |tested| == attempts
        invariant 0 <= action < 4
        invariant forall j :: 0 <= j < |tested| ==> 0 <= tested[j] < 4 && !game.legal(s, tested[j])
      {
        tested := tested + [action];
        if game.legal(s, action) {
          return action, tested;
        }
        action :| 0 <= action < 4;
        attempts := attempts + 1;
      }
      return 0, tested;
    }

    /**
     * The playout evaluation: -10 for a dead hero, 100 for a halted game,
     * otherwise the health, treasure, monster and exploration terms.
     */
    method GetReward(s: S) returns (reward: real)
      ensures reward == RolloutReward(game, s)
    {
      if !game.heroAlive(s) {
        return -10.0;
      }
      if game.halted(s) {
        return 100.0;
      }
      reward := 0.0;
      reward := reward + (game.hitpoints(s) as real / 30.0) * 5.0;
      var treasures := CountTreasuresCollected(s);
      reward := reward + treasures as real * 3.0;
      var monstersKilled := CountMonstersKilled(s);
      reward := reward + monstersKilled as real * 2.0;
      reward := reward + 0.5;
    }

    /** The number of collected treasures: the marked cells of the dead-reward grid. */
    method CountTreasuresCollected(s: S) returns (count: nat)
      ensures count == GridCount(game.deadRewards(s)) && count <= CellCount(game.deadRewards(s))
    {
      count := CountMarked(game.deadRewards(s));
    }

    /** The number of killed monsters: the marked cells of the dead-monster grid. */
    method CountMonstersKilled(s: S) returns (count: nat)
      ensures count == GridCount(game.deadMonsters(s)) && count <= CellCount(game.deadMonsters(s))
    {
      count := CountMarked(game.deadMonsters(s));
    }
  }
}
