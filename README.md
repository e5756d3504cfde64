# Dungeon agents: UCT search, tabular Q-learning and its training schedule

This project models in Dafny the decision-making core of a dungeon-crawler
agent framework and proves properties of it. The core has three parts:

- **UCT (Monte Carlo tree search)**: `UCTController` builds a search tree
  from the live game state. It runs 101 iterations of tree policy
  (descend by `BestChild`, expand the first untried legal action), random
  rollout of at most 15 moves, and backpropagation up the parent chain.
  It then plays the root child with the first strictly greatest average
  reward.
- **Tabular Q-learning**: `QLearningController` keeps a table from state
  keys to four action values. It uses:
  - epsilon-greedy choice with random tie-breaking over the maximal actions;
  - the one-step Bellman update with alpha = 0.5 and gamma = 0.9;
  - a row-major grid encoding of the state plus an HP bucket;
  - a per-persona reward table.
- **Training schedule**: `QTraining` runs episodes from a resume point up
  to 150000. Along the way it:
  - decays the exploration rate, starting after 2500 episodes;
  - caps each episode at 200 steps;
  - derives the transition flags from the game before and after each step;
  - writes a checkpoint every 15000 episodes.

The dungeon simulation is not modelled. `Dungeon.Game<S>` is a record of
total functions over an abstract state: legality and effect of a move,
halted / alive / hit points, the dead-reward and dead-monster grids, and
the tile queries.

Modules and files:

- `Dungeon.dfy`:
  - `Wrappers`: the Option type;
  - `Dungeon`: the game interface and grid counting.
- `UctTree.dfy` (`UctTree`): the search tree as an arena of nodes. Index 0
  is the root; a parent of -1 means none. It holds:
  - the tree invariants (`Linked`, `Reached`, `VisitsCover`, `Tree`);
  - the specification functions of expansion, backpropagation, scoring and
    first-strict-maximum selection;
  - the random rollout as a trace predicate;
  - the lemmas about all of these.
- `Uct.dfy` (`Uct`): the class `UctController`. The fields `nodes` and
  `current` play the parts of the Java node objects and `currentNode`,
  with one method per Java method. A search is recorded as a list of trees
  and of `RoundTrace` records, one per round, related by the predicate `Round`.
- `QLearning.dfy` (`QLearning`): rewards, state keys, row maximum and ties,
  the Bellman update, and the class `QLearningController`.
- `QTraining.dfy` (`QTraining`): the epsilon schedule, episode ranges and
  checkpoints, transition flags, the episode loop and `TrainAgent`.

Randomness is modelled two ways:
- In UCT, by nondeterministic choice (`:|`).
- In Q-learning and training, by oracle arguments:
  - `coin` stands for `nextDouble()`, a real in [0, 1) (the type `QLearning.UnitInterval` in training);
  - `draw` stands for the value behind `nextInt(n)`, taken as `draw % n`;
  - training takes oracles indexed by episode and step.

The UCT fault path is modelled as the code behaves. A non-terminal node
with no legal move counts as fully expanded with no children, so
`BestChild` leaves the current node null. The next loop test dereferences
it, the exception is caught, and the agent plays 0. In the model,
`TreePolicy` reports `ok == false`, `RunUct` returns `None` and
`GetNextAction` returns 0. The contracts say when this happens: the selection
descent from the root, which the tree determines, ends at such a stuck node.

## Model

| member | source | states |
|---|---|---|
| `Dungeon.CountMarked` | src/controllers/UCT.java:218-241 | the nested row/cell loops count exactly the marked cells of the grid, and that count is at most the number of cells |
| `Dungeon.GridCountBound` | src/controllers/UCT.java:218-241 | the number of collected or killed cells never exceeds the grid's cell count |
| `UctTree.NewNode` | src/controllers/UCT.java:357-370 | a new node holds the state, no children, no parent, action -1, reward 0 and 0 visits |
| `UctTree.FirstUntriedFrom` | src/controllers/UCT.java:307-320 | the result is -1 or the least index at or above `i` that is legal and that no child took; every smaller index is tried or illegal |
| `UctTree.FullyExpandedIffNoUntried` | src/controllers/UCT.java:151-173 | "4 children or no untried legal action" coincides with "no untried legal action": four children with distinct actions try every action |
| `UctTree.AddChild` | src/controllers/UCT.java:283-300 | expanding appends one node with the given state, parent and action, 0 visits and 0 reward, lists it last among the parent's children, and leaves every other node unchanged |
| `UctTree.ExpandedFrame` | src/controllers/UCT.java:283-300 | expansion adds exactly one unvisited child of the expanded node and keeps the visits and states of all earlier nodes |
| `UctTree.UntriedIsFresh` | src/controllers/UCT.java:283-300 | the action Expand takes is legal, is not yet a child's action, and the node has fewer than 4 children |
| `UctTree.AddChildKeepsLinked` | src/controllers/UCT.java:283-300 | adding a child by an unused action to a node with fewer than 4 children preserves the parent/child link invariant |
| `UctTree.AddChildKeepsReached` | src/controllers/UCT.java:283-300 | the new child's state is the parent's state after the legal move, so every node stays reachable from its parent by its action |
| `UctTree.AddChildKeepsVisits` | src/controllers/UCT.java:283-300 | an unvisited new leaf keeps every node's visits at least the sum of its children's visits |
| `UctTree.ExpandKeepsTree` | src/controllers/UCT.java:283-300 | expansion of a node with an untried legal action preserves the whole tree invariant |
| `UctTree.AncestorsChain` | src/controllers/UCT.java:137-144 | the parent chain of a node contains the node and the root, only indices up to the node, is closed under parent, and has one member per parent |
| `UctTree.AncestorsStep` | src/controllers/UCT.java:137-144 | the chain of the root is the root alone; any other node's chain is the node plus its parent's chain |
| `UctTree.Bumped` | src/controllers/UCT.java:140-141 | one backpropagation step adds 1 to the visits and the reward to the total, and changes nothing else of the node |
| `UctTree.BumpPath` | src/controllers/UCT.java:137-144 | exactly the nodes on the path are bumped, every other node is unchanged |
| `UctTree.BackpropBumpsChain` | src/controllers/UCT.java:137-144 | backpropagation bumps both the root and the starting node and lowers no visit count |
| `UctTree.BumpChainKeepsVisits` | src/controllers/UCT.java:137-144 | bumping a root path keeps visits at least the children's sum, since each node has at most one child on the path |
| `UctTree.BackpropKeepsTree` | src/controllers/UCT.java:137-144 | backpropagation preserves the whole tree invariant |
| `UctTree.ChildVisitsBumped` | src/controllers/UCT.java:137-144 | after bumping a path, the children's visit sum grows by the number of children on the path |
| `UctTree.CountInChain` | src/controllers/UCT.java:137-144 | at most one child of a node lies on a parent chain |
| `UctTree.SearchStart` | src/controllers/UCT.java:63-72 | the fresh root tree satisfies the search invariant with 0 iterations |
| `UctTree.SearchStep` | src/controllers/UCT.java:72-78 | one tree-policy, rollout and backpropagation round takes the invariant from `n` to `n + 1` iterations: the root has `n + 1` visits and every other node at least 1 |
| `UctTree.ScanStep` | src/controllers/UCT.java:254-259 | one comparison of the selection loop keeps "k is the first strict maximum of the scanned prefix" |
| `UctTree.ScanDone` | src/controllers/UCT.java:248-262 | a scan over all children ends at their first strict maximum |
| `UctTree.FirstStrictMaxUnique` | src/controllers/UCT.java:248-262 | the selected child is unbeaten, and it is the only index with the first-strict-maximum property |
| `UctTree.FirstStrictMaxPrefersInfinite` | src/controllers/UCT.java:271-278 | when some child scores +infinity, the first such child is selected |
| `UctTree.UctValue` | src/controllers/UCT.java:271-278 | the UCT score is never -infinity, and it is +infinity exactly for an unvisited node |
| `UctTree.UnvisitedFirst` | src/controllers/UCT.java:271-278 | an unvisited child always outranks a visited one |
| `UctTree.RolloutRewardCases` | src/controllers/UCT.java:190-213 | -10 for a dead hero (checked first), 100 for a halted game, else hp/30*5 + 3 per treasure + 2 per kill + 0.5; the counts are bounded by the grid sizes |
| `Uct.UctController.constructor` | src/controllers/UCT.java:20-43 | a new controller has no tree, no current node and C = 1.4 |
| `UctTree.TerminalState` | src/controllers/UCT.java:180-182 | a state is terminal when the game is halted or the hero is dead |
| `Uct.UctController.GetNextAction` | src/controllers/UCT.java:49-56 | the action is what the recorded search (fresh root, then one `Round` per iteration) chose: after 101 completed rounds, the first root child with the strictly greatest average, or 0 without children; 0 when a round faults, where the catch returns 0 |
| `Uct.Terminate` | src/controllers/UCT.java:327-330 | the budget test `i > 100`, so the search loop runs rounds 0 to 100, 101 in all |
| `Uct.RoundKeepsSearch` | src/controllers/UCT.java:73-78 | a round (selection descent, expansion or terminal leaf, playout of at most 15 moves, backpropagation of its reward along the leaf's parent chain) keeps the tree valid and rooted at the live state and adds exactly one root visit |
| `Uct.RoundsSnoc` | src/controllers/UCT.java:72-78 | one more round extends the recorded search |
| `Uct.RoundsKeepSearch` | src/controllers/UCT.java:67-78 | the k-th tree of a recorded search is valid, rooted at the live state, with k root visits and every other node visited |
| `Uct.UctController.SearchRound` | src/controllers/UCT.java:74-76 | one iteration: the new tree is the old one after one `Round` with the returned witnesses, and the search invariant moves to one more root visit; on a fault the tree is unchanged and the selection descent ends at a stuck node |
| `Uct.UctController.RunUct` | src/controllers/UCT.java:63-96 | the trees start at the fresh root of the live state, each comes from the one before by one `Round`, and the last is the controller's tree. A completed search ran 101 rounds, has 101 root visits and at least 1 per node, and returns the action of the first root child with the strictly greatest average reward, or 0 without children. `None` comes only after at most 100 rounds, when the selection descent in the last tree ends at a stuck node |
| `UctTree.StuckHasNoMove` | src/controllers/UCT.java:105-111 | a stuck node (not terminal, no untried legal action, no children) has no legal action at all, and selection cannot move on from it |
| `UctTree.DescentExtend` | src/controllers/UCT.java:105-111 | one more best-child move extends a selection descent |
| `UctTree.DescentDeterministic` | src/controllers/UCT.java:105-111 | the selection descent is determined by the tree: two descents agree at every depth both reach |
| `Uct.UctController.TreePolicy` | src/controllers/UCT.java:102-113 | the returned path starts at the root and each step moves from a non-terminal, fully expanded node to its first child with the strictly greatest UCT value. At the path's end selection either stops at a terminal node, expands exactly that node (the new leaf becomes current), or faults there with a null current node because the node is stuck; earlier nodes keep their visits and states |
| `Uct.UctController.DefaultPolicy` | src/controllers/UCT.java:119-130 | plays at most 15 random moves from the current state, each from a non-terminal state; stops early only at a terminal state; the reward is the rollout evaluation of the final state |
| `Uct.UctController.Backpropagate` | src/controllers/UCT.java:137-144 | the new tree is the old one with exactly the nodes on the current node's parent chain bumped by 1 visit and the reward |
| `Uct.UctController.FullyExpanded` | src/controllers/UCT.java:151-173 | true exactly when no legal action is untried |
| `Uct.UctController.UntriedAction` | src/controllers/UCT.java:307-320 | the least-index legal action no child took, or -1 |
| `Uct.UctController.Expand` | src/controllers/UCT.java:283-300 | the tree gets the child for the first untried action, with the stepped state, and the new child becomes current |
| `Uct.UctController.BestChild` | src/controllers/UCT.java:248-262 | moves to the child at the first strict maximum of the UCT scores, or to null when there are no children |
| `Uct.UctController.BestRootAction` | src/controllers/UCT.java:83-93 | the action of the root child with the first strict maximum average reward (0 for an unvisited child), or 0 without children |
| `Uct.UctController.RandomAction` | src/controllers/UCT.java:337-349 | up to 10 candidates in 0..3 are tested; the first legal one is returned, or 0 after 10 illegal ones |
| `Uct.UctController.GetReward` | src/controllers/UCT.java:190-213 | the state's rollout evaluation |
| `Uct.UctController.CountTreasuresCollected` | src/controllers/UCT.java:218-227 | the number of collected rewards on the map, at most the number of cells |
| `Uct.UctController.CountMonstersKilled` | src/controllers/UCT.java:232-241 | the number of killed monsters on the map, at most the number of cells |
| `QLearning.Reward` | src/controllers/QLearningController.java:139-169 | every persona's reward lies between -1.01 and 1.5 |
| `QLearning.RewardIsWeightedSum` | src/controllers/QLearningController.java:139-169 | for every persona the reward is the sum of the table weights of the events that happened |
| `QLearning.BaselineOnlyExit` | src/controllers/QLearningController.java:143-145 | the baseline persona gets 0.5 for the exit and nothing for anything else |
| `QLearning.MoveCost` | src/controllers/QLearningController.java:146-166 | every non-baseline persona pays exactly 0.01 for a move |
| `QLearning.MonsterKillerExample` | src/controllers/QLearningController.java:155-160 | a monster killer that moves, kills and exits earns 1.49 |
| `QLearning.AbstractHp` | src/controllers/QLearningController.java:130-136 | the bucket is 0..3: 0 exactly for hp <= 5 (dead included), 1 for 6..14, 2 for 15..30, 3 for 31 and more |
| `QLearning.AbstractHpMonotone` | src/controllers/QLearningController.java:130-136 | more hit points never give a lower bucket |
| `QLearning.AbstractHpExamples` | src/controllers/QLearningController.java:130-136 | 14 and 15 are in different buckets, 10 and 12 in the same one, negative hp in bucket 0 |
| `QLearning.Digit` | src/controllers/QLearningController.java:126 | the appended bucket is the single decimal digit of its value |
| `QLearning.TileSymbol` | src/controllers/QLearningController.java:107-123 | each symbol holds exactly when its query holds and no earlier query in the order wall, hero, monster, reward, potion, exit, entrance does; '.' exactly when none holds |
| `QLearning.GridKeyLength` | src/controllers/QLearningController.java:105-125 | the grid part holds width * height symbols |
| `QLearning.GridKeyAt` | src/controllers/QLearningController.java:105-125 | row-major layout: tile (x, y) is at index y * width + x |
| `QLearning.StateKeyTail` | src/controllers/QLearningController.java:97-128 | the key has width * height + 4 characters and ends with "HP:" and a digit 0..3 |
| `QLearning.StateKeyCell` | src/controllers/QLearningController.java:97-128 | the key's character at y * width + x is the symbol of tile (x, y) |
| `QLearning.StateKeyDetermines` | src/controllers/QLearningController.java:97-128 | two states of the same size with equal keys have the same HP bucket and the same symbol on every tile |
| `QLearning.RowMax` | src/controllers/QLearningController.java:58-64 | the maximum is one of the row's values and is at least every value |
| `QLearning.TiedActions` | src/controllers/QLearningController.java:66-72 | one to four actions, exactly those whose value equals the row's maximum |
| `QLearning.TiedActionsIncreasing` | src/controllers/QLearningController.java:66-72 | the tied actions are collected in increasing index order, each once |
| `QLearning.EveryTieReachable` | src/controllers/QLearningController.java:74-75 | every tied action is chosen by some draw, and distinct draws below the tie count choose distinct actions |
| `QLearning.TiedExample` | src/controllers/QLearningController.java:66-75 | the row [2, 2, 1, 0] ties actions 0 and 1 only |
| `QLearning.MaxOf` | src/controllers/QLearningController.java:59-64 | the max-finding loop returns the row's maximum |
| `QLearning.GreedyAction` | src/controllers/QLearningController.java:58-75 | the collected ties are the tied actions; the result is the one the draw selects and attains the maximum |
| `QLearning.Bellman` | src/controllers/QLearningController.java:92 | with alpha = 0.5 and gamma = 0.9 the new value is the midpoint of Q and the target r + 0.9 * maxNext, so it lies between the two |
| `QLearning.RowOrZeros` | src/controllers/QLearningController.java:80 | the stored row of the state, or zeros when there is none |
| `QLearning.MaxNext` | src/controllers/QLearningController.java:83-90 | the next state's row maximum when the table has it, otherwise 0 |
| `QLearning.UpdateFrame` | src/controllers/QLearningController.java:79-95 | after an update the table has the state; only entry [state][action] changes; the other three values and every other key keep their values, or 0 for an unseen state |
| `QLearning.UpdateExample` | src/controllers/QLearningController.java:92-94 | from 0 with reward 1 and no next row the new value is exactly 0.5 |
| `QLearning.SelfUpdateExample` | src/controllers/QLearningController.java:83-94 | updating a state towards itself reads the best value before the write |
| `QLearning.QLearningController.constructor` | src/controllers/QLearningController.java:29-34 | a new agent for a persona starts with an empty table and epsilon 0 |
| `QLearning.QLearningController.Trained` | src/controllers/QLearningController.java:37-42 | an agent built for loading has the baseline persona and an empty table |
| `QLearning.QLearningController.GetStateRepresentation` | src/controllers/QLearningController.java:97-128 | the nested loops build exactly the state key |
| `QLearning.ChosenAction` | src/controllers/QLearningController.java:45-76 | an action in 0..3: the draw modulo 4 when exploring or for an unseen key, otherwise an action attaining the row's maximum |
| `QLearning.QLearningController.GetNextAction` | src/controllers/QLearningController.java:45-76 | for a coin in [0, 1), as `nextDouble()` gives: an action in 0..3. Exploring (coin below epsilon): a random action and an unchanged table. Unseen key: a zero row under it only, and a random action. Seen key: the selected tied maximum, with the table unchanged |
| `QLearning.QLearningController.UpdateQTable` | src/controllers/QLearningController.java:79-95 | the new table is the old one with the Bellman value written at [state][action], the next state's maximum read before the write |
| `QLearning.QLearningController.SetEpsilon` | src/controllers/QLearningController.java:176 | the exploration rate becomes the given value |
| `QLearning.QLearningController.LoadPolicy` | src/controllers/QLearningController.java:189-196 | a successful read replaces the table; a failed read leaves it as it was |
| `QTraining.Epsilon` | src/experiment/QTraining.java:83-89 | the rate lies in [0.1, 1] and is exactly 1 up to episode 2500 |
| `QTraining.EpsilonNonIncreasing` | src/experiment/QTraining.java:83-89 | the rate never increases with the episode index |
| `QTraining.EpsilonAboveFloor` | src/experiment/QTraining.java:84-87 | within the run the rate is the linear decay itself and stays above 0.1 |
| `QTraining.CheckpointEpisodes` | src/experiment/QTraining.java:126-129 | an episode of the run is checkpointed exactly when it is 15000 * k for some k in 1..9 |
| `QTraining.RangeAt` | src/experiment/QTraining.java:78 | the k-th episode of a run from lo is lo + k |
| `QTraining.RangeOnce` | src/experiment/QTraining.java:78 | every episode from lo to hi - 1 occurs, once, and no other |
| `QTraining.CheckpointsMembers` | src/experiment/QTraining.java:126-129 | a checkpoint is written after exactly the checkpoint episodes of the run |
| `QTraining.CheckpointsIncreasing` | src/experiment/QTraining.java:78-129 | episodes run in increasing order give checkpoints in increasing order |
| `QTraining.RunCheckpoints` | src/experiment/QTraining.java:78-129 | a run from `lo` checkpoints exactly the multiples 15000 * k (k in 1..9) that are at least `lo`, in increasing order |
| `QTraining.StartEpisode` | src/experiment/QTraining.java:72-75 | episode 0 without a checkpoint, else the episode the checkpoint names |
| `QTraining.DeriveFlags` | src/experiment/QTraining.java:103-110 | moved is always true; killed and collected hold exactly when the dead counts grew; exit holds exactly for halted and alive, so it excludes death |
| `QTraining.StepTableIsUpdate` | src/experiment/QTraining.java:98-115 | a training step changes the table by exactly one Q update of the step's state and action; the zero row the choice may add is overwritten |
| `QTraining.StepTableFrame` | src/experiment/QTraining.java:98-115 | a step adds its state key, keeps every other key and the other three values of the row, and moves the chosen value to the Bellman midpoint with the persona's reward for the step's flags |
| `QTraining.WarmupExplores` | src/experiment/QTraining.java:83-89 | up to episode 2500 every coin in [0, 1) falls below the rate, so the agent explores and the choice leaves the table alone |
| `QTraining.TrainingStep` | src/experiment/QTraining.java:98-118 | given the dead counts of the state, one step chooses the action `GetNextAction` picks, applies it, derives the flags from the counts before and after, and leaves the table exactly as one step's choice plus Q update with the persona's reward leaves it; it returns the new counts |
| `QTraining.StepsSnoc` | src/experiment/QTraining.java:97-122 | recording one more step keeps the episode record made of training steps |
| `QTraining.EpisodeStep` | src/experiment/QTraining.java:97-122 | one loop iteration: a training step from the last recorded state, with states, moves and tables extended, and the new dead counts carried over as the previous ones |
| `QTraining.PlayEpisode` | src/experiment/QTraining.java:91-122 | between 1 and 200 steps, each a training step from the previous state and table with the previous step's dead counts; the game does not halt before the last step, and an episode shorter than 200 steps ends in a halted game; the records start at the old table and end at the new one |
| `QTraining.RunEpisode` | src/experiment/QTraining.java:83-122 | the episode runs with the rate of its index, and is an episode as `PlayEpisode` states |
| `QTraining.PlayedRunSnoc` | src/experiment/QTraining.java:78-122 | one more played episode extends the record of a run |
| `QTraining.TrainEpisode` | src/experiment/QTraining.java:78-129 | episode `i` is played from `start` with the rate of its index and takes the table from its old to its new value; the records of episodes, checkpoints and tables are extended by `i`, by `i` when it is a checkpoint episode, and by the new table |
| `QTraining.TrainAgent` | src/experiment/QTraining.java:59-141 | a fresh agent of the persona runs exactly the episodes from the start episode to 149999, in order, starting from the empty table; episode k of the run is played from `start` with the rate of its index and takes the table after the previous episode to the next one, and the agent ends with the last table; checkpoints follow exactly the checkpoint episodes; the final rate is that of episode 149999 |

## Left out

- The dungeon simulation (maps, movement, combat, cloning) is not modelled. It is the abstract `Dungeon.Game`: `step` stands for clone-and-update in UCT and for the in-place update of the live map in training.
- Java's `Random`: distributions are not modelled. In UCT a random action is any value in 0..3 (`:|`). In Q-learning `nextInt(n)` is `draw % n` for an arbitrary oracle `draw`. "Uniform among ties" becomes "every tie is selectable and only ties are".
- Floating point: `float` (UCT) and `double` (Q-learning, schedule) are exact reals, so rounding, NaN and ±infinity values are not modelled. The float constant C = 1.4 is the real 1.4.
- `UctTree.UctValue`: the exploration term `c * sqrt(ln(parent visits) / visits)` is an uninterpreted function passed to the controller, because `Math.sqrt` and `Math.log` have no real counterpart here. The contract states only the +infinity rule for unvisited nodes and the ordering that follows from it.
- `QLearning.MaxOf`: the loop starts from the row's first value instead of `-Double.MAX_VALUE`. For every row of finite doubles the result is the same, the row's maximum.
- Row arrays are values. Java's in-place write into the `double[]` stored in the table, and any sharing of one array between keys, are not modelled.
- `QLearning.QLearningController.LoadPolicy`: the deserialisation is a parameter (`None` for a failed read). A loaded row is assumed to hold four values, and console output is not modelled.
- `savePolicy`, `saveCheckpoint`, `loadCheckpoint`, the map-file reading and folder creation in training, and all console output are I/O and are not modelled. `saveCheckpoint` and `loadCheckpoint` are not part of this model: their bodies are not in the source, so a checkpoint is an `Option<int>`, the episode it names. The cleanup after training (checkpoint deletion) is also I/O.
- QTraining.TrainAgent: resuming from a checkpoint starts from the empty table, because the table `loadCheckpoint` restores is not part of this model (its body is not in the source); only the start episode is taken from the checkpoint.
- `trainAllMapsAndPersonas`: the map loop (maps 0 to 10) only reads files and calls `trainAgent` once per map. `TrainAgent` models one such call.
- `updateHero`: it re-points the agent at the new hero after `startGame`. In the model the hero is part of the game state `S`, so there is nothing to update.
- `src/experiment/ComparisonTest.java` (metrics and report writing) and `DebugMode` (a console loop over controllers whose code is not shown) are not part of this model.
- The `Controller` base class (labels, map and character fields) is not part of this model. The UCT root is built from the `live` state argument instead of a map field.
- The Java exception (`NullPointerException`) on the fault path is modelled by its effect only. `RunUct` returns `None`, and `GetNextAction` maps that to 0.
