/**
 * The search tree of the UCT agent, as an arena: a sequence of nodes whose
 * links are indices. Index 0 is the root; a parent index of -1 stands for the
 * null parent of the root. This module holds the node type, the tree
 * invariant, the specification functions of the tree operations and the
 * lemmas that the operations keep the invariant.
 */
module UctTree {
  import opened Dungeon

  /** One search-tree node: its state, parent link, producing action, child links and statistics. */
  datatype Node<S> = Node(
    state: S,
    parent: int,
    parentAction: int,
    children: seq<int>,
    reward: real,
    timesVisited: nat)

  /** A freshly created node: no parent, action -1, no children, zero reward and visits. */
  function NewNode<S>(s: S): (n: Node<S>)
    ensures n.state == s && n.children == [] && n.timesVisited == 0
    ensures n.parent == -1 && n.parentAction == -1 && n.reward == 0.0
  {
    Node(s, -1, -1, [], 0.0, 0)
  }

  /** A game state ends the search when the game is halted or the hero is dead. */
  predicate TerminalState<S>(g: Game<S>, s: S): (r: bool)
    ensures !r <==> !g.halted(s) && g.heroAlive(s)
  {
    g.halted(s) || !g.heroAlive(s)
  }

  // ---------------------------------------------------------------------------
  // The tree invariant

  /**
   * The links of node `i`: the root has no parent and action -1; any other
   * node has a parent of smaller index, an action in 0..3, and is listed
   * among its parent's children; every child link points to a later node
   * whose parent is `i`; there are at most 4 children, with pairwise
   * distinct actions.
   */
  ghost predicate LinkedAt<S>(ns: seq<Node<S>>, i: int)
    requires 0 <= i < |ns|
  {
    && (i == 0 ==> ns[i].parent == -1 && ns[i].parentAction == -1)
    && (i > 0 ==> 0 <= ns[i].parent < i && 0 <= ns[i].parentAction < 4 && i in ns[ns[i].parent].children)
    && |ns[i].children| <= 4
    && (forall k :: 0 <= k < |ns[i].children| ==> i < ns[i].children[k] < |ns| && ns[ns[i].children[k]].parent == i)
    && (forall k, l :: 0 <= k < l < |ns[i].children| ==>
          ns[ns[i].children[k]].parentAction != ns[ns[i].children[l]].parentAction)
  }

  /** Link structure: a root at index 0, and every node linked as `LinkedAt` says. */
  ghost predicate Linked<S>(ns: seq<Node<S>>)
  {
    |ns| >= 1 && forall i :: 0 <= i < |ns| ==> LinkedAt(ns, i)
  }

  /** The links of node `i`, with its children's actions in 0..3. */
  lemma ChildrenInRange<S>(ns: seq<Node<S>>, i: int)
    requires Linked(ns) && 0 <= i < |ns|
    ensures LinkedAt(ns, i)
    ensures forall k :: 0 <= k < |ns[i].children| ==>
      i < ns[i].children[k] < |ns| && ns[ns[i].children[k]].parent == i && 0 <= ns[ns[i].children[k]].parentAction < 4
  {
    assert LinkedAt(ns, i);
    forall k | 0 <= k < |ns[i].children|
      ensures 0 <= ns[ns[i].children[k]].parentAction < 4
    {
      assert LinkedAt(ns, ns[i].children[k]);
    }
  }

  /** Sum of the visit counts of the nodes listed in `cs`. */
  function ChildVisits<S>(ns: seq<Node<S>>, cs: seq<int>): nat
    requires forall k :: 0 <= k < |cs| ==> 0 <= cs[k] < |ns|
  {
    if cs == [] then 0 else ChildVisits(ns, cs[..|cs| - 1]) + ns[cs[|cs| - 1]].timesVisited
  }

  /** Node `i` has been visited at least as often as all its children together. */
  ghost predicate CoversChildren<S>(ns: seq<Node<S>>, i: int)
    requires Linked(ns) && 0 <= i < |ns|
  {
    assert LinkedAt(ns, i);
    ns[i].timesVisited >= ChildVisits(ns, ns[i].children)
  }

  /** Every node has been visited at least as often as all its children together. */
  ghost predicate VisitsCover<S>(ns: seq<Node<S>>)
    requires Linked(ns)
  {
    forall i :: 0 <= i < |ns| ==> CoversChildren(ns, i)
  }

  /** Non-root node `i` was reached by a move legal in its parent's state, and holds that state updated by the move. */
  ghost predicate ReachedAt<S>(g: Game<S>, ns: seq<Node<S>>, i: int)
    requires 0 < i < |ns|
  {
    0 <= ns[i].parent < |ns| ==>
      g.legal(ns[ns[i].parent].state, ns[i].parentAction) &&
      ns[i].state == g.step(ns[ns[i].parent].state, ns[i].parentAction)
  }

  /** Every non-root node was reached by a legal move from its parent's state. */
  ghost predicate Reached<S>(g: Game<S>, ns: seq<Node<S>>)
  {
    forall i :: 0 < i < |ns| ==> ReachedAt(g, ns, i)
  }

  /** The whole tree invariant: the links, how each child was reached, and the visit bookkeeping. */
  ghost predicate Tree<S>(g: Game<S>, ns: seq<Node<S>>)
  {
    Linked(ns) && Reached(g, ns) && VisitsCover(ns)
  }

  // ---------------------------------------------------------------------------
  // Untried actions and full expansion

  /** Some child of `n` was produced by action `i`. */
  ghost predicate Tried<S>(ns: seq<Node<S>>, n: int, i: int)
    requires Linked(ns) && 0 <= n < |ns|
  {
    assert LinkedAt(ns, n);
    exists k :: 0 <= k < |ns[n].children| && ns[ns[n].children[k]].parentAction == i
  }

  /** The smallest action in i..3 that no child of `n` used and that is legal in `n`'s state, or -1. */
  ghost function FirstUntriedFrom<S>(g: Game<S>, ns: seq<Node<S>>, n: int, i: nat): (r: int)
    requires Linked(ns) && 0 <= n < |ns| && i <= 4
    ensures r == -1 || (i <= r < 4 && !Tried(ns, n, r) && g.legal(ns[n].state, r))
    ensures forall j :: i <= j < 4 && (r == -1 || j < r) ==> Tried(ns, n, j) || !g.legal(ns[n].state, j)
    decreases 4 - i
  {
    if i == 4 then -1
    else if !Tried(ns, n, i) && g.legal(ns[n].state, i) then i
    else FirstUntriedFrom(g, ns, n, i + 1)
  }

  /** The untried action of node `n`: the smallest legal action in 0..3 that no child used, or -1. */
  ghost function FirstUntried<S>(g: Game<S>, ns: seq<Node<S>>, n: int): int
    requires Linked(ns) && 0 <= n < |ns|
  {
    FirstUntriedFrom(g, ns, n, 0)
  }

  /** Four children with distinct actions in 0..3 have used every action. */
  lemma FourChildrenTryAll<S>(ns: seq<Node<S>>, n: int)
    requires Linked(ns) && 0 <= n < |ns| && |ns[n].children| >= 4
    ensures forall i :: 0 <= i < 4 ==> Tried(ns, n, i)
  {
    var cs := ns[n].children;
    ChildrenInRange(ns, n);
    assert |cs| == 4;
    var a0, a1, a2, a3 := ns[cs[0]].parentAction, ns[cs[1]].parentAction, ns[cs[2]].parentAction, ns[cs[3]].parentAction;
    assert 0 < cs[0] && 0 < cs[1] && 0 < cs[2] && 0 < cs[3];
    assert 0 <= a0 < 4 && 0 <= a1 < 4 && 0 <= a2 < 4 && 0 <= a3 < 4;
    assert a0 != a1 && a0 != a2 && a0 != a3 && a1 != a2 && a1 != a3 && a2 != a3;
    forall i | 0 <= i < 4
      ensures Tried(ns, n, i)
    {
      if a0 == i {
        assert ns[cs[0]].parentAction == i;
      } else if a1 == i {
        assert ns[cs[1]].parentAction == i;
      } else if a2 == i {
        assert ns[cs[2]].parentAction == i;
      } else {
        assert ns[cs[3]].parentAction == i;
      }
    }
  }

  /**
   * Full expansion as the agent tests it (4 children, or no untried legal
   * action) holds exactly when the untried-action scan finds nothing.
   */
  lemma {:induction false} FullyExpandedIffNoUntried<S>(g: Game<S>, ns: seq<Node<S>>, n: int)
    requires Linked(ns) && 0 <= n < |ns|
    ensures (|ns[n].children| >= 4 || FirstUntried(g, ns, n) < 0) <==> FirstUntried(g, ns, n) < 0
  {
    if |ns[n].children| >= 4 {
      FourChildrenTryAll(ns, n);
    }
  }

  /** The actions that produced the children of `n`, in child order. */
  ghost function ChildActions<S>(ns: seq<Node<S>>, n: int): (acts: seq<int>)
    requires 0 <= n < |ns| && LinkedAt(ns, n)
    ensures |acts| == |ns[n].children|
    ensures forall k :: 0 <= k < |acts| ==> acts[k] == ns[ns[n].children[k]].parentAction
  {
    assert LinkedAt(ns, n);
    seq(|ns[n].children|, k requires 0 <= k < |ns[n].children| => ns[ns[n].children[k]].parentAction)
  }

  /** An action was tried exactly when it is among the children's actions. */
  lemma TriedIffListed<S>(ns: seq<Node<S>>, n: int, i: int)
    requires Linked(ns) && 0 <= n < |ns|
    ensures Tried(ns, n, i) <==> i in ChildActions(ns, n)
  {
    var acts := ChildActions(ns, n);
    ChildrenInRange(ns, n);
    if i in acts {
      var k :| 0 <= k < |acts| && acts[k] == i;
      assert ns[ns[n].children[k]].parentAction == i;
    }
  }

  /**
   * The untried-action specification is pinned down by the two outcomes of
   * a scan over the children's actions: `r` is unlisted and legal, and every
   * smaller action (every action, for -1) is listed or illegal.
   */
  lemma FirstUntriedByScan<S>(g: Game<S>, ns: seq<Node<S>>, n: int, r: int)
    requires Linked(ns) && 0 <= n < |ns| && -1 <= r < 4
    requires r >= 0 ==> r !in ChildActions(ns, n) && g.legal(ns[n].state, r)
    requires forall j :: 0 <= j < 4 && (r < 0 || j < r) ==> j in ChildActions(ns, n) || !g.legal(ns[n].state, j)
    ensures FirstUntried(g, ns, n) == r
  {
    forall j | 0 <= j < 4 {
      TriedIffListed(ns, n, j);
    }
  }

  // ---------------------------------------------------------------------------
  // Expansion

  /** The arena after appending a child with state `s` reached from `p` by action `a`. */
  function AddChild<S>(ns: seq<Node<S>>, p: int, a: int, s: S): (ns': seq<Node<S>>)
    requires 0 <= p < |ns|
    ensures |ns'| == |ns| + 1
    ensures ns'[|ns|] == Node(s, p, a, [], 0.0, 0)
    ensures ns'[p].children == ns[p].children + [|ns|]
    ensures forall j :: 0 <= j < |ns| && j != p ==> ns'[j] == ns[j]
    ensures ns'[p] == ns[p].(children := ns[p].children + [|ns|])
  {
    ns[p := ns[p].(children := ns[p].children + [|ns|])] + [Node(s, p, a, [], 0.0, 0)]
  }

  /** The arena after expanding node `p`: the first untried legal action, applied to a clone. */
  ghost function Expanded<S>(g: Game<S>, ns: seq<Node<S>>, p: int): seq<Node<S>>
    requires Linked(ns) && 0 <= p < |ns|
  {
    var a := FirstUntried(g, ns, p);
    AddChild(ns, p, a, g.step(ns[p].state, a))
  }

  /** Expansion appends one unvisited node and leaves the states and visit counts of the old nodes alone. */
  lemma ExpandedFrame<S>(g: Game<S>, ns: seq<Node<S>>, p: int)
    requires Linked(ns) && 0 <= p < |ns|
    ensures |Expanded(g, ns, p)| == |ns| + 1
    ensures Expanded(g, ns, p)[|ns|].timesVisited == 0 && Expanded(g, ns, p)[|ns|].parent == p
    ensures forall j :: 0 <= j < |ns| ==>
      Expanded(g, ns, p)[j].timesVisited == ns[j].timesVisited && Expanded(g, ns, p)[j].state == ns[j].state
  {
  }

  /** Visit sums over links that all point below `|ns|` are the same in any arena that extends `ns` with the same visits. */
  lemma {:induction false} ChildVisitsFrame<S>(ns: seq<Node<S>>, ns': seq<Node<S>>, cs: seq<int>)
    requires |ns| <= |ns'|
    requires forall k :: 0 <= k < |cs| ==> 0 <= cs[k] < |ns|
    requires forall j :: 0 <= j < |ns| ==> ns'[j].timesVisited == ns[j].timesVisited
    ensures ChildVisits(ns', cs) == ChildVisits(ns, cs)
  {
    if cs != [] {
      ChildVisitsFrame(ns, ns', cs[..|cs| - 1]);
    }
  }

  /** Appending a child keeps the parent, the action and, except at `p`, the child links of every old node. */
  lemma AddChildFrame<S>(ns: seq<Node<S>>, p: int, a: int, s: S)
    requires 0 <= p < |ns|
    ensures var ns' := AddChild(ns, p, a, s);
      forall j :: 0 <= j < |ns| ==>
        && ns'[j].parent == ns[j].parent && ns'[j].parentAction == ns[j].parentAction
        && ns'[j].state == ns[j].state && ns'[j].timesVisited == ns[j].timesVisited
        && (j != p ==> ns'[j].children == ns[j].children)
  {
  }

  /**
   * Appending a child by an action no sibling used, to a node with fewer
   * than 4 children, keeps the links of node `i`.
   */
  lemma AddChildLinkedAt<S>(ns: seq<Node<S>>, p: int, a: int, s: S, i: int)
    requires Linked(ns) && 0 <= p < |ns| && |ns[p].children| < 4 && 0 <= a < 4
    requires a !in ChildActions(ns, p)
    requires 0 <= i <= |ns|
    ensures LinkedAt(AddChild(ns, p, a, s), i)
  {
    var ns' := AddChild(ns, p, a, s);
    var n := |ns|;
    AddChildFrame(ns, p, a, s);
    if i < n {
      ChildrenInRange(ns, i);
      if i > 0 {
        var q := ns[i].parent;
        assert i in ns'[q].children by {
          assert forall c :: c in ns[q].children ==> c in ns'[q].children;
        }
      }
      var cs := ns[i].children;
      if i == p {
        assert ns'[i].children == cs + [n];
        forall k, l | 0 <= k < l < |ns'[i].children|
          ensures ns'[ns'[i].children[k]].parentAction != ns'[ns'[i].children[l]].parentAction
        {
          assert ns'[i].children[k] == cs[k];
          if l < |cs| {
            assert ns'[i].children[l] == cs[l];
          }
        }
      }
    }
  }

  /** Appending a child by an action no sibling used, to a node with fewer than 4 children, keeps the links. */
  lemma AddChildKeepsLinked<S>(ns: seq<Node<S>>, p: int, a: int, s: S)
    requires Linked(ns) && 0 <= p < |ns| && |ns[p].children| < 4 && 0 <= a < 4
    requires a !in ChildActions(ns, p)
    ensures Linked(AddChild(ns, p, a, s))
  {
    var ns' := AddChild(ns, p, a, s);
    forall i | 0 <= i < |ns'|
      ensures LinkedAt(ns', i)
    {
      AddChildLinkedAt(ns, p, a, s, i);
    }
  }

  /** After appending an unvisited leaf, node `i` still covers its children's visits. */
  lemma AddChildVisitsAt<S>(ns: seq<Node<S>>, p: int, a: int, s: S, i: int)
    requires Linked(ns) && VisitsCover(ns) && 0 <= p < |ns| && 0 <= i < |ns|
    ensures var ns' := AddChild(ns, p, a, s);
      (forall k :: 0 <= k < |ns'[i].children| ==> 0 <= ns'[i].children[k] < |ns'|) &&
      ns'[i].timesVisited >= ChildVisits(ns', ns'[i].children)
  {
    var ns' := AddChild(ns, p, a, s);
    var cs := ns[i].children;
    ChildrenInRange(ns, i);
    assert CoversChildren(ns, i);
    assert forall j :: 0 <= j < |ns| ==> ns'[j].timesVisited == ns[j].timesVisited;
    ChildVisitsFrame(ns, ns', cs);
    if i == p {
      assert ns'[p].children[..|cs|] == cs;
    }
  }

  /** Appending an unvisited leaf keeps the visit bookkeeping. */
  lemma AddChildKeepsVisits<S>(ns: seq<Node<S>>, p: int, a: int, s: S)
    requires Linked(ns) && VisitsCover(ns) && 0 <= p < |ns|
    requires Linked(AddChild(ns, p, a, s))
    ensures VisitsCover(AddChild(ns, p, a, s))
  {
    var ns' := AddChild(ns, p, a, s);
    forall i | 0 <= i < |ns'|
      ensures CoversChildren(ns', i)
    {
      if i < |ns| {
        AddChildVisitsAt(ns, p, a, s, i);
      }
    }
  }

  /** The untried action differs from the action of every existing child. */
  lemma UntriedIsFresh<S>(g: Game<S>, ns: seq<Node<S>>, p: int)
    requires Linked(ns) && 0 <= p < |ns|
    requires FirstUntried(g, ns, p) >= 0
    ensures 0 <= FirstUntried(g, ns, p) < 4 && g.legal(ns[p].state, FirstUntried(g, ns, p))
    ensures |ns[p].children| < 4
    ensures FirstUntried(g, ns, p) !in ChildActions(ns, p)
  {
    var a := FirstUntried(g, ns, p);
    FullyExpandedIffNoUntried(g, ns, p);
    assert !Tried(ns, p, a);
  }

  /** A child made by a legal move applied to its parent's state keeps every node properly reached. */
  lemma AddChildKeepsReached<S>(g: Game<S>, ns: seq<Node<S>>, p: int, a: int)
    requires Linked(ns) && Reached(g, ns) && 0 <= p < |ns| && g.legal(ns[p].state, a)
    ensures Reached(g, AddChild(ns, p, a, g.step(ns[p].state, a)))
  {
    var ns' := AddChild(ns, p, a, g.step(ns[p].state, a));
    forall i | 0 < i < |ns'|
      ensures ReachedAt(g, ns', i)
    {
      if i < |ns| {
        assert LinkedAt(ns, i);
        assert ReachedAt(g, ns, i);
        assert ns'[i].parent == ns[i].parent && ns'[i].parentAction == ns[i].parentAction && ns'[i].state == ns[i].state;
        assert ns'[ns[i].parent].state == ns[ns[i].parent].state;
      }
    }
  }

  /** Expanding a node that is not fully expanded keeps the whole tree invariant. */
  lemma ExpandKeepsTree<S>(g: Game<S>, ns: seq<Node<S>>, p: int)
    requires Tree(g, ns) && 0 <= p < |ns|
    requires FirstUntried(g, ns, p) >= 0
    ensures Tree(g, Expanded(g, ns, p))
  {
    var a := FirstUntried(g, ns, p);
    var s := g.step(ns[p].state, a);
    UntriedIsFresh(g, ns, p);
    AddChildKeepsLinked(ns, p, a, s);
    AddChildKeepsVisits(ns, p, a, s);
    AddChildKeepsReached(g, ns, p, a);
  }

  // ---------------------------------------------------------------------------
  // Backpropagation

  /** The nodes on the parent chain from `i` up to the root, both included. */
  ghost function Ancestors<S>(ns: seq<Node<S>>, i: int): set<int>
    requires Linked(ns) && 0 <= i < |ns|
    decreases i
  {
    if i == 0 then {0}
    else
      assert LinkedAt(ns, i);
      {i} + Ancestors(ns, ns[i].parent)
  }

  /** One step up the chain: the ancestors of `i` are `i` and the ancestors of its parent (none above the root). */
  lemma AncestorsStep<S>(ns: seq<Node<S>>, i: int)
    requires Linked(ns) && 0 <= i < |ns|
    ensures i == 0 ==> Ancestors(ns, i) == {0} && ns[i].parent == -1
    ensures i > 0 ==> 0 <= ns[i].parent < i && Ancestors(ns, i) == {i} + Ancestors(ns, ns[i].parent)
  {
    assert LinkedAt(ns, i);
  }

  /**
   * The chain from `i` to the root: it contains `i` and the root, lies in
   * 0..i, is closed under taking parents, and no two of its nodes share a
   * parent.
   */
  lemma {:induction false} AncestorsChain<S>(ns: seq<Node<S>>, i: int)
    requires Linked(ns) && 0 <= i < |ns|
    ensures i in Ancestors(ns, i) && 0 in Ancestors(ns, i)
    ensures forall j :: j in Ancestors(ns, i) ==> 0 <= j <= i
    ensures forall j :: j in Ancestors(ns, i) && j != 0 ==> ns[j].parent in Ancestors(ns, i)
    ensures forall j, j' :: j in Ancestors(ns, i) && j' in Ancestors(ns, i) && j != j' ==> ns[j].parent != ns[j'].parent
    decreases i
  {
    if i != 0 {
      assert LinkedAt(ns, i);
      var q := ns[i].parent;
      AncestorsChain(ns, q);
      forall j | j in Ancestors(ns, q) && j != 0
        ensures ns[j].parent < j
      {
        assert LinkedAt(ns, j);
      }
      assert LinkedAt(ns, 0);
    }
  }

  /** A node with its visit count raised by one and `r` added to its reward. */
  function Bumped<S>(n: Node<S>, r: real): (n': Node<S>)
    ensures n'.timesVisited == n.timesVisited + 1 && n'.reward == n.reward + r
    ensures n'.state == n.state && n'.parent == n.parent && n'.parentAction == n.parentAction && n'.children == n.children
  {
    n.(timesVisited := n.timesVisited + 1, reward := n.reward + r)
  }

  /** The arena with exactly the nodes of `path` bumped. */
  ghost function BumpPath<S>(ns: seq<Node<S>>, path: set<int>, r: real): (ns': seq<Node<S>>)
    ensures |ns'| == |ns|
    ensures forall j :: 0 <= j < |ns| ==> ns'[j] == if j in path then Bumped(ns[j], r) else ns[j]
  {
    seq(|ns|, j requires 0 <= j < |ns| => if j in path then Bumped(ns[j], r) else ns[j])
  }

  /** Bumping one more node, not yet on the path, is a point update. */
  lemma BumpPathAdd<S>(ns: seq<Node<S>>, path: set<int>, x: int, r: real)
    requires 0 <= x < |ns| && x !in path
    ensures BumpPath(ns, path + {x}, r) == BumpPath(ns, path, r)[x := Bumped(ns[x], r)]
  {
  }

  /**
   * Backpropagation from `cur` bumps the root and `cur` itself, never lowers
   * a visit count and leaves every state alone.
   */
  lemma BackpropBumpsChain<S>(ns: seq<Node<S>>, cur: int, r: real)
    requires Linked(ns) && 0 <= cur < |ns|
    ensures var ns' := BumpPath(ns, Ancestors(ns, cur), r);
      && ns'[0] == Bumped(ns[0], r)
      && ns'[cur] == Bumped(ns[cur], r)
      && forall j :: 0 <= j < |ns| ==> ns'[j].timesVisited >= ns[j].timesVisited && ns'[j].state == ns[j].state
  {
    AncestorsChain(ns, cur);
  }

  /**
   * What holds between the iterations of a search from the live state
   * `live`: the tree invariant, the root holds `live` and has been visited
   * once per finished iteration, and every other node has been visited.
   */
  ghost predicate SearchInvariant<S>(g: Game<S>, ns: seq<Node<S>>, live: S, iterations: int)
  {
    && Tree(g, ns)
    && ns[0].state == live
    && ns[0].timesVisited == iterations
    && forall i :: 0 < i < |ns| ==> ns[i].timesVisited >= 1
  }

  /** A fresh tree holding only the root satisfies the invariant with no iteration done. */
  lemma SearchStart<S>(g: Game<S>, live: S)
    ensures SearchInvariant(g, [NewNode(live)], live, 0)
  {
    var ns := [NewNode(live)];
    assert LinkedAt(ns, 0);
    assert CoversChildren(ns, 0);
  }

  /**
   * One search iteration keeps the invariant: selection leaves the old
   * nodes' states and visits alone and may append only the leaf, and
   * backpropagation from the leaf then adds one visit to the root.
   */
  lemma SearchStep<S>(g: Game<S>, before: seq<Node<S>>, mid: seq<Node<S>>, leaf: int, r: real, live: S, iterations: int)
    requires SearchInvariant(g, before, live, iterations)
    requires Tree(g, mid) && 0 <= leaf < |mid|
    requires |before| <= |mid| <= |before| + 1
    requires |mid| == |before| + 1 ==> leaf == |before|
    requires forall j :: 0 <= j < |before| ==>
      mid[j].timesVisited == before[j].timesVisited && mid[j].state == before[j].state
    ensures SearchInvariant(g, BumpPath(mid, Ancestors(mid, leaf), r), live, iterations + 1)
  {
    BackpropBumpsChain(mid, leaf, r);
    BackpropKeepsTree(g, mid, leaf, r);
    var after := BumpPath(mid, Ancestors(mid, leaf), r);
    forall i | 0 < i < |after|
      ensures after[i].timesVisited >= 1
    {
      if i < |before| {
        assert mid[i].timesVisited == before[i].timesVisited;
      } else {
        assert i == leaf;
      }
    }
  }

  /** How many of the links in `cs` point to a node of `path`. */
  ghost function CountIn(cs: seq<int>, path: set<int>): nat
  {
    if cs == [] then 0 else CountIn(cs[..|cs| - 1], path) + (if cs[|cs| - 1] in path then 1 else 0)
  }

  /** After bumping `path`, a visit sum grows by the number of its links into `path`. */
  lemma {:induction false} ChildVisitsBumped<S>(ns: seq<Node<S>>, path: set<int>, r: real, cs: seq<int>)
    requires forall k :: 0 <= k < |cs| ==> 0 <= cs[k] < |ns|
    ensures ChildVisits(BumpPath(ns, path, r), cs) == ChildVisits(ns, cs) + CountIn(cs, path)
  {
    if cs != [] {
      ChildVisitsBumped(ns, path, r, cs[..|cs| - 1]);
    }
  }

  lemma {:induction false} CountInNone(cs: seq<int>, path: set<int>)
    requires forall k :: 0 <= k < |cs| ==> cs[k] !in path
    ensures CountIn(cs, path) == 0
  {
    if cs != [] {
      CountInNone(cs[..|cs| - 1], path);
    }
  }

  /** Distinct links that share one parent meet a chain at most once. */
  lemma {:induction false} CountInChain<S>(ns: seq<Node<S>>, cs: seq<int>, a: int, path: set<int>)
    requires forall k :: 0 <= k < |cs| ==> 0 <= cs[k] < |ns| && ns[cs[k]].parent == a
    requires forall k, l :: 0 <= k < l < |cs| ==> cs[k] != cs[l]
    requires forall j, j' :: j in path && j' in path && 0 <= j < |ns| && 0 <= j' < |ns| && j != j' ==> ns[j].parent != ns[j'].parent
    ensures CountIn(cs, path) <= 1
  {
    if cs != [] {
      var init := cs[..|cs| - 1];
      var last := cs[|cs| - 1];
      if last in path {
        forall k | 0 <= k < |init|
          ensures init[k] !in path
        {
          assert init[k] == cs[k] && cs[k] != last;
        }
        CountInNone(init, path);
      } else {
        CountInChain(ns, init, a, path);
      }
    }
  }

  /** Two nodes with the same parent link, producing action and child links. */
  predicate SameLinks<S>(n: Node<S>, n': Node<S>)
  {
    n.parent == n'.parent && n.parentAction == n'.parentAction && n.children == n'.children
  }

  /** The links of node `i` depend on the links only. */
  lemma SameLinksLinkedAt<S>(ns: seq<Node<S>>, ns': seq<Node<S>>, i: int)
    requires Linked(ns) && |ns'| == |ns| && 0 <= i < |ns|
    requires forall j :: 0 <= j < |ns| ==> SameLinks(ns[j], ns'[j])
    ensures LinkedAt(ns', i)
  {
    ChildrenInRange(ns, i);
    assert SameLinks(ns[i], ns'[i]);
    if i > 0 {
      assert SameLinks(ns[ns[i].parent], ns'[ns[i].parent]);
    }
    var cs := ns[i].children;
    forall k | 0 <= k < |cs|
      ensures ns'[cs[k]].parent == i && ns'[cs[k]].parentAction == ns[cs[k]].parentAction
    {
      assert SameLinks(ns[cs[k]], ns'[cs[k]]);
    }
  }

  /** The link structure depends on the links only. */
  lemma SameLinksKeepLinked<S>(ns: seq<Node<S>>, ns': seq<Node<S>>)
    requires Linked(ns) && |ns'| == |ns|
    requires forall j :: 0 <= j < |ns| ==> SameLinks(ns[j], ns'[j])
    ensures Linked(ns')
  {
    forall i | 0 <= i < |ns'|
      ensures LinkedAt(ns', i)
    {
      SameLinksLinkedAt(ns, ns', i);
    }
  }

  /** Bumping visits and rewards leaves the links alone. */
  lemma BumpPathKeepsLinked<S>(ns: seq<Node<S>>, path: set<int>, r: real)
    requires Linked(ns)
    ensures Linked(BumpPath(ns, path, r))
  {
    var ns' := BumpPath(ns, path, r);
    forall j | 0 <= j < |ns|
      ensures SameLinks(ns[j], ns'[j])
    {
    }
    SameLinksKeepLinked(ns, ns');
  }

  /** Bumping the chain from `cur` to the root keeps the visit bookkeeping. */
  lemma BumpChainKeepsVisits<S>(ns: seq<Node<S>>, cur: int, r: real)
    requires Linked(ns) && VisitsCover(ns) && 0 <= cur < |ns|
    ensures Linked(BumpPath(ns, Ancestors(ns, cur), r))
    ensures VisitsCover(BumpPath(ns, Ancestors(ns, cur), r))
  {
    var path := Ancestors(ns, cur);
    var ns' := BumpPath(ns, path, r);
    BumpPathKeepsLinked(ns, path, r);
    AncestorsChain(ns, cur);
    forall i | 0 <= i < |ns'|
      ensures CoversChildren(ns', i)
    {
      var cs := ns[i].children;
      assert CoversChildren(ns, i);
      ChildrenInRange(ns, i);
      ChildVisitsBumped(ns, path, r, cs);
      if i in path {
        forall k, l | 0 <= k < l < |cs|
          ensures cs[k] != cs[l]
        {
          assert ns[cs[k]].parentAction != ns[cs[l]].parentAction;
        }
        CountInChain(ns, cs, i, path);
      } else {
        forall k | 0 <= k < |cs|
          ensures cs[k] !in path
        {
          assert ns[cs[k]].parent == i && cs[k] != 0;
        }
        CountInNone(cs, path);
      }
    }
  }

  /** Bumping visits and rewards keeps every node properly reached. */
  lemma BumpPathKeepsReached<S>(g: Game<S>, ns: seq<Node<S>>, path: set<int>, r: real)
    requires Reached(g, ns)
    ensures Reached(g, BumpPath(ns, path, r))
  {
    var ns' := BumpPath(ns, path, r);
    forall i | 0 < i < |ns'|
      ensures ReachedAt(g, ns', i)
    {
      assert ReachedAt(g, ns, i);
      assert ns'[i].state == ns[i].state && ns'[i].parent == ns[i].parent && ns'[i].parentAction == ns[i].parentAction;
      if 0 <= ns[i].parent < |ns| {
        assert ns'[ns[i].parent].state == ns[ns[i].parent].state;
      }
    }
  }

  /** Backpropagating from any node keeps the whole tree invariant, the visit bookkeeping included. */
  lemma BackpropKeepsTree<S>(g: Game<S>, ns: seq<Node<S>>, cur: int, r: real)
    requires Tree(g, ns) && 0 <= cur < |ns|
    ensures Tree(g, BumpPath(ns, Ancestors(ns, cur), r))
  {
    BumpChainKeepsVisits(ns, cur, r);
    BumpPathKeepsReached(g, ns, Ancestors(ns, cur), r);
  }

  // ---------------------------------------------------------------------------
  // Selection scores

  /** A UCT score or an average, with -infinity as the start of a scan and +infinity for an unvisited node. */
  datatype Score = NegInf | Finite(value: real) | PosInf

  /** Strictly greater, in the order -infinity < every real < +infinity. */
  predicate Above(a: Score, b: Score)
  {
    match a
    case NegInf => false
    case Finite(x) => b.NegInf? || (b.Finite? && x > b.value)
    case PosInf => !b.PosInf?
  }

  /** `k` is the first index holding the strictly greatest score: what a scan with `>` picks. */
  ghost predicate FirstStrictMax(xs: seq<Score>, k: int)
  {
    && 0 <= k < |xs|
    && (forall j :: 0 <= j < k ==> Above(xs[k], xs[j]))
    && (forall j :: k < j < |xs| ==> !Above(xs[j], xs[k]))
  }

  /**
   * The state of a left-to-right scan with `>` after `i` scores: `k` is -1
   * before the first score, and otherwise the first strict maximum so far.
   */
  ghost predicate ScanPrefix(xs: seq<Score>, i: int, k: int)
  {
    && 0 <= i <= |xs|
    && -1 <= k
    && (i == 0 <==> k == -1)
    && (k >= 0 ==> k < i)
    && (k >= 0 ==> forall j :: 0 <= j < k ==> Above(xs[k], xs[j]))
    && (k >= 0 ==> forall j :: k < j < i ==> !Above(xs[j], xs[k]))
  }

  /** Strictly greater is transitive. */
  lemma AboveTransitive(a: Score, b: Score, c: Score)
    requires Above(a, b) && Above(b, c)
    ensures Above(a, c)
  {
  }

  /** Strictly greater than something not above `b`. */
  lemma AboveNotAbove(a: Score, b: Score, c: Score)
    requires Above(a, b) && !Above(c, b)
    ensures Above(a, c)
  {
  }

  /** One scan step: a score strictly above the best so far (or the first score) takes over, any other leaves it. */
  lemma ScanStep(xs: seq<Score>, i: int, k: int)
    requires ScanPrefix(xs, i, k) && i < |xs|
    ensures k == -1 || Above(xs[i], xs[k]) ==> ScanPrefix(xs, i + 1, i)
    ensures !(k == -1 || Above(xs[i], xs[k])) ==> ScanPrefix(xs, i + 1, k)
  {
    if k >= 0 && Above(xs[i], xs[k]) {
      forall j | 0 <= j < i
        ensures Above(xs[i], xs[j])
      {
        if j < k {
          AboveTransitive(xs[i], xs[k], xs[j]);
        } else if j > k {
          AboveNotAbove(xs[i], xs[k], xs[j]);
        }
      }
    }
  }

  /** A finished scan over a nonempty sequence has found the first strict maximum. */
  lemma ScanDone(xs: seq<Score>, k: int)
    requires ScanPrefix(xs, |xs|, k) && |xs| > 0
    ensures FirstStrictMax(xs, k)
  {
  }

  /** The first strict maximum is a maximum, and it is the only index with that property. */
  lemma FirstStrictMaxUnique(xs: seq<Score>, k: int, k': int)
    requires FirstStrictMax(xs, k)
    ensures forall j :: 0 <= j < |xs| ==> !Above(xs[j], xs[k])
    ensures FirstStrictMax(xs, k') ==> k' == k
  {
    if 0 <= k' < k {
      assert Above(xs[k], xs[k']);
    }
    if k < k' < |xs| {
      assert !Above(xs[k'], xs[k]);
    }
  }

  /** When some score is +infinity, the first strict maximum is the first +infinity. */
  lemma FirstStrictMaxPrefersInfinite(xs: seq<Score>, k: int, u: int)
    requires FirstStrictMax(xs, k)
    requires 0 <= u < |xs| && xs[u] == PosInf
    ensures xs[k] == PosInf
    ensures forall j :: 0 <= j < k ==> xs[j] != PosInf
  {
    if k < u {
      assert !Above(xs[u], xs[k]);
    }
  }

  /**
   * The UCT value of node `i`: +infinity when unvisited, otherwise its
   * average reward plus the exploration term for constant `c`, its parent's
   * visits and its own visits.
   */
  function UctValue<S>(explore: (real, int, int) -> real, c: real, ns: seq<Node<S>>, i: int): (v: Score)
    requires 0 <= i < |ns| && 0 <= ns[i].parent < |ns|
    ensures v != NegInf
    ensures v == PosInf <==> ns[i].timesVisited == 0
  {
    if ns[i].timesVisited == 0 then PosInf
    else Finite(ns[i].reward / ns[i].timesVisited as real
                + explore(c, ns[ns[i].parent].timesVisited, ns[i].timesVisited))
  }

  /** An unvisited child always scores strictly above a visited one. */
  lemma UnvisitedFirst<S>(explore: (real, int, int) -> real, c: real, ns: seq<Node<S>>, i: int, j: int)
    requires 0 <= i < |ns| && 0 <= ns[i].parent < |ns|
    requires 0 <= j < |ns| && 0 <= ns[j].parent < |ns|
    requires ns[i].timesVisited == 0 && ns[j].timesVisited > 0
    ensures Above(UctValue(explore, c, ns, i), UctValue(explore, c, ns, j))
  {
  }

  /** The UCT values of the children of `p`, in child order. */
  ghost function ChildScores<S>(explore: (real, int, int) -> real, c: real, ns: seq<Node<S>>, p: int): (xs: seq<Score>)
    requires Linked(ns) && 0 <= p < |ns|
    ensures |xs| == |ns[p].children|
  {
    assert LinkedAt(ns, p);
    seq(|ns[p].children|, k requires 0 <= k < |ns[p].children| => UctValue(explore, c, ns, ns[p].children[k]))
  }

  /** Average reward of a node, 0 when it was never visited. */
  function Average<S>(n: Node<S>): real
  {
    if n.timesVisited > 0 then n.reward / n.timesVisited as real else 0.0
  }

  /** The average rewards of the children of `p`, in child order. */
  ghost function ChildAverages<S>(ns: seq<Node<S>>, p: int): (xs: seq<Score>)
    requires Linked(ns) && 0 <= p < |ns|
    ensures |xs| == |ns[p].children|
  {
    assert LinkedAt(ns, p);
    seq(|ns[p].children|, k requires 0 <= k < |ns[p].children| => Finite(Average(ns[ns[p].children[k]])))
  }

  // ---------------------------------------------------------------------------
  // Selection descent

  /**
   * Selection moves from `p` to `q`: `p` is not terminal, has no untried
   * legal action, and `q` is its child with the first strictly greatest
   * UCT value.
   */
  ghost predicate Descends<S>(g: Game<S>, explore: (real, int, int) -> real, c: real, ns: seq<Node<S>>, p: int, q: int)
    requires Linked(ns)
  {
    && 0 <= p < |ns|
    && !TerminalState(g, ns[p].state)
    && FirstUntried(g, ns, p) < 0
    && exists k :: FirstStrictMax(ChildScores(explore, c, ns, p), k) && q == ns[p].children[k]
  }

  /** `path` is a selection descent: it starts at the root and each step is a `Descends` move. */
  ghost predicate Descent<S>(g: Game<S>, explore: (real, int, int) -> real, c: real, ns: seq<Node<S>>, path: seq<int>)
    requires Linked(ns)
  {
    && |path| >= 1
    && path[0] == 0
    && (forall j :: 0 <= j < |path| ==> 0 <= path[j] < |ns|)
    && (forall j :: 0 <= j < |path| - 1 ==> Descends(g, explore, c, ns, path[j], path[j + 1]))
  }

  /**
   * Selection is stuck at node `i`: it is not terminal and has no untried
   * legal action, so it counts as fully expanded, yet it has no child to
   * move to.
   */
  ghost predicate Stuck<S>(g: Game<S>, ns: seq<Node<S>>, i: int)
    requires Linked(ns) && 0 <= i < |ns|
  {
    !TerminalState(g, ns[i].state) && FirstUntried(g, ns, i) < 0 && ns[i].children == []
  }

  /** A stuck node is one without a legal action, and no descent continues from it. */
  lemma StuckHasNoMove<S>(g: Game<S>, explore: (real, int, int) -> real, c: real, ns: seq<Node<S>>, i: int, q: int)
    requires Linked(ns) && 0 <= i < |ns| && Stuck(g, ns, i)
    ensures forall a :: 0 <= a < 4 ==> !g.legal(ns[i].state, a)
    ensures !Descends(g, explore, c, ns, i, q)
  {
    forall a | 0 <= a < 4
      ensures !g.legal(ns[i].state, a)
    {
      assert !Tried(ns, i, a);
    }
  }

  /** A descent extended by one selection move is a descent. */
  lemma DescentExtend<S>(g: Game<S>, explore: (real, int, int) -> real, c: real, ns: seq<Node<S>>, path: seq<int>, q: int)
    requires Linked(ns) && Descent(g, explore, c, ns, path) && 0 <= q < |ns|
    requires Descends(g, explore, c, ns, path[|path| - 1], q)
    ensures Descent(g, explore, c, ns, path + [q])
  {
  }

  /** The descent is determined by the tree: two descents agree wherever both are defined. */
  lemma {:induction false} DescentDeterministic<S>(g: Game<S>, explore: (real, int, int) -> real, c: real,
                                                  ns: seq<Node<S>>, path: seq<int>, path': seq<int>, j: int)
    requires Linked(ns) && Descent(g, explore, c, ns, path) && Descent(g, explore, c, ns, path')
    requires 0 <= j < |path| && j < |path'|
    ensures forall i :: 0 <= i <= j ==> path[i] == path'[i]
  {
    if j > 0 {
      DescentDeterministic(g, explore, c, ns, path, path', j - 1);
      var p := path[j - 1];
      assert Descends(g, explore, c, ns, p, path[j]);
      assert Descends(g, explore, c, ns, p, path'[j]);
      var xs := ChildScores(explore, c, ns, p);
      var k :| FirstStrictMax(xs, k) && path[j] == ns[p].children[k];
      var k' :| FirstStrictMax(xs, k') && path'[j] == ns[p].children[k'];
      FirstStrictMaxUnique(xs, k, k');
    }
  }

  // ---------------------------------------------------------------------------
  // Rollouts

  /**
   * `acts` is a possible random playout from `s` that visits the states of
   * `trace` in order: every move is in 0..3, legal or the fallback 0, made
   * from a state that is not terminal, and leads to the next state.
   */
  ghost predicate Playout<S>(g: Game<S>, s: S, acts: seq<int>, trace: seq<S>)
  {
    && |trace| == |acts| + 1
    && trace[0] == s
    && forall k :: 0 <= k < |acts| ==>
      && 0 <= acts[k] < 4
      && (acts[k] == 0 || g.legal(trace[k], acts[k]))
      && !TerminalState(g, trace[k])
      && trace[k + 1] == g.step(trace[k], acts[k])
  }

  /**
   * The rollout evaluation: -10 when the hero is dead (checked first), 100
   * when the game is halted, otherwise hit points over 30 times 5, plus 3 per
   * collected treasure, 2 per killed monster and a 0.5 bonus.
   */
  function RolloutReward<S>(g: Game<S>, s: S): real
  {
    if !g.heroAlive(s) then -10.0
    else if g.halted(s) then 100.0
    else (g.hitpoints(s) as real / 30.0) * 5.0
         + GridCount(g.deadRewards(s)) as real * 3.0
         + GridCount(g.deadMonsters(s)) as real * 2.0
         + 0.5
  }

  /** The rollout evaluation's cases, with the counts bounded by the grid sizes. */
  lemma RolloutRewardCases<S>(g: Game<S>, s: S)
    ensures !g.heroAlive(s) ==> RolloutReward(g, s) == -10.0
    ensures g.heroAlive(s) && g.halted(s) ==> RolloutReward(g, s) == 100.0
    ensures !TerminalState(g, s) ==>
      RolloutReward(g, s) == g.hitpoints(s) as real * 5.0 / 30.0
                             + 3.0 * GridCount(g.deadRewards(s)) as real
                             + 2.0 * GridCount(g.deadMonsters(s)) as real + 0.5
    ensures GridCount(g.deadRewards(s)) <= CellCount(g.deadRewards(s))
    ensures GridCount(g.deadMonsters(s)) <= CellCount(g.deadMonsters(s))
  {
    GridCountBound(g.deadRewards(s));
    GridCountBound(g.deadMonsters(s));
  }
}
