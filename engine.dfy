/**
 * The window's search engine: the puzzle configuration it sets up, the game-state and
 * depth-bound controls, child generation against the pool, and the three search drivers.
 * The searches build trees of nodes in place and update the node and level counters.
 */
module Search {
  import opened Wrappers
  import opened Seqs
  import opened Grids
  import opened Pool
  import opened Evaluator
  import opened Levels
  import opened Expansion
  import opened Tree
  import opened Puzzle

  datatype GameState = Stopped | Started | Paused

  datatype SearchType =
    | DepthFirstSearch
    | BreadthFirstSearch
    | IterativeDeepeningDF
    | IterativeDeepeningBF
    | HeuristicSearch
    | DummySearch

  /** The bounds of the depth-bound input. */
  const IterativeDeepeningMaxLevel := 100000
  const IterativeDeepeningMinLevel := 1

  /** How a search ended: the goal node it reported, no solution, the exception it threw, or the step bound. */
  datatype Outcome =
    | SolutionFound(node: Node)
    | SolutionNotFound
    | Thrown
    | OutOfFuel

  /** The first index of list holding target, found by comparing states (FindIndex with EqualStates). */
  method FindIndex(list: seq<Grid>, target: Grid) returns (index: int)
    requires forall s :: s in list ==> SameShape(s, target)
    ensures index == IndexOf(list, target)
  {
    index := 0;
    while index < |list|
      invariant 0 <= index <= |list| && target !in list[..index]
    {
      var equal := EqualStates(list[index], target);
      if equal {
        IndexOfFirst(list, target, index);
        return;
      }
      assert list[..index + 1] == list[..index] + [list[index]];
      index := index + 1;
    }
    assert list[..|list|] == list;
    index := -1;
  }

  /** How many nodes of level hold target (Count with EqualStates). */
  method CountStates(level: seq<Node>, target: Grid) returns (count: nat)
    requires forall i :: 0 <= i < |level| ==> SameShape(level[i].data, target)
    ensures count == multiset(States(level))[target]
  {
    count := 0;
    for i := 0 to |level|
      invariant count == multiset(States(level[..i]))[target]
    {
      var equal := EqualStates(level[i].data, target);
      assert States(level[..i + 1]) == States(level[..i]) + [level[i].data];
      if equal {
        count := count + 1;
      }
    }
    assert level[..|level|] == level;
  }

  /** The first node of level holding target, or null (FirstOrDefault with EqualStates). */
  method FirstWithState(level: seq<Node>, target: Grid) returns (found: Node?)
    requires forall i :: 0 <= i < |level| ==> SameShape(level[i].data, target)
    ensures found == null <==> target !in States(level)
    ensures found != null ==> found == level[IndexOf(States(level), target)]
  {
    var index := FindIndex(States(level), target);
    found := if index >= 0 then level[index] else null;
  }

  class Engine {
    const initialState: Grid
    const goalState: Grid
    /** The pool of candidate states the children are drawn from. */
    const allStates: seq<Grid>
    const goalState1D: seq<char>
    var gameState: GameState
    var searchType: SearchType
    var iterativeDeepeningLevel: int
    /** Counter of the nodes created. */
    var nodes: int
    /** Current level. */
    var levels: int

    /**
     * The configuration the searches rely on: start and goal of one shape, the flat copy of
     * the goal, a pool of states of that shape holding the agent, without repetition.
     */
    ghost predicate Valid() {
      && SameShape(initialState, goalState)
      && goalState1D == Flatten(goalState)
      && PoolFits(allStates, initialState)
      && Distinct(allStates)
    }

    /** A state AdjacentStates can compare every pool state with. */
    ghost predicate Expandable(s: Grid) {
      Fits(allStates, s) && TileG in Flatten(s)
    }

    /** The depth bound stays within the input's limits. */
    predicate LevelInRange()
      reads this
    {
      0 <= iterativeDeepeningLevel <= IterativeDeepeningMaxLevel
    }

    /**
     * Initialize: the fixed start and goal, the goal's flat copy, and the pool generated
     * from the empty board with every tile of the puzzle placed.
     */
    constructor Initialize()
      ensures Valid() && LevelInRange()
      ensures initialState == InitialGrid() && goalState == GoalGrid() && allStates == FullPool()
      ensures goalState in allStates
      ensures iterativeDeepeningLevel == 1 && gameState == Stopped && searchType == DepthFirstSearch
      ensures nodes == 0 && levels == 0
    {
      var goal1D := TwoDToOneD(GoalGrid());
      var emptyState := EmptyBoard();
      var withAgent := DataPermutations(TileG, [emptyState]);
      var withA := DataPermutations(TileA, withAgent);
      var withB := DataPermutations(TileB, withA);
      var pool := DataPermutations(TileC, withB);
      initialState := InitialGrid();
      goalState := GoalGrid();
      goalState1D := goal1D;
      allStates := pool;
      gameState := Stopped;
      searchType := DepthFirstSearch;
      iterativeDeepeningLevel := 1;
      nodes := 0;
      levels := 0;
      FullPoolFits();
      FullPoolDistinct();
      FullPoolHoldsGoal();
    }

    /**
     * Initialize as the window writes it: the pool has only the agent and a placed, so it
     * lacks the goal, and no walk from the initial state reaches the goal.
     */
    constructor InitializeAsWritten()
      ensures Valid() && LevelInRange()
      ensures initialState == InitialGrid() && goalState == GoalGrid() && allStates == AsWrittenPool()
      ensures goalState !in allStates
      ensures forall k: nat :: !WalkTo(Successors(allStates), initialState, k, goalState)
      ensures iterativeDeepeningLevel == 1 && gameState == Stopped && searchType == DepthFirstSearch
      ensures nodes == 0 && levels == 0
    {
      var goal1D := TwoDToOneD(GoalGrid());
      var emptyState := EmptyBoard();
      var withAgent := DataPermutations(TileG, [emptyState]);
      var pool := DataPermutations(TileA, withAgent);
      initialState := InitialGrid();
      goalState := GoalGrid();
      goalState1D := goal1D;
      allStates := pool;
      gameState := Stopped;
      searchType := DepthFirstSearch;
      iterativeDeepeningLevel := 1;
      nodes := 0;
      levels := 0;
      AsWrittenPoolFits();
      AsWrittenPoolDistinct();
      AsWrittenNoSolution();
    }

    // -------------------------------------------------------------------------------------
    // Game state and depth-bound controls.

    /** Start from Stopped, pause when Started, resume when Paused. */
    method ButtonStartClick()
      modifies this`gameState
      ensures gameState == match old(gameState)
                           case Stopped => Started
                           case Started => Paused
                           case Paused => Started
    {
      match gameState
      case Started => gameState := Paused;
      case Stopped => gameState := Started;
      case Paused => gameState := Started;
    }

    /** Stop the game and clear the counters. */
    method Reset()
      modifies this`gameState, this`nodes, this`levels
      ensures gameState == Stopped && nodes == 0 && levels == 0
    {
      gameState := Stopped;
      nodes := 0;
      levels := 0;
    }

    /** Reset only a game that is started or paused. */
    method ButtonResetClick()
      modifies this`gameState, this`nodes, this`levels
      ensures old(gameState) != Stopped ==> gameState == Stopped && nodes == 0 && levels == 0
      ensures old(gameState) == Stopped ==> unchanged(this)
    {
      if gameState == Started || gameState == Paused {
        Reset();
      }
    }

    /** Choose the search the next start runs. */
    method RadioButtonClick(choice: SearchType)
      modifies this`searchType
      ensures searchType == choice
    {
      searchType := choice;
    }

    /** Raise the depth bound by one while it is below the maximum less one. */
    method ButtonNumericUpClick()
      modifies this`iterativeDeepeningLevel
      ensures old(LevelInRange()) ==> LevelInRange()
      ensures old(iterativeDeepeningLevel) < IterativeDeepeningMaxLevel - 1
              ==> iterativeDeepeningLevel == old(iterativeDeepeningLevel) + 1
      ensures old(iterativeDeepeningLevel) >= IterativeDeepeningMaxLevel - 1
              ==> iterativeDeepeningLevel == old(iterativeDeepeningLevel)
    {
      if iterativeDeepeningLevel < IterativeDeepeningMaxLevel - 1 {
        iterativeDeepeningLevel := iterativeDeepeningLevel + 1;
      }
    }

    /** Lower the depth bound by one while it is above the minimum. */
    method ButtonNumericDownClick()
      modifies this`iterativeDeepeningLevel
      ensures old(LevelInRange()) ==> LevelInRange()
      ensures old(iterativeDeepeningLevel) > IterativeDeepeningMinLevel
              ==> iterativeDeepeningLevel == old(iterativeDeepeningLevel) - 1
      ensures old(iterativeDeepeningLevel) <= IterativeDeepeningMinLevel
              ==> iterativeDeepeningLevel == old(iterativeDeepeningLevel)
    {
      if iterativeDeepeningLevel > IterativeDeepeningMinLevel {
        iterativeDeepeningLevel := iterativeDeepeningLevel - 1;
      }
    }

    /**
     * Accept a typed depth bound only when it parses as a number in [0, 100000]; otherwise
     * the bound stays as it was (the text box is rewritten with it).
     */
    method TextBoxNumericTextChanged(parsed: Option<int>)
      modifies this`iterativeDeepeningLevel
      ensures old(LevelInRange()) ==> LevelInRange()
      ensures parsed.Some? && 0 <= parsed.value <= IterativeDeepeningMaxLevel
              ==> iterativeDeepeningLevel == parsed.value
      ensures !(parsed.Some? && 0 <= parsed.value <= IterativeDeepeningMaxLevel)
              ==> iterativeDeepeningLevel == old(iterativeDeepeningLevel)
    {
      if parsed.None? || parsed.value > IterativeDeepeningMaxLevel || parsed.value < 0 {
      } else {
        iterativeDeepeningLevel := parsed.value;
      }
    }

    // -------------------------------------------------------------------------------------
    // Child generation.

    /** The pool states one move away from data, in pool order. */
    method AllPossibleChildren(data: Grid) returns (children: seq<Grid>)
      requires Expandable(data)
      ensures children == ChildStates(allStates, data)
    {
      children := [];
      for n := 0 to |allStates|
        invariant Fits(allStates[..n], data)
        invariant children == ChildStates(allStates[..n], data)
      {
        ChildStatesPrefix(allStates, data, n);
        var adjacent := AdjacentStates(allStates[n], data);
        if adjacent {
          children := children + [allStates[n]];
        }
      }
      assert allStates[..|allStates|] == allStates;
    }

    /**
     * The children of node less, for each ancestor from the parent up, the first child equal
     * to that ancestor's state.
     */
    method PossibleChildren(node: Node) returns (childrenData: seq<Grid>)
      requires node.Linked() && Expandable(node.data)
      requires forall k :: 0 <= k < node.depth ==> SameShape(node.AncestorStates()[k], node.data)
      ensures childrenData == PossibleChildStates(allStates, node.data, node.AncestorStates())
    {
      var all := AllPossibleChildren(node.data);
      childrenData := all;
      ghost var ancestors := node.AncestorStates();
      var parentNode := node.parent;
      ghost var k := 0;
      while parentNode != null
        invariant 0 <= k <= node.depth
        invariant parentNode == null <==> k == node.depth
        invariant parentNode != null ==> parentNode == node.Ancestors()[k]
        invariant childrenData == RemoveAll(all, ancestors[..k])
        decreases node.depth - k
      {
        RemoveAllMembers(all, ancestors[..k]);
        var index := FindIndex(childrenData, parentNode.data);
        RemoveAllPrefix(all, ancestors, k);
        if index > -1 {
          childrenData := childrenData[..index] + childrenData[index + 1..];
        }
        AncestorsParent(node, k);
        parentNode := parentNode.parent;
        k := k + 1;
      }
      assert ancestors[..node.depth] == ancestors;
    }
  
    // -------------------------------------------------------------------------------------
    // Search trees.

    /** The chain from the root down to n starts at the initial state and moves between pool states. */
    ghost predicate Reached(n: Node)
      requires n.Linked()
      decreases n.depth
    {
      if n.parent == null then n.data == initialState
      else Reached(n.parent) && Expandable(n.parent.data) && n.data in ChildStates(allStates, n.parent.data)
    }

    /** A reached state has the initial state's shape, so the searches can expand it. */
    lemma ReachedExpandable(n: Node)
      requires Valid() && n.Linked() && Reached(n)
      ensures SameShape(n.data, initialState) && Expandable(n.data)
    {
      if n.parent != null {
        assert n.data in allStates;
      }
      FitsShape(allStates, initialState, n.data);
    }

    /** The states above a reached node have its shape, as PossibleChildren's comparisons need. */
    lemma {:induction false} ReachedAncestorsShape(n: Node)
      requires Valid() && n.Linked() && Reached(n)
      ensures forall k :: 0 <= k < n.depth ==> SameShape(n.AncestorStates()[k], n.data)
      decreases n.depth
    {
      ReachedExpandable(n);
      if n.parent != null {
        ReachedAncestorsShape(n.parent);
        ReachedExpandable(n.parent);
        assert n.AncestorStates() == [n.parent.data] + n.parent.AncestorStates();
      }
    }

    /** The chain down to a reached node is a walk of depth steps over the pool's successor function. */
    lemma {:induction false} ReachedWalk(n: Node)
      requires n.Linked() && Reached(n)
      ensures WalkTo(Successors(allStates), initialState, n.depth, n.data)
      decreases n.depth
    {
      if n.parent == null {
        WalkToStart(Successors(allStates), initialState);
      } else {
        var p := n.parent;
        ReachedWalk(p);
        assert n.data in Successors(allStates)(p.data);
        WalkToExtend(Successors(allStates), initialState, p.depth, p.data, n.data);
        assert n.depth == p.depth + 1;
      }
    }

    /** A node created for one of its parent's possible children extends a reached, simple chain. */
    lemma PossibleChildExtends(parent: Node, c: Node)
      requires Valid() && parent.Linked() && Reached(parent) && Simple(parent) && Expandable(parent.data)
      requires c.Linked() && c.parent == parent
      requires c.data in PossibleChildStates(allStates, parent.data, parent.AncestorStates())
      ensures Reached(c) && Simple(c)
    {
      PossibleChildStatesMembership(allStates, parent.data, parent.AncestorStates(), c.data);
      ChildStatesMembership(allStates, parent.data, c.data);
      assert c.AncestorStates() == [parent.data] + parent.AncestorStates();
    }

    /**
     * The step up when a node has no children: the first unvisited child of the parent, or
     * failing that of the grandparent, and so on; null when no ancestor has one.
     */
    function DepthFirstStepUp(node: Node, ghost T: set<Node>): (r: Node?)
      reads T`children, T`visited
      requires node.Linked() && ChainExpanded(node, T)
      ensures r == null <==> forall k :: 0 <= k < node.depth ==> AllVisited(node.Ancestors()[k].children.value)
      ensures r != null ==>
                exists k :: 0 <= k < node.depth
                            && r == FirstUnvisited(node.Ancestors()[k].children.value)
                            && forall j :: 0 <= j < k ==> AllVisited(node.Ancestors()[j].children.value)
      decreases node.depth
    {
      if node.parent == null then null
      else
        ChainExpandedParent(node, T);
        var unVisitedSibling := FirstUnvisited(node.parent.children.value);
        if unVisitedSibling != null then
          ParentChain(node);
          unVisitedSibling
        else
          var r := DepthFirstStepUp(node.parent, T);
          StepUpFromParent(node, r);
          r
    }

    /** What the step up from the parent found, or that it found nothing, holds one level up the node's chain. */
    lemma StepUpFromParent(node: Node, r: Node?)
      requires node.Linked() && node.parent != null && node.parent.children.Some?
      requires forall k :: 0 <= k < node.parent.depth ==> node.parent.Ancestors()[k].children.Some?
      requires AllVisited(node.parent.children.value)
      requires r == null <==>
                 forall k :: 0 <= k < node.parent.depth ==> AllVisited(node.parent.Ancestors()[k].children.value)
      requires r != null ==>
                 exists k :: 0 <= k < node.parent.depth
                             && r == FirstUnvisited(node.parent.Ancestors()[k].children.value)
                             && forall j :: 0 <= j < k ==> AllVisited(node.parent.Ancestors()[j].children.value)
      ensures forall k :: 0 <= k < node.depth ==> node.Ancestors()[k].children.Some?
      ensures r == null <==> forall k :: 0 <= k < node.depth ==> AllVisited(node.Ancestors()[k].children.value)
      ensures r != null ==>
                exists k :: 0 <= k < node.depth
                            && r == FirstUnvisited(node.Ancestors()[k].children.value)
                            && forall j :: 0 <= j < k ==> AllVisited(node.Ancestors()[j].children.value)
    {
      ChainShift(node);
      if r != null {
        var k :| 0 <= k < node.parent.depth
                 && r == FirstUnvisited(node.parent.Ancestors()[k].children.value)
                 && forall j :: 0 <= j < k ==> AllVisited(node.parent.Ancestors()[j].children.value);
        ChainShiftAt(node, k);
      }
    }

    // -------------------------------------------------------------------------------------
    // Depth-first search trees.

    /** The chain down to n is reached from the initial state and repeats no state. */
    ghost predicate Sound(n: Node) {
      n.Linked() && Reached(n) && Simple(n)
    }

    /**
     * Every node of T is linked and extends a sound chain. The chain facts are only drawn
     * for a node they are asked of, which keeps the solver from unfolding them for every
     * node it meets.
     */
    ghost predicate TreeChains(T: set<Node>) {
      && (forall n :: n in T ==> n.Linked())
      && (forall n {:trigger Sound(n)} :: n in T ==> Sound(n))
    }

    /** A node of a tree with sound chains has a sound chain. */
    lemma TreeNodeSound(T: set<Node>, n: Node)
      requires TreeChains(T) && n in T
      ensures n.Linked() && Reached(n) && Simple(n)
    {
      assert Sound(n);
    }

    /** Every node of T but a root hangs among its parent's children, in T. */
    ghost predicate TreeParents(T: set<Node>)
      reads T`children
    {
      forall n :: n in T && n.parent != null ==>
        n.parent in T && n.parent.children.Some? && n in n.parent.children.value
    }

    /** A node of T with children has been visited, and its children are in T below it. */
    ghost predicate TreeChildren(T: set<Node>)
      reads T`children, T`visited
    {
      forall n :: n in T && n.children.Some? ==>
        n.visited && forall c :: c in n.children.value ==> c in T && c.parent == n
    }

    /**
     * A visited node of T is not the goal, and has as children exactly its possible
     * children, being a dead end when it has none.
     */
    ghost predicate TreeVisits(T: set<Node>)
      reads T`children, T`visited
    {
      && (forall n :: n in T && n.visited ==> n.Linked() && n.data != goalState)
      && (forall n {:trigger Explained(n, n.children)} ::
            n in T && n.visited && n.Linked() ==> Explained(n, n.children))
    }

    /** The children ch of n are exactly its possible children; n is a dead end when ch is absent. */
    ghost predicate Explained(n: Node, ch: Option<seq<Node>>)
      requires n.Linked()
    {
      if ch.Some?
      then States(ch.value) == PossibleChildStates(allStates, n.data, n.AncestorStates())
      else PossibleChildStates(allStates, n.data, n.AncestorStates()) == []
    }

    /** A depth-first search tree rooted at a node of the initial state. */
    ghost predicate SearchTree(T: set<Node>, root: Node)
      reads T`children, T`visited
    {
      && root in T && root.parent == null && root.data == initialState
      && TreeChains(T) && TreeParents(T) && TreeChildren(T) && TreeVisits(T)
    }

    /**
     * The node the depth-first search examines next: unvisited, with every ancestor
     * expanded, and every other unvisited node a child of one of its ancestors.
     */
    ghost predicate Frontier(T: set<Node>, cur: Node)
      reads T`children, T`visited
    {
      && cur in T && cur.Linked() && !cur.visited && cur.children.None?
      && ChainExpanded(cur, T)
      && forall n :: n in T && !n.visited && n != cur ==> n.parent != null && n.parent in cur.Ancestors()
    }

    /** Every unvisited node of T is a child of one of cur's ancestors. */
    ghost predicate Pending(T: set<Node>, cur: Node)
      reads T`visited
      requires cur.Linked()
    {
      forall n :: n in T && !n.visited ==> n.parent != null && n.parent in cur.Ancestors()
    }

    /** Nodes created for the possible children of a reached, simple node extend its chain. */
    lemma ChildrenChains(T: set<Node>, cur: Node, cs: seq<Node>, T': set<Node>)
      requires forall x :: x in T' <==> x in T || x in cs
      requires Valid() && TreeChains(T) && cur in T && Expandable(cur.data)
      requires States(cs) == PossibleChildStates(allStates, cur.data, cur.AncestorStates())
      requires forall c :: c in cs ==> c.parent == cur && c.Linked()
      ensures TreeChains(T')
    {
      TreeNodeSound(T, cur);
      forall c | c in cs
        ensures Sound(c)
      {
        var i :| 0 <= i < |cs| && cs[i] == c;
        assert c.data == States(cs)[i];
        PossibleChildExtends(cur, c);
      }
    }

    /** Attaching children to a node that had none keeps every node below its parent. */
    twostate lemma ExpandKeepsParents(T: set<Node>, new cur: Node, new cs: seq<Node>, new T': set<Node>)
      requires forall x :: x in T' <==> x in T || x in cs
      requires old(TreeParents(T)) && cur in T && old(cur.children.None?)
      requires forall n :: n in T && n != cur ==> unchanged(n)
      requires cur.children == Some(cs) && forall c :: c in cs ==> c.parent == cur
      ensures TreeParents(T')
    {
      forall n | n in T && n.parent != null
        ensures n.parent != cur
      {
        assert old(n.parent.children.Some?);
      }
    }

    /** Attaching fresh children to the node just visited keeps the children below it. */
    twostate lemma ExpandKeepsChildren(T: set<Node>, new cur: Node, new cs: seq<Node>, new T': set<Node>)
      requires forall x :: x in T' <==> x in T || x in cs
      requires old(TreeChildren(T)) && cur in T
      requires forall n :: n in T && n != cur ==> unchanged(n)
      requires cur.visited && cur.children == Some(cs)
      requires forall c :: c in cs ==> c !in T && c.parent == cur && c.children.None?
      ensures TreeChildren(T')
    {
    }

    /** Attaching the possible children of the node just visited keeps the visits described. */
    twostate lemma ExpandKeepsVisits(T: set<Node>, new cur: Node, new cs: seq<Node>, new T': set<Node>)
      requires forall x :: x in T' <==> x in T || x in cs
      requires old(TreeVisits(T)) && cur in T && cur.Linked()
      requires forall n :: n in T && n != cur ==> unchanged(n)
      requires cur.visited && cur.children == Some(cs) && cur.data != goalState
      requires States(cs) == PossibleChildStates(allStates, cur.data, cur.AncestorStates())
      requires forall c :: c in cs ==> c !in T && !c.visited
      ensures TreeVisits(T')
    {
    }

    /** After that, the first child is the next node to examine. */
    twostate lemma ExpandKeepsFrontier(T: set<Node>, new cur: Node, new cs: seq<Node>, new T': set<Node>)
      requires forall x :: x in T' <==> x in T || x in cs
      requires cur in T && old(Frontier(T, cur))
      requires forall n :: n in T && n != cur ==> unchanged(n)
      requires cur.visited && cur.children == Some(cs) && |cs| > 0
      requires forall c :: c in cs ==> c !in T && c.parent == cur && c.Linked() && !c.visited && c.children.None?
      ensures Frontier(T', cs[0])
    {
      var next := cs[0];
      assert next.Ancestors() == [cur] + cur.Ancestors();
      Acyclic(cur);
      forall k | 0 <= k < next.depth
        ensures next.Ancestors()[k] in T' && next.Ancestors()[k].children.Some?
        ensures forall c :: c in next.Ancestors()[k].children.value ==> c in T'
      {
        if k > 0 {
          assert next.Ancestors()[k] == cur.Ancestors()[k - 1];
          assert old(cur.Ancestors()[k - 1].children.Some?);
        }
      }
    }

    /** Attaching the possible children of the node just visited keeps the search tree and its frontier. */
    twostate lemma ExpandKeeps(T: set<Node>, new root: Node, new cur: Node, new cs: seq<Node>, new T': set<Node>)
      requires forall x :: x in T' <==> x in T || x in cs
      requires root in T && cur in T
      requires Valid() && old(SearchTree(T, root)) && old(Frontier(T, cur))
      requires forall n :: n in T && n != cur ==> unchanged(n)
      requires cur.visited && cur.children == Some(cs) && cur.data != goalState && |cs| > 0
      requires States(cs) == PossibleChildStates(allStates, cur.data, cur.AncestorStates())
      requires forall c :: c in cs ==> c !in T && c.parent == cur && c.Linked() && !c.visited && c.children.None?
      ensures SearchTree(T', root) && Frontier(T', cs[0])
    {
      TreeNodeSound(T, cur);
      ReachedExpandable(cur);
      ChildrenChains(T, cur, cs, T');
      ExpandKeepsParents(T, cur, cs, T');
      ExpandKeepsChildren(T, cur, cs, T');
      ExpandKeepsVisits(T, cur, cs, T');
      ExpandKeepsFrontier(T, cur, cs, T');
    }

    /** Marking a dead end visited keeps the children below their parents. */
    twostate lemma DeadEndKeepsChildren(T: set<Node>, new cur: Node)
      requires cur in T && old(TreeChildren(T))
      requires forall n :: n in T && n != cur ==> unchanged(n)
      requires cur.visited && cur.children.None?
      ensures TreeChildren(T)
    {
    }

    /** Marking a dead end visited keeps the visits described. */
    twostate lemma DeadEndKeepsVisits(T: set<Node>, new cur: Node)
      requires cur in T && old(TreeVisits(T)) && cur.Linked()
      requires forall n :: n in T && n != cur ==> unchanged(n)
      requires cur.visited && cur.children.None? && cur.data != goalState
      requires PossibleChildStates(allStates, cur.data, cur.AncestorStates()) == []
      ensures TreeVisits(T)
    {
    }

    /** After a dead end is marked visited its ancestors stay expanded and every unvisited node pending. */
    twostate lemma DeadEndKeepsChain(T: set<Node>, new cur: Node)
      requires cur in T && old(Frontier(T, cur))
      requires forall n :: n in T && n != cur ==> unchanged(n)
      requires cur.visited && cur.children.None?
      ensures ChainExpanded(cur, T) && Pending(T, cur)
    {
      Acyclic(cur);
      forall k | 0 <= k < cur.depth
        ensures cur.Ancestors()[k] in T && cur.Ancestors()[k].children.Some?
        ensures forall c :: c in cur.Ancestors()[k].children.value ==> c in T
      {
        assert old(cur.Ancestors()[k].children.Some?);
      }
    }

    /** Marking a dead end visited keeps the tree a search tree whose unvisited nodes hang off cur's chain. */
    twostate lemma DeadEndKeeps(T: set<Node>, new root: Node, new cur: Node)
      requires root in T && cur in T
      requires Valid() && old(SearchTree(T, root)) && old(Frontier(T, cur))
      requires forall n :: n in T && n != cur ==> unchanged(n)
      requires cur.visited && cur.children.None? && cur.data != goalState
      requires PossibleChildStates(allStates, cur.data, cur.AncestorStates()) == []
      ensures SearchTree(T, root) && ChainExpanded(cur, T) && Pending(T, cur)
    {
      DeadEndKeepsChildren(T, cur);
      DeadEndKeepsVisits(T, cur);
      DeadEndKeepsChain(T, cur);
    }

    /** The step up from a visited node: nothing when the tree is exhausted, else the next node to examine. */
    lemma StepUpResult(T: set<Node>, cur: Node)
      requires TreeChains(T) && TreeParents(T) && TreeChildren(T)
      requires cur in T && cur.Linked() && cur.visited && ChainExpanded(cur, T) && Pending(T, cur)
      ensures DepthFirstStepUp(cur, T) == null ==> forall n :: n in T ==> n.visited
      ensures DepthFirstStepUp(cur, T) != null ==> Frontier(T, DepthFirstStepUp(cur, T))
    {
      var up := DepthFirstStepUp(cur, T);
      if up == null {
        StepUpExhausted(T, cur);
      } else {
        StepUpFrontier(T, cur, up);
      }
    }

    /** next is where the step up from cur lands (null when it finds nothing). */
    ghost predicate StepsUpTo(T: set<Node>, cur: Node, next: Node?)
      reads T`children, T`visited, cur
    {
      cur.Linked() && ChainExpanded(cur, T) && next == DepthFirstStepUp(cur, T)
    }

    /** The step up from a visited node moves to a node that is next to examine. */
    lemma StepUpFrontier(T: set<Node>, cur: Node, up: Node)
      requires TreeChains(T) && TreeParents(T) && TreeChildren(T)
      requires cur in T && cur.Linked() && cur.visited && ChainExpanded(cur, T) && Pending(T, cur)
      requires up == DepthFirstStepUp(cur, T)
      ensures Frontier(T, up)
    {
      var k :| 0 <= k < cur.depth
                && up == FirstUnvisited(cur.Ancestors()[k].children.value)
                && forall j :: 0 <= j < k ==> AllVisited(cur.Ancestors()[j].children.value);
      StepUpFrontierAt(T, cur, k, up);
    }

    /** The first unvisited child of the k-th ancestor, all nearer ancestors' children visited, is a frontier. */
    lemma StepUpFrontierAt(T: set<Node>, cur: Node, k: nat, up: Node)
      requires TreeChains(T) && TreeParents(T) && TreeChildren(T)
      requires cur in T && cur.Linked() && ChainExpanded(cur, T) && Pending(T, cur) && k < cur.depth
      requires up == FirstUnvisited(cur.Ancestors()[k].children.value)
      requires forall j :: 0 <= j < k ==> AllVisited(cur.Ancestors()[j].children.value)
      ensures Frontier(T, up)
    {
      var a := cur.Ancestors()[k];
      var i :| 0 <= i < |a.children.value| && up == a.children.value[i] && !up.visited;
      assert up in a.children.value;
      ChildOfAncestor(cur, k, up);
      ChainExpandedSuffix(cur, k, up, T);
      StepUpPending(T, cur, k, up);
    }

    /** A node beside the step up's target is pending only below the ancestors they share. */
    lemma StepUpPending(T: set<Node>, cur: Node, k: nat, up: Node)
      requires TreeParents(T)
      requires cur.Linked() && ChainExpanded(cur, T) && Pending(T, cur) && k < cur.depth
      requires forall j :: 0 <= j < k ==> AllVisited(cur.Ancestors()[j].children.value)
      requires up.Linked() && up.Ancestors() == cur.Ancestors()[k..]
      ensures forall n :: n in T && !n.visited && n != up ==> n.parent != null && n.parent in up.Ancestors()
    {
      forall n | n in T && !n.visited && n != up
        ensures n.parent != null && n.parent in up.Ancestors()
      {
        var j :| 0 <= j < cur.depth && n.parent == cur.Ancestors()[j];
        if j < k {
          assert false;
        }
        assert n.parent == cur.Ancestors()[k..][j - k];
      }
    }

    /** When the step up finds nothing, every node of the tree has been visited. */
    lemma StepUpExhausted(T: set<Node>, cur: Node)
      requires TreeParents(T)
      requires cur in T && cur.Linked() && cur.visited && ChainExpanded(cur, T) && Pending(T, cur)
      requires DepthFirstStepUp(cur, T) == null
      ensures forall n :: n in T ==> n.visited
    {
      forall n | n in T
        ensures n.visited
      {
        if !n.visited {
          assert false;
        }
      }
    }

    /** The states held by the nodes of T. */
    ghost function TreeStates(T: set<Node>): set<Grid> {
      set n | n in T :: n.data
    }

    /** Every ancestor of a node of T is in T. */
    lemma {:induction false} AncestorsInTree(T: set<Node>, n: Node)
      requires TreeParents(T) && n in T && n.Linked()
      ensures forall j :: 0 <= j < n.depth ==> n.Ancestors()[j] in T
      decreases n.depth
    {
      if n.parent != null {
        AncestorsInTree(T, n.parent);
        ParentChain(n);
      }
    }

    /**
     * In a tree whose nodes are all visited, every child state of a node is held by a node:
     * the node itself, an ancestor, or the child the node was expanded with.
     */
    lemma ExhaustedChild(T: set<Node>, root: Node, n: Node, x: Grid)
      requires Valid() && SearchTree(T, root) && (forall m :: m in T ==> m.visited)
      requires n in T && x in ChildStates(allStates, n.data)
      ensures x in TreeStates(T)
    {
      TreeNodeSound(T, n);
      ReachedExpandable(n);
      var anc := n.AncestorStates();
      if x == n.data {
        assert n.data in TreeStates(T);
      } else if x in anc {
        var j :| 0 <= j < |anc| && anc[j] == x;
        AncestorsInTree(T, n);
        assert n.Ancestors()[j] in T && n.Ancestors()[j].data == x;
      } else {
        ChildStatesMembership(allStates, n.data, x);
        PossibleChildStatesMembership(allStates, n.data, anc, x);
        var ps := PossibleChildStates(allStates, n.data, anc);
        assert Explained(n, n.children);
        var i :| 0 <= i < |ps| && ps[i] == x;
        var cs := n.children.value;
        assert States(cs)[i] == x && cs[i] in cs;
        assert cs[i] in T && cs[i].data == x;
      }
    }

    /** In a tree whose nodes are all visited, the states held are closed under taking children. */
    lemma ExhaustedClosed(T: set<Node>, root: Node)
      requires Valid() && SearchTree(T, root) && (forall m :: m in T ==> m.visited)
      ensures initialState in TreeStates(T)
      ensures forall s, x :: s in TreeStates(T) && x in Successors(allStates)(s) ==> x in TreeStates(T)
    {
      assert root.data in TreeStates(T);
      forall s, x | s in TreeStates(T) && x in Successors(allStates)(s)
        ensures x in TreeStates(T)
      {
        var n :| n in T && n.data == s;
        ExhaustedChild(T, root, n, x);
      }
    }

    /** No node of a tree whose nodes are all visited holds the goal. */
    lemma ExhaustedMissesGoal(T: set<Node>, root: Node)
      requires SearchTree(T, root) && (forall m :: m in T ==> m.visited)
      ensures goalState !in TreeStates(T)
    {
      forall n | n in T
        ensures n.data != goalState
      {
        assert n.visited;
      }
    }

    /**
     * A depth-first tree whose nodes are all visited, the case where the search throws,
     * proves that no walk of any length reaches the goal.
     */
    lemma ExhaustedUnreachable(T: set<Node>, root: Node)
      requires Valid() && SearchTree(T, root) && (forall n :: n in T ==> n.visited)
      ensures forall k: nat :: !WalkTo(Successors(allStates), initialState, k, goalState)
    {
      ExhaustedClosed(T, root);
      ExhaustedMissesGoal(T, root);
      forall k: nat
        ensures !WalkTo(Successors(allStates), initialState, k, goalState)
      {
        LevelIffWalk(Successors(allStates), initialState, k, goalState);
        if goalState in Level(Successors(allStates), initialState, k) {
          LevelsWithin(Successors(allStates), initialState, TreeStates(T), k, goalState);
        }
      }
    }

    /** The node to examine has the goal's shape, so EqualStates can compare the two. */
    lemma FrontierComparable(T: set<Node>, root: Node, cur: Node)
      requires Valid() && SearchTree(T, root) && Frontier(T, cur)
      ensures SameShape(cur.data, goalState)
    {
      TreeNodeSound(T, cur);
      ReachedExpandable(cur);
    }

    /**
     * One pass of DepthFirst's loop body: count a node, mark the current node visited and
     * attach its possible children, moving to the first and adding one to the level counter;
     * at a dead end, take one from the level counter and step up instead (null when nothing
     * is left). DepthFirst compares the node it moves to with the goal on its next pass.
     * PossibleChildren reads no visited flag, so it is asked before the node is marked.
     */
    method DepthFirstStep(ghost T: set<Node>, ghost root: Node, cur: Node)
        returns (next: Node?, expanded: bool, ghost T': set<Node>)
      requires Valid() && SearchTree(T, root) && Frontier(T, cur) && cur.data != goalState
      modifies this`nodes, this`levels, cur`visited, cur`children
      ensures SearchTree(T', root) && T <= T' && forall n :: n in T' ==> n in T || fresh(n)
      ensures next == null ==> !expanded && forall n :: n in T' ==> n.visited
      ensures next != null ==> Frontier(T', next)
      ensures expanded ==> next != null && next.parent == cur && next == cur.children.value[0]
      ensures !expanded ==> StepsUpTo(T, cur, next)
      ensures cur.visited && (expanded <==> cur.children.Some?)
      ensures nodes == old(nodes) + 1 && levels == old(levels) + (if expanded then 1 else -1)
    {
      TreeNodeSound(T, cur);
      ReachedExpandable(cur);
      ReachedAncestorsShape(cur);
      var childrenData := PossibleChildren(cur);
      if |childrenData| > 0 {
        next, T' := Expand(T, root, cur, childrenData);
        expanded := true;
      } else {
        next := DeadEnd(T, root, cur);
        T', expanded := T, false;
      }
    }

    /** Mark cur visited and attach a node for each of its possible children; the first is next. */
    method Expand(ghost T: set<Node>, ghost root: Node, cur: Node, childrenData: seq<Grid>)
        returns (next: Node, ghost T': set<Node>)
      requires Valid() && SearchTree(T, root) && Frontier(T, cur) && cur.data != goalState
      requires childrenData == PossibleChildStates(allStates, cur.data, cur.AncestorStates())
      requires |childrenData| > 0
      modifies this`nodes, this`levels, cur`visited, cur`children
      ensures SearchTree(T', root) && T <= T' && forall n :: n in T' ==> n in T || fresh(n)
      ensures cur.visited && cur.children.Some? && States(cur.children.value) == childrenData
      ensures Frontier(T', next) && next.parent == cur && next == cur.children.value[0]
      ensures nodes == old(nodes) + 1 && levels == old(levels) + 1
    {
      nodes, levels := nodes + 1, levels + 1;
      cur.visited := true;
      var cs := NewChildren(childrenData, cur);
      cur.children := Some(cs);
      T' := T + (set c | c in cs);
      ExpandKeeps(T, root, cur, cs, T');
      next := cs[0];
    }

    /** Mark a dead end visited and step up; null when no node is left to examine. */
    method DeadEnd(ghost T: set<Node>, ghost root: Node, cur: Node) returns (next: Node?)
      requires Valid() && SearchTree(T, root) && Frontier(T, cur) && cur.data != goalState
      requires PossibleChildStates(allStates, cur.data, cur.AncestorStates()) == []
      modifies this`nodes, this`levels, cur`visited
      ensures SearchTree(T, root) && cur.visited
      ensures next == null ==> forall n :: n in T ==> n.visited
      ensures next != null ==> Frontier(T, next)
      ensures StepsUpTo(T, cur, next)
      ensures nodes == old(nodes) + 1 && levels == old(levels) - 1
    {
      nodes, levels := nodes + 1, levels - 1;
      cur.visited := true;
      DeadEndKeeps(T, root, cur);
      next := DepthFirstStepUp(cur, T);
      StepUpResult(T, cur);
    }

    /**
     * DepthFirst(maxLevel): expand the current node, move to its first child, and on a dead
     * end step up to the first unvisited child of the nearest ancestor that has one; stop at
     * the goal, or once the level counter reaches a positive maxLevel (any maxLevel other
     * than 0 when it is negative). The fuel bounds the number of steps.
     */
    method DepthFirst(maxLevel: int, fuel: nat)
        returns (outcome: Outcome, ghost tree: set<Node>, ghost root: Node, ghost steps: nat, ghost expansions: nat)
      requires Valid()
      modifies this`nodes, this`levels
      ensures SearchTree(tree, root) && (forall n :: n in tree ==> fresh(n))
      ensures nodes == old(nodes) + 1 + steps
      ensures expansions <= steps && levels == old(levels) + expansions - (steps - expansions)
      ensures outcome.SolutionFound? ==>
                outcome.node in tree && outcome.node.data == goalState
                && WalkTo(Successors(allStates), initialState, outcome.node.depth, goalState)
      ensures outcome.SolutionNotFound? ==> maxLevel != 0 && !(maxLevel > 0 && levels < maxLevel)
      ensures outcome.Thrown? ==>
                && (forall n :: n in tree ==> n.visited)
                && forall k: nat :: !WalkTo(Successors(allStates), initialState, k, goalState)
      ensures outcome.OutOfFuel? ==> steps == fuel
    {
      var currentNode: Node := new Node(initialState, null);
      nodes := nodes + 1;
      root := currentNode;
      tree := {currentNode};
      steps, expansions := 0, 0;
      var budget: nat := fuel;
      var stopped := false;
      // The loop condition is evaluated at the head of each pass, before any node changes.
      while true
        invariant budget + steps == fuel
        invariant SearchTree(tree, root) && (forall n :: n in tree ==> fresh(n)) && Frontier(tree, currentNode)
        invariant nodes == old(nodes) + 1 + steps
        invariant expansions <= steps && levels == old(levels) + expansions - (steps - expansions)
        decreases budget
      {
        FrontierComparable(tree, root, currentNode);
        var atGoal := EqualStates(currentNode.data, goalState);
        if atGoal || !(maxLevel == 0 || (maxLevel > 0 && levels < maxLevel)) {
          break;
        }
        if budget == 0 {
          outcome, stopped := OutOfFuel, true;
          break;
        }
        budget := budget - 1;
        steps := steps + 1;
        var next, expanded;
        next, expanded, tree := DepthFirstStep(tree, root, currentNode);
        if expanded {
          expansions := expansions + 1;
        }
        if next == null {
          ExhaustedUnreachable(tree, root);
          outcome, stopped := Thrown, true;
          break;
        }
        currentNode := next;
      }
      if !stopped {
        outcome := Conclude(tree, root, currentNode);
      }
    }

    /** The end of a depth-first search that did not throw: whether the current node is the goal. */
    method Conclude(ghost tree: set<Node>, ghost root: Node, currentNode: Node) returns (outcome: Outcome)
      requires Valid() && SearchTree(tree, root) && currentNode in tree
      ensures outcome.SolutionFound? || outcome.SolutionNotFound?
      ensures outcome.SolutionFound? ==> outcome.node == currentNode
      ensures outcome.SolutionFound? <==> currentNode.data == goalState
      ensures outcome.SolutionFound? ==> WalkTo(Successors(allStates), initialState, currentNode.depth, goalState)
    {
      TreeNodeSound(tree, currentNode);
      ReachedExpandable(currentNode);
      var isSolutionFound := EqualStates(currentNode.data, goalState);
      if isSolutionFound {
        ReachedWalk(currentNode);
        outcome := SolutionFound(currentNode);
      } else {
        outcome := SolutionNotFound;
      }
    }

    // -------------------------------------------------------------------------------------
    // Breadth-first search.

    /** Each node of ns ends a reached chain of depth d. */
    ghost predicate ChainsAt(ns: seq<Node>, d: nat) {
      forall i :: 0 <= i < |ns| ==> ns[i].Linked() && ns[i].depth == d && Reached(ns[i])
    }

    lemma ChainsAtConcat(a: seq<Node>, b: seq<Node>, d: nat)
      requires ChainsAt(a, d) && ChainsAt(b, d)
      ensures ChainsAt(a + b, d)
    {
    }

    /** The nodes of level k: their states are Level k, and each ends a reached chain of depth k. */
    ghost predicate LevelNodes(level: seq<Node>, k: nat) {
      States(level) == Level(Successors(allStates), initialState, k) && ChainsAt(level, k)
    }

    /** The nodes of a level have the goal's shape, so they can be compared with it. */
    lemma LevelNodesShape(level: seq<Node>, k: nat)
      requires Valid() && LevelNodes(level, k)
      ensures forall i :: 0 <= i < |level| ==> SameShape(level[i].data, goalState) && Expandable(level[i].data)
    {
      forall i | 0 <= i < |level|
        ensures SameShape(level[i].data, goalState) && Expandable(level[i].data)
      {
        ReachedExpandable(level[i]);
      }
    }

    /**
     * One pass of BreadthFirst's loop body: a node for every child of every node of the
     * level, in order, counting the nodes created.
     */
    method NextLevel(ghost k: nat, currentLevel: seq<Node>) returns (newLevelNodes: seq<Node>)
      requires Valid() && LevelNodes(currentLevel, k)
      modifies this`nodes
      ensures LevelNodes(newLevelNodes, k + 1)
      ensures nodes == old(nodes) + |Level(Successors(allStates), initialState, k + 1)|
    {
      LevelNodesShape(currentLevel, k);
      newLevelNodes := [];
      for i := 0 to |currentLevel|
        invariant States(newLevelNodes) == ExpandAll(Successors(allStates), States(currentLevel[..i]))
        invariant nodes == old(nodes) + |newLevelNodes|
        invariant ChainsAt(newLevelNodes, k + 1)
      {
        var node := currentLevel[i];
        var newLevelData := AllPossibleChildren(node.data);
        var cs := NewChildren(newLevelData, node);
        ExpandLevelPrefix(currentLevel, i, newLevelNodes, cs);
        ChildNodesReached(node, k, cs);
        ChainsAtConcat(newLevelNodes, cs, k + 1);
        newLevelNodes := newLevelNodes + cs;
        nodes := nodes + |newLevelData|;
      }
      assert currentLevel[..|currentLevel|] == currentLevel;
    }

    /** No level below k holds the goal. */
    ghost predicate GoalAbsentBelow(k: nat) {
      forall j :: 0 <= j < k ==> goalState !in Level(Successors(allStates), initialState, j)
    }

    lemma GoalAbsentStep(k: nat)
      requires GoalAbsentBelow(k) && goalState !in Level(Successors(allStates), initialState, k)
      ensures GoalAbsentBelow(k + 1)
    {
    }

    /** node is the first node of level holding the goal, and ends a reached chain of depth k. */
    ghost predicate FirstGoalNode(node: Node, level: seq<Node>, k: nat) {
      && goalState in States(level)
      && node == level[IndexOf(States(level), goalState)]
      && node.data == goalState && node.Linked() && node.depth == k && Reached(node)
    }

    /**
     * BreadthFirst(maxLevel): reject a negative maxLevel; otherwise replace the current
     * level, starting from a node of the initial state, by the nodes for all children of its
     * nodes, until a level holds the goal or the level counter reaches a positive maxLevel,
     * and report the first node of that level holding the goal. The children come from
     * AllPossibleChildren, so states repeat across and within levels. The fuel bounds the
     * number of levels.
     */
    method BreadthFirst(maxLevel: int, fuel: nat) returns (outcome: Outcome, ghost k: nat, ghost frontier: seq<Node>)
      requires Valid()
      modifies this`nodes, this`levels
      ensures maxLevel < 0 <==> outcome.Thrown?
      ensures maxLevel < 0 ==> nodes == old(nodes) && levels == old(levels)
      ensures maxLevel >= 0 ==>
                && levels == old(levels) + k
                && nodes == old(nodes) + LevelTotal(Successors(allStates), initialState, k)
                && LevelNodes(frontier, k)
                && forall j :: 0 <= j < k ==> goalState !in Level(Successors(allStates), initialState, j)
      ensures outcome.SolutionFound? ==>
                && FirstGoalNode(outcome.node, frontier, k)
                && WalkTo(Successors(allStates), initialState, k, goalState)
                && forall j :: 0 <= j < k ==> !WalkTo(Successors(allStates), initialState, j, goalState)
      ensures outcome.SolutionNotFound? ==>
                goalState !in Level(Successors(allStates), initialState, k) && maxLevel > 0 && levels >= maxLevel
      ensures outcome.OutOfFuel? ==> k == fuel
    {
      k, frontier := 0, [];
      if maxLevel < 0 {
        return Thrown, k, frontier;
      }
      var initialNode := new Node(initialState, null);
      var currentLevel := [initialNode];
      assert States(currentLevel) == [initialState];
      var stopped;
      k, currentLevel, stopped := Deepen(maxLevel, fuel, currentLevel);
      frontier := currentLevel;
      if stopped {
        outcome := OutOfFuel;
      } else {
        outcome := ConcludeLevel(k, currentLevel);
      }
    }

    /**
     * BreadthFirst's loop: move to the next level while the current one holds no goal and
     * the level counter is below a positive maxLevel (or maxLevel is 0); stopped when the
     * fuel runs out first.
     */
    method Deepen(maxLevel: int, fuel: nat, first: seq<Node>) returns (ghost k: nat, currentLevel: seq<Node>, stopped: bool)
      requires Valid() && LevelNodes(first, 0) && maxLevel >= 0
      modifies this`nodes, this`levels
      ensures LevelNodes(currentLevel, k) && GoalAbsentBelow(k)
      ensures levels == old(levels) + k
      ensures nodes == old(nodes) + LevelTotal(Successors(allStates), initialState, k)
      ensures stopped ==> k == fuel
      ensures !stopped ==> goalState in States(currentLevel) || (maxLevel > 0 && levels >= maxLevel)
    {
      k, currentLevel := 0, first;
      LevelNodesShape(currentLevel, 0);
      var count := CountStates(currentLevel, goalState);
      var budget: nat := fuel;
      stopped := false;
      while count == 0 && (maxLevel == 0 || (maxLevel > 0 && levels < maxLevel))
        invariant budget + k == fuel
        invariant LevelNodes(currentLevel, k)
        invariant count == multiset(States(currentLevel))[goalState]
        invariant levels == old(levels) + k
        invariant nodes == old(nodes) + LevelTotal(Successors(allStates), initialState, k)
        invariant GoalAbsentBelow(k)
        invariant !stopped
        decreases budget
      {
        if budget == 0 {
          stopped := true;
          return;
        }
        budget := budget - 1;
        assert goalState !in States(currentLevel);
        GoalAbsentStep(k);
        ghost var before := nodes;
        currentLevel, count := BreadthFirstStep(k, currentLevel);
        assert nodes == before + |Level(Successors(allStates), initialState, k + 1)|;
        k := k + 1;
      }
    }

    /** One pass of BreadthFirst's loop body: count a level, build the next one, and count its goal nodes. */
    method BreadthFirstStep(ghost k: nat, currentLevel: seq<Node>) returns (newLevel: seq<Node>, count: nat)
      requires Valid() && LevelNodes(currentLevel, k)
      modifies this`nodes, this`levels
      ensures LevelNodes(newLevel, k + 1) && count == multiset(States(newLevel))[goalState]
      ensures levels == old(levels) + 1
      ensures nodes == old(nodes) + |Level(Successors(allStates), initialState, k + 1)|
    {
      levels := levels + 1;
      newLevel := NextLevel(k, currentLevel);
      LevelNodesShape(newLevel, k + 1);
      count := CountStates(newLevel, goalState);
    }

    /** The end of a breadth-first search that did not throw: the first node of the level holding the goal. */
    method ConcludeLevel(ghost k: nat, currentLevel: seq<Node>) returns (outcome: Outcome)
      requires Valid() && LevelNodes(currentLevel, k) && GoalAbsentBelow(k)
      ensures outcome.SolutionFound? || outcome.SolutionNotFound?
      ensures outcome.SolutionFound? <==> goalState in Level(Successors(allStates), initialState, k)
      ensures outcome.SolutionFound? ==>
                && FirstGoalNode(outcome.node, currentLevel, k)
                && WalkTo(Successors(allStates), initialState, k, goalState)
                && forall j :: 0 <= j < k ==> !WalkTo(Successors(allStates), initialState, j, goalState)
    {
      LevelNodesShape(currentLevel, k);
      var goalNode := FirstWithState(currentLevel, goalState);
      if goalNode != null {
        ReachedWalk(goalNode);
        forall j | 0 <= j < k
          ensures !WalkTo(Successors(allStates), initialState, j, goalState)
        {
          Shortest(Successors(allStates), initialState, k, goalState, j);
        }
        outcome := SolutionFound(goalNode);
      } else {
        outcome := SolutionNotFound;
      }
    }

    /** Appending the states of one more node's children extends the expansion of the prefix. */
    lemma ExpandLevelPrefix(level: seq<Node>, i: nat, acc: seq<Node>, cs: seq<Node>)
      requires i < |level| && States(cs) == ChildStates(allStates, level[i].data)
      requires States(acc) == ExpandAll(Successors(allStates), States(level[..i]))
      ensures States(acc + cs) == ExpandAll(Successors(allStates), States(level[..i + 1]))
    {
      assert States(level[..i + 1]) == States(level[..i]) + [level[i].data];
      ExpandAllSnoc(Successors(allStates), States(level[..i]), level[i].data);
      StatesConcat(acc, cs);
    }

    /** The nodes for the children of a node of level k end reached chains of depth k + 1. */
    lemma ChildNodesReached(node: Node, k: nat, cs: seq<Node>)
      requires Valid() && node.Linked() && node.depth == k && Reached(node)
      requires States(cs) == ChildStates(allStates, node.data)
      requires forall j :: 0 <= j < |cs| ==> cs[j].parent == node && cs[j].Linked()
      ensures ChainsAt(cs, k + 1)
    {
      ReachedExpandable(node);
      forall j | 0 <= j < |cs|
        ensures cs[j].depth == k + 1 && Reached(cs[j])
      {
        assert cs[j].data == States(cs)[j];
      }
    }

    // -------------------------------------------------------------------------------------
    // Heuristic search.

    /** Below the root, every state on a reached chain is a pool state. */
    lemma {:induction false} ChainInPool(n: Node)
      requires n.Linked() && Reached(n)
      ensures forall i :: 0 <= i < n.depth ==> ([n.data] + n.AncestorStates())[i] in allStates
      decreases n.depth
    {
      if n.parent != null {
        var p := n.parent;
        ChainInPool(p);
        assert [n.data] + n.AncestorStates() == [n.data] + ([p.data] + p.AncestorStates());
      }
    }

    /** A reached chain without repeated states is no deeper than the pool is long. */
    lemma ChainBound(n: Node)
      requires n.Linked() && Reached(n) && Simple(n)
      ensures n.depth <= |allStates|
    {
      var s := [n.data] + n.AncestorStates();
      SimpleDistinct(n);
      ChainInPool(n);
      var a := s[..n.depth];
      assert Distinct(a) by {
        forall i, j | 0 <= i < |a| && 0 <= j < |a| && i != j ensures a[i] != a[j] {
          assert a[i] == s[i] && a[j] == s[j];
        }
      }
      forall i | 0 <= i < |a| ensures a[i] in allStates {
        assert a[i] == s[i];
      }
      DistinctWithin(a, allStates);
    }

    /** The heuristic value of each state, in order. */
    function Costs(cs: seq<Grid>): (r: seq<int>)
      requires forall i :: 0 <= i < |cs| ==> SameShape(cs[i], goalState)
      ensures |r| == |cs| && forall i :: 0 <= i < |cs| ==> r[i] == HeuristicCost(cs[i], goalState)
    {
      seq(|cs|, i requires 0 <= i < |cs| => HeuristicCost(cs[i], goalState))
    }

    /** The index the heuristic search moves to: the first index of the least value. */
    function GreedyIndex(cs: seq<Grid>): (k: int)
      requires |cs| > 0 && forall i :: 0 <= i < |cs| ==> SameShape(cs[i], goalState)
    {
      IndexOf(Costs(cs), SeqMin(Costs(cs)))
    }

    /** The chosen state has the least heuristic value, and every earlier state a larger one. */
    lemma GreedyIndexMinimal(cs: seq<Grid>)
      requires |cs| > 0 && forall i :: 0 <= i < |cs| ==> SameShape(cs[i], goalState)
      ensures 0 <= GreedyIndex(cs) < |cs|
      ensures forall j :: 0 <= j < |cs| ==> HeuristicCost(cs[GreedyIndex(cs)], goalState) <= HeuristicCost(cs[j], goalState)
      ensures forall j :: 0 <= j < GreedyIndex(cs) ==> HeuristicCost(cs[j], goalState) > HeuristicCost(cs[GreedyIndex(cs)], goalState)
    {
      FirstMinimum(Costs(cs));
    }

    /** x is the state the heuristic search picks among the possible children of p. */
    ghost predicate GreedyStep(p: Node, x: Grid)
      requires p.Linked()
    {
      var cs := PossibleChildStates(allStates, p.data, p.AncestorStates());
      && |cs| > 0
      && (forall i :: 0 <= i < |cs| ==> SameShape(cs[i], goalState))
      && x == cs[GreedyIndex(cs)]
    }

    /** Each state on the chain down to n is the heuristic search's pick from its parent. */
    ghost predicate Greedy(n: Node)
      requires n.Linked()
      decreases n.depth
    {
      n.parent == null || (Greedy(n.parent) && GreedyStep(n.parent, n.data))
    }

    /** The possible children of a reached node have the goal's shape. */
    lemma PossibleChildrenShape(cur: Node, cs: seq<Grid>)
      requires Valid() && cur.Linked() && Reached(cur)
      requires cs == PossibleChildStates(allStates, cur.data, cur.AncestorStates())
      ensures forall i :: 0 <= i < |cs| ==> SameShape(cs[i], goalState)
    {
      ReachedExpandable(cur);
      forall i | 0 <= i < |cs|
        ensures SameShape(cs[i], goalState)
      {
        assert cs[i] in cs;
        PossibleChildStatesMembership(allStates, cur.data, cur.AncestorStates(), cs[i]);
      }
    }

    /**
     * One pass of Heuristic's loop body: count a node and a level, then move to a new child
     * of cur for the first possible child of least heuristic value, or to nothing at a dead end.
     */
    method HeuristicStep(cur: Node) returns (next: Node?)
      requires Valid() && cur.Linked() && Reached(cur) && Simple(cur) && Greedy(cur)
      modifies this`nodes, this`levels
      ensures nodes == old(nodes) + 1 && levels == old(levels) + 1
      ensures next == null <==> PossibleChildStates(allStates, cur.data, cur.AncestorStates()) == []
      ensures next != null ==>
                fresh(next) && next.parent == cur && next.Linked() && next.depth == cur.depth + 1
                && Reached(next) && Simple(next) && Greedy(next)
    {
      nodes, levels := nodes + 1, levels + 1;
      ReachedExpandable(cur);
      ReachedAncestorsShape(cur);
      var childrenData := PossibleChildren(cur);
      if |childrenData| == 0 {
        return null;
      }
      PossibleChildrenShape(cur, childrenData);
      var heuristicValues := HeuristicValues(childrenData);
      var minValue := SeqMin(heuristicValues[..]);
      var indexOfMinValue := IndexOf(heuristicValues[..], minValue);
      next := new Node(childrenData[indexOfMinValue], cur);
      GreedyExtends(cur, next);
    }

    /** The heuristic value of each state, into a new array. */
    method HeuristicValues(cs: seq<Grid>) returns (values: array<int>)
      requires Valid() && forall i :: 0 <= i < |cs| ==> SameShape(cs[i], goalState)
      ensures fresh(values) && values[..] == Costs(cs)
    {
      values := new int[|cs|];
      for i := 0 to values.Length
        invariant forall j :: 0 <= j < i ==> values[j] == HeuristicCost(cs[j], goalState)
      {
        values[i] := HeuristicValue(cs[i], goalState, goalState1D);
      }
    }

    /** A node for the greedy pick among cur's possible children extends a reached, simple, greedy chain. */
    lemma GreedyExtends(cur: Node, next: Node)
      requires Valid() && cur.Linked() && Reached(cur) && Simple(cur) && Greedy(cur)
      requires next.Linked() && next.parent == cur
      requires PossibleChildStates(allStates, cur.data, cur.AncestorStates()) != []
      requires forall i :: 0 <= i < |PossibleChildStates(allStates, cur.data, cur.AncestorStates())| ==>
                 SameShape(PossibleChildStates(allStates, cur.data, cur.AncestorStates())[i], goalState)
      requires next.data == PossibleChildStates(allStates, cur.data, cur.AncestorStates())[
                 GreedyIndex(PossibleChildStates(allStates, cur.data, cur.AncestorStates()))]
      ensures Reached(next) && Simple(next) && Greedy(next)
    {
      ReachedExpandable(cur);
      PossibleChildExtends(cur, next);
    }

    /**
     * Heuristic: from a node of the initial state, repeatedly count a node and a level and
     * move to the possible child of least heuristic value, until the goal is reached or there
     * is no possible child. The chain never repeats a state, so it ends within as many moves
     * as the pool has states.
     */
    method Heuristic() returns (outcome: Outcome, ghost last: Node, ghost rounds: nat)
      requires Valid()
      modifies this`nodes, this`levels
      ensures last.Linked() && Reached(last) && Simple(last) && Greedy(last) && last.depth <= |allStates|
      ensures nodes == old(nodes) + 1 + rounds && levels == old(levels) + rounds
      ensures outcome.SolutionFound? || outcome.SolutionNotFound?
      ensures outcome.SolutionFound? <==> last.data == goalState
      ensures outcome.SolutionFound? ==>
                outcome.node == last && rounds == last.depth
                && WalkTo(Successors(allStates), initialState, last.depth, goalState)
      ensures outcome.SolutionNotFound? ==>
                PossibleChildStates(allStates, last.data, last.AncestorStates()) == [] && rounds == last.depth + 1
    {
      var currentNode: Node := new Node(initialState, null);
      nodes := nodes + 1;
      rounds := 0;
      ReachedExpandable(currentNode);
      var atGoal := EqualStates(currentNode.data, goalState);
      while !atGoal
        invariant currentNode.Linked() && Reached(currentNode) && Simple(currentNode) && Greedy(currentNode)
        invariant currentNode.depth <= |allStates|
        invariant atGoal <==> currentNode.data == goalState
        invariant nodes == old(nodes) + 1 + rounds && levels == old(levels) + rounds
        invariant rounds == currentNode.depth
        decreases |allStates| - currentNode.depth
      {
        var next := HeuristicStep(currentNode);
        rounds := rounds + 1;
        if next == null {
          break;
        }
        ChainBound(next);
        currentNode := next;
        ReachedExpandable(currentNode);
        atGoal := EqualStates(currentNode.data, goalState);
      }
      last := currentNode;
      if atGoal {
        ReachedWalk(currentNode);
        outcome := SolutionFound(currentNode);
      } else {
        outcome := SolutionNotFound;
      }
    }

    // -------------------------------------------------------------------------------------
    // Iterative deepening: one bounded search each.

    /** IterativeDeepeningDF: a single depth-first search bounded by the depth bound; no deepening follows. */
    method IterativeDeepeningDF(fuel: nat)
        returns (outcome: Outcome, ghost tree: set<Node>, ghost root: Node, ghost steps: nat, ghost expansions: nat)
      requires Valid()
      modifies this`nodes, this`levels
      ensures SearchTree(tree, root)
      ensures nodes == old(nodes) + 1 + steps
      ensures expansions <= steps && levels == old(levels) + expansions - (steps - expansions)
      ensures outcome.SolutionFound? ==>
                outcome.node in tree && outcome.node.data == goalState
                && WalkTo(Successors(allStates), initialState, outcome.node.depth, goalState)
      ensures outcome.SolutionNotFound? ==>
                iterativeDeepeningLevel != 0 && !(iterativeDeepeningLevel > 0 && levels < iterativeDeepeningLevel)
      ensures outcome.Thrown? ==>
                && (forall n :: n in tree ==> n.visited)
                && forall k: nat :: !WalkTo(Successors(allStates), initialState, k, goalState)
      ensures outcome.OutOfFuel? ==> steps == fuel
    {
      outcome, tree, root, steps, expansions := DepthFirst(iterativeDeepeningLevel, fuel);
    }

    /** IterativeDeepeningBF: a single breadth-first search bounded by the depth bound; no deepening follows. */
    method IterativeDeepeningBF(fuel: nat) returns (outcome: Outcome, ghost k: nat, ghost frontier: seq<Node>)
      requires Valid()
      modifies this`nodes, this`levels
      ensures iterativeDeepeningLevel < 0 <==> outcome.Thrown?
      ensures iterativeDeepeningLevel >= 0 ==>
                levels == old(levels) + k && nodes == old(nodes) + LevelTotal(Successors(allStates), initialState, k)
      ensures outcome.SolutionFound? ==>
                && FirstGoalNode(outcome.node, frontier, k)
                && forall j :: 0 <= j < k ==> !WalkTo(Successors(allStates), initialState, j, goalState)
      ensures outcome.SolutionNotFound? ==>
                goalState !in Level(Successors(allStates), initialState, k)
                && iterativeDeepeningLevel > 0 && levels >= iterativeDeepeningLevel
      ensures outcome.OutOfFuel? ==> k == fuel
    {
      outcome, k, frontier := BreadthFirst(iterativeDeepeningLevel, fuel);
    }
  }
}
