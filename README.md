# BlocksWorldBuzzle search engine, modelled in Dafny

BlocksWorldBuzzle is a sliding-tile puzzle on a 4x4 board. The board holds three letter
tiles `a`, `b` and `c`, an agent `g` and empty cells `-`. The agent moves by swapping with
a horizontal or vertical neighbour. From a fixed initial state (the letters and the agent
on the bottom row), the window searches for a fixed goal state (the letters stacked in the
second column, the agent in the bottom-right corner). It can run a depth-first search, a
breadth-first search, an iterative-deepening variant of each, or a greedy heuristic search.
It counts the nodes it creates and the levels it descends.

The searches do not generate moves directly. Initialize builds a pool of candidate states
by writing tiles into empty cells of an empty board. A state's children are the pool
states that AdjacentStates accepts as one move away. Each search grows a tree of `Node`
objects in place: it marks nodes visited and attaches their children.

The model is organised as follows.

- `Wrappers`: the `Option` type.
- `Seqs`: first index, distinctness, removal of ancestors, and the minimum of a sequence.
- `Grids`: states as rectangular `seq<seq<char>>`, their row-major flattening,
  EqualStates and TwoDToOneD. It also models C#'s truncating `/` and `%`, which matter
  because `IndexOf` can return -1.
- `Evaluator`: DistanceTileG, DistanceExceptTileG, HeuristicValue and AdjacentStates.
  Each is a method with the source's nested loops, proved equal to a specification
  function. The lemmas relate those functions to the puzzle's rules: adjacency is exactly
  one agent move, and the heuristic is zero exactly at the goal.
- `Pool`: DataPermutations and what it generates (membership, count, no repetition).
- `Puzzle`: the initial, goal and empty boards, and the pool as the window builds it.
  It also holds the pool with all four tiles placed.
- `Expansion`: AllPossibleChildren's and PossibleChildren's specifications, and the
  breadth-first successor function over the pool.
- `Levels`: breadth-first levels over any successor function. A level holds exactly the
  ends of the walks of that length.
- `Tree`: the `Node` class. Its state and parent are constant; `visited` and `children`
  are updated in place. Ghost depth makes the parent chain well founded.
- `Search`: the window as class `Engine`. It holds the configuration (initial state, goal
  state, pool, flat goal) as constants, and the game state, search choice, depth bound and
  the `nodes` and `levels` counters as fields. The controls, child generation and the
  search drivers are its methods.

The searches are proved against the search tree they build:

- **DepthFirst** keeps a search tree with two properties. Every node's chain starts at the
  initial state, moves between pool states and repeats no state. The nodes still to
  examine are exactly the unvisited children of the current chain. So a reported solution
  is the goal reached by a walk of its depth. When the step up finds nothing, every node
  of the tree has been visited, which is the case where the source throws. The states such
  a tree holds are closed under taking children, so they include every breadth-first
  level; as no visited node holds the goal, no walk of any length reaches it.
- **BreadthFirst** keeps level k equal to the k-th breadth-first level of the pool's
  successor function, so a reported goal node lies at the shortest walk length.
- **Heuristic** follows a chain of greedy choices that never repeats a state. This bounds
  its length by the pool's size, so the search terminates without a step bound.

Some behaviours of the code that a reader might not expect, all modelled as the code has them:

- The bounded DepthFirst also throws when the step up finds nothing.
- BreadthFirst does not count its root node.
- BreadthFirst does not filter out ancestors' states.
- The iterative-deepening entries make a single bounded call each.

## Model

| member | source | states |
|---|---|---|
| Grids.EqualStates | BlocksWorldBuzzle/MainWindow.xaml.cs:470-487 | true exactly when the two states are equal |
| Grids.TwoDToOneD | BlocksWorldBuzzle/MainWindow.xaml.cs:692-706 | the cells in row-major order; FlattenAt places cell (i, j) at i * width + j |
| Grids.FlattenInjective | BlocksWorldBuzzle/MainWindow.xaml.cs:470-487 | states of one shape with equal cell lists are equal, so comparing cells decides equality |
| Evaluator.DistanceTileG | BlocksWorldBuzzle/MainWindow.xaml.cs:609-637 | the result is the agent distance: zero when the first agent cell of a is also the agent cell of b, else the distance from that cell to b's agent computed with truncating division |
| Evaluator.AgentDistanceManhattan | BlocksWorldBuzzle/MainWindow.xaml.cs:609-637 | between well-formed states the agent distance is the Manhattan distance between the two agent cells |
| Evaluator.SumDisplacement | BlocksWorldBuzzle/MainWindow.xaml.cs:645-674 | the row-major sum, over the counted tiles not in place, of their distance to the target cell holding the same tile |
| Evaluator.DistanceExceptTileG | BlocksWorldBuzzle/MainWindow.xaml.cs:645-674 | the result is the letters' summed displacement |
| Evaluator.LettersDisplacementZeroIff | BlocksWorldBuzzle/MainWindow.xaml.cs:645-674 | between states with the same tiles the letters' displacement is zero exactly when every letter is where the other state has it |
| Evaluator.HeuristicValue | BlocksWorldBuzzle/MainWindow.xaml.cs:936-972 | the result is the summed displacement of the letters and the agent from the goal |
| Evaluator.HeuristicZeroIff | BlocksWorldBuzzle/MainWindow.xaml.cs:936-972 | between well-formed states with the same tiles the heuristic is zero exactly at the goal |
| Evaluator.AdjacentStates | BlocksWorldBuzzle/MainWindow.xaml.cs:493-541 | the result is the adjacency decision: equal states are not adjacent, an agent distance or letter displacement above 1 rejects, a lone agent step accepts, and an agent-letter swap is checked cell by cell |
| Evaluator.AdjacentIffOneMove | BlocksWorldBuzzle/MainWindow.xaml.cs:493-541 | between well-formed states with the same tiles, adjacency holds exactly when the second arises from the first by swapping the agent with a horizontal or vertical neighbour |
| Evaluator.AdjacentSymmetric | BlocksWorldBuzzle/MainWindow.xaml.cs:493-541 | adjacency between such states is symmetric |
| Evaluator.MoveKeepsTiles | BlocksWorldBuzzle/MainWindow.xaml.cs:493-541 | a move keeps a state well formed and keeps its tiles |
| Pool.DataPermutations | BlocksWorldBuzzle/MainWindow.xaml.cs:548-575 | the result is the placements of the tile into each empty cell of each input state, input by input, in row-major order |
| Pool.PermutationsMembership | BlocksWorldBuzzle/MainWindow.xaml.cs:548-575 | a state is generated exactly when it is an input state with one empty cell set to the tile |
| Pool.PermutationsCount | BlocksWorldBuzzle/MainWindow.xaml.cs:548-575 | as many states are generated as the inputs have empty cells |
| Pool.PermutationsDistinct | BlocksWorldBuzzle/MainWindow.xaml.cs:548-575 | from distinct inputs without the tile, no generated state repeats |
| Puzzle.AsWrittenPoolSize | BlocksWorldBuzzle/MainWindow.xaml.cs:251-258 | the pool the window builds has 240 states |
| Puzzle.AsWrittenPoolLetters | BlocksWorldBuzzle/MainWindow.xaml.cs:258 | no state of that pool holds b or c |
| Puzzle.AsWrittenGoalUnreachable | BlocksWorldBuzzle/MainWindow.xaml.cs:258 | the goal is not in that pool, is in no breadth-first level, and no walk of any length reaches it |
| Puzzle.AsWrittenNoSolution | BlocksWorldBuzzle/MainWindow.xaml.cs:258 | for every length k, no walk of length k from the initial state reaches the goal |
| Puzzle.AsWrittenPoolFits | BlocksWorldBuzzle/MainWindow.xaml.cs:258 | every state of that pool has the initial state's shape and holds the agent |
| Puzzle.AsWrittenPoolDistinct | BlocksWorldBuzzle/MainWindow.xaml.cs:258 | that pool repeats no state |
| Puzzle.FullPoolSize | BlocksWorldBuzzle/MainWindow.xaml.cs:548-575 | placing all four tiles gives 16 * 15 * 14 * 13 = 43680 states |
| Puzzle.FullPoolHoldsGoal | BlocksWorldBuzzle/MainWindow.xaml.cs:239-245 | the pool with all four tiles holds the goal |
| Puzzle.FullPoolFits | BlocksWorldBuzzle/MainWindow.xaml.cs:548-575 | every state of the full pool has the board's shape and holds the agent |
| Puzzle.FullPoolDistinct | BlocksWorldBuzzle/MainWindow.xaml.cs:548-575 | the full pool repeats no state |
| Expansion.ChildStatesMembership | BlocksWorldBuzzle/MainWindow.xaml.cs:681-685 | the children of a state are exactly the pool states adjacent to it |
| Expansion.ChildStatesDistinct | BlocksWorldBuzzle/MainWindow.xaml.cs:681-685 | a pool without repetition gives children without repetition |
| Expansion.ChildStatesAreMoves | BlocksWorldBuzzle/MainWindow.xaml.cs:681-685 | over a pool of well-formed states with the same tiles, the children are exactly the pool states one agent move away |
| Expansion.PossibleChildStatesMembership | BlocksWorldBuzzle/MainWindow.xaml.cs:583-601 | over a pool without repetition, the possible children are the adjacent pool states that no ancestor holds, without repetition, in pool order |
| Expansion.LevelFits | BlocksWorldBuzzle/MainWindow.xaml.cs:832-847 | every state of every breadth-first level has the initial state's shape and holds the agent |
| Levels.LevelIffWalk | BlocksWorldBuzzle/MainWindow.xaml.cs:832-847 | a state is in level k exactly when some walk of k steps from the initial state ends at it |
| Levels.LevelsAreWalks | BlocksWorldBuzzle/MainWindow.xaml.cs:832-847 | every state of level k ends a walk of k steps |
| Levels.WalksAreLevels | BlocksWorldBuzzle/MainWindow.xaml.cs:832-847 | the end of every walk from the initial state is in the level of its length |
| Levels.Shortest | BlocksWorldBuzzle/MainWindow.xaml.cs:832-850 | a state absent from the levels below k ends no shorter walk |
| Levels.LevelsWithin | BlocksWorldBuzzle/MainWindow.xaml.cs:832-847 | a set holding the initial state and closed under successors holds every state of every breadth-first level |
| Tree.Node.constructor | BlocksWorldBuzzle/Model/Node.cs:12-22 | a new node holds its state and parent, is unvisited, has no children, and sits one below its parent |
| Tree.Node.ToString | BlocksWorldBuzzle/Model/Node.cs:24-27 | fifteen characters: the four cells of the top-left 2x2 block in row-major order, each between single quotes, separated by single spaces |
| Tree.Node.AncestorStates | BlocksWorldBuzzle/MainWindow.xaml.cs:589-598 | the states of the parent chain, nearest first, one per ancestor |
| Tree.Acyclic | BlocksWorldBuzzle/Model/Node.cs:5-29 | no node is its own ancestor, and the chain ends at a node without parent |
| Tree.SimpleDistinct | BlocksWorldBuzzle/MainWindow.xaml.cs:583-601 | on a chain that repeats no state, the node's and all ancestors' states are pairwise different |
| Tree.FirstUnvisited | BlocksWorldBuzzle/MainWindow.xaml.cs:793-797 | null exactly when every child is visited, otherwise the first unvisited child |
| Tree.NewChildren | BlocksWorldBuzzle/MainWindow.xaml.cs:749 | one fresh, unvisited, childless node per state, in order, each with the given parent |
| Search.FindIndex | BlocksWorldBuzzle/MainWindow.xaml.cs:592 | the first index of the list holding the target, or -1 |
| Search.CountStates | BlocksWorldBuzzle/MainWindow.xaml.cs:832 | how many nodes of the level hold the target |
| Search.FirstWithState | BlocksWorldBuzzle/MainWindow.xaml.cs:850 | null exactly when no node holds the target, otherwise the first node that does |
| Search.Engine.Initialize | BlocksWorldBuzzle/MainWindow.xaml.cs:226-260 | the corrected configuration: the fixed start and goal, the goal's cell list, a pool of all four tiles that holds the goal; the bound is 1, the game stopped, the counters zero |
| Search.Engine.InitializeAsWritten | BlocksWorldBuzzle/MainWindow.xaml.cs:226-260 | the configuration as written: the pool of agent and a only, which lacks the goal, so no walk of any length reaches it |
| Search.Engine.ButtonStartClick | BlocksWorldBuzzle/MainWindow.xaml.cs:100-126 | stopped becomes started, started becomes paused, paused becomes started |
| Search.Engine.Reset | BlocksWorldBuzzle/MainWindow.xaml.cs:329-352 | the game is stopped and both counters are zero |
| Search.Engine.ButtonResetClick | BlocksWorldBuzzle/MainWindow.xaml.cs:133-146 | a started or paused game is reset; a stopped one is left unchanged |
| Search.Engine.RadioButtonClick | BlocksWorldBuzzle/MainWindow.xaml.cs:153-159 | the chosen search becomes the search type |
| Search.Engine.ButtonNumericUpClick | BlocksWorldBuzzle/MainWindow.xaml.cs:166-174 | the bound rises by one while below the maximum less one, otherwise stays; it stays in range |
| Search.Engine.ButtonNumericDownClick | BlocksWorldBuzzle/MainWindow.xaml.cs:181-189 | the bound falls by one while above the minimum, otherwise stays; it stays in range |
| Search.Engine.TextBoxNumericTextChanged | BlocksWorldBuzzle/MainWindow.xaml.cs:196-207 | a number in [0, 100000] becomes the bound; anything else leaves it unchanged |
| Search.Engine.AllPossibleChildren | BlocksWorldBuzzle/MainWindow.xaml.cs:681-685 | the pool states adjacent to the state, in pool order |
| Search.Engine.PossibleChildren | BlocksWorldBuzzle/MainWindow.xaml.cs:583-601 | the children less the first copy of each ancestor's state, parent first |
| Search.Engine.ReachedWalk | BlocksWorldBuzzle/MainWindow.xaml.cs:725-776 | the chain down to a reached node is a walk from the initial state as long as the node is deep |
| Search.Engine.ChainBound | BlocksWorldBuzzle/MainWindow.xaml.cs:883-929 | a reached chain that repeats no state is no deeper than the pool is long |
| Search.Engine.DepthFirstStepUp | BlocksWorldBuzzle/MainWindow.xaml.cs:784-802 | null exactly when every ancestor's children are all visited; otherwise the first unvisited child of the nearest ancestor that has one |
| Search.Engine.StepUpResult | BlocksWorldBuzzle/MainWindow.xaml.cs:784-802 | in a search tree, a null step up means every node is visited; otherwise the step goes to the next node to examine |
| Search.Engine.ExhaustedChild | BlocksWorldBuzzle/MainWindow.xaml.cs:583-601 | in a tree whose nodes are all visited, every child state of a node is held by a node of the tree: the node, an ancestor, or the child it was expanded with |
| Search.Engine.ExhaustedClosed | BlocksWorldBuzzle/MainWindow.xaml.cs:759-763 | the states of such a tree include the initial state and are closed under taking children |
| Search.Engine.ExhaustedUnreachable | BlocksWorldBuzzle/MainWindow.xaml.cs:759-763 | when the search throws because the step up found nothing, no walk of any length from the initial state reaches the goal |
| Search.Engine.DepthFirstStep | BlocksWorldBuzzle/MainWindow.xaml.cs:733-764 | one pass of the loop body keeps the search tree and marks the current node visited; it gains children exactly when it expands, and the next node is then its first child; otherwise the next node is DepthFirstStepUp of the current node, null only when every node is visited; one node counted, the level counter up by one on an expansion and down by one at a dead end |
| Search.Engine.Expand | BlocksWorldBuzzle/MainWindow.xaml.cs:744-753 | marks the node visited, attaches one node per possible child in order, and the next node is the first of them (Children[0]), a node to examine; counts a node and a level, and keeps the search tree |
| Search.Engine.DeadEnd | BlocksWorldBuzzle/MainWindow.xaml.cs:755-764 | marks a dead end visited, counts a node, takes one from the level counter, and the next node is DepthFirstStepUp of the dead end, keeping the search tree; that node is one to examine, and null only when every node is visited |
| Search.Engine.DepthFirst | BlocksWorldBuzzle/MainWindow.xaml.cs:725-776 | the search keeps its tree; a reported solution is the goal reached by a walk of its depth; no solution only when the bound stopped it; a throw only when every node is visited, and then no walk of any length reaches the goal; the node counter grows by one per pass plus the root, and the level counter moves by the expansions less the dead ends |
| Search.Engine.Conclude | BlocksWorldBuzzle/MainWindow.xaml.cs:767-775 | a solution exactly when the current node holds the goal, and then a walk reaches it |
| Search.Engine.NextLevel | BlocksWorldBuzzle/MainWindow.xaml.cs:836-846 | the nodes of level k + 1 from those of level k, each ending a reached chain of depth k + 1, counting one node each |
| Search.Engine.BreadthFirstStep | BlocksWorldBuzzle/MainWindow.xaml.cs:832-846 | one pass of the loop: one level counted, the next level built, and its goal nodes counted |
| Search.Engine.Deepen | BlocksWorldBuzzle/MainWindow.xaml.cs:832-847 | the loop stops at its first level holding the goal or at a positive bound; no earlier level held the goal; the counters grow by the levels and their nodes |
| Search.Engine.ConcludeLevel | BlocksWorldBuzzle/MainWindow.xaml.cs:850-858 | a solution exactly when the level holds the goal, then the first such node, at the shortest walk length |
| Search.Engine.BreadthFirst | BlocksWorldBuzzle/MainWindow.xaml.cs:817-860 | a negative bound throws and changes nothing; otherwise the last level is the k-th breadth-first level, the counters grow by k levels and their nodes, a reported goal is the first goal node of the first level holding it, at the shortest walk length, and no solution means the bound stopped the search |
| Search.Engine.GreedyIndexMinimal | BlocksWorldBuzzle/MainWindow.xaml.cs:915-917 | the chosen child has the least heuristic value, and every earlier child a larger one |
| Search.Engine.HeuristicValues | BlocksWorldBuzzle/MainWindow.xaml.cs:907-911 | a new array of the heuristic values of the children, in order |
| Search.Engine.HeuristicStep | BlocksWorldBuzzle/MainWindow.xaml.cs:893-917 | counts a node and a level; null exactly at a dead end, otherwise a freshly created node for the first child of least heuristic value, below the current node, extending a chain that repeats no state |
| Search.Engine.Heuristic | BlocksWorldBuzzle/MainWindow.xaml.cs:883-929 | the search ends within as many moves as the pool has states; a solution exactly when the last node holds the goal, reached by a walk of its depth; otherwise the last node has no possible child; one node and one level counted per round |
| Search.Engine.IterativeDeepeningDF | BlocksWorldBuzzle/MainWindow.xaml.cs:866-869 | a single depth-first search bounded by the depth bound, with that search's guarantees, including that a throw means no walk reaches the goal |
| Search.Engine.IterativeDeepeningBF | BlocksWorldBuzzle/MainWindow.xaml.cs:875-878 | a single breadth-first search bounded by the depth bound, with that search's guarantees |

## Left out

- The window's threads, the periodic counter display (UpdateInfo, UpdateInfoInvoker), the solution printing (PrintSolution, PrintSolutionNotFound, FormatNodeData) and SearchFinished are user-interface work. They change no state the searches read.
- Start, Resume and Pause start, resume and suspend the search thread. Start also runs the chosen search on that thread, beside the controls. ButtonStartClick models only the game-state change; each search is a method of its own, and the concurrency is not modelled.
- Window_Closing only aborts threads.
- DummySearch is left out. It is a busy loop on `decimal` values that only raises the counters, with no search in it; it is there to exercise the threads.
- The zero-argument DepthFirst() and BreadthFirst() are the bounded calls with bound 0, so they are not modelled separately.
- RadioButtonClick does not model reading the search type from the sender's tag; the choice is its parameter.
- TextBoxNumericTextChanged does not model parsing the text or rewriting the text box; the parse result is an `Option` parameter.
- Level.cs only wraps an array of nodes. Each level is a `seq<Node>`.
- The `nodes` and `levels` counters are 64-bit `long` in the source. The model uses unbounded integers, because no search here comes near 2^63.
- Search.Engine.DepthFirst: the step bound `fuel` is not in the source, whose loop is unbounded. OutOfFuel is the only outcome the fuel adds. Termination of the unbounded loop is not proved.
- Search.Engine.BreadthFirst: the level bound `fuel` is not in the source. The unbounded search never stops when no level holds the goal (for instance when the pool is empty or lacks the goal), because the loop's guard tests only the goal count and the bound, and an empty level stays empty.
- Search.Engine.DepthFirst: a reported solution is shown to be the goal and reachable, but not shortest. Depth-first search does not promise a shortest path.
- Search.Engine.DepthFirstStep: it asks PossibleChildren before it marks the node visited, while the source marks first. PossibleChildren reads no visited flag, so the order changes nothing.
- Search.Engine.Heuristic: the source builds its nodes without attaching them as children, and so does the model. The `last` node and the `rounds` count are ghost.

## Findings

| source | as written | input that shows it | evidently intended | confidence | as-written member | corrected member |
|---|---|---|---|---|---|---|
| BlocksWorldBuzzle/MainWindow.xaml.cs:258 | the pool places only the agent and `a` into the empty board, giving 240 states without `b` or `c` | the fixed initial and goal states: the goal holds `b` and `c`, so it is in no pool state and no search can find it | place all four tiles, giving 43680 states that include the goal | not executed | Search.Engine.InitializeAsWritten | Search.Engine.Initialize |
