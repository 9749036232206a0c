# snake-algorithms, modelled in Dafny

A model of the snake simulator and its move-selection strategies.

The game runs on a `width x height` grid. A snake is a chain of cells from the
tail to the head. A dense board (`board[y, x]`) holds 0 for empty, 1 for body,
5 for the head and 9 for food, and is kept in lockstep with the snake. Food
appears on a cell that is neither body nor head. The game is over after an
illegal move, or once the snake is `width * height - 1` cells long.

All four strategies rest on one fixed Hamiltonian walk of the grid:

- The walk goes down column 0, steps into `(1, height-1)`, then sweeps
  columns `1..width-1` row by row, bottom to top.
- The walk closes into a cycle when the height is even, or when there are two
  columns.
- Each cell's index on the walk is its *order*.

The strategies:

- **trivial** always follows the cycle.
- **greedy** takes the legal shortcut that gains the most cycle distance towards
  the food, as long as it does not overtake the tail.
- **random** takes the first legal direction in a shuffled order that moves
  forward, does not overtake the tail and does not skip past the food.
- **shortest-path** blocks, on a copy of the board, every cell whose order
  breaks those two rules. It then builds a unit-weight 4-neighbour graph, asks
  a planner for a route to the food and follows it.

Every strategy falls back to the cycle when it has no better move.

## Modules

- `grid.dfy` (`Grid`): cells, directions, unit offsets, 4-adjacency, the failures
  the source raises (`Result`/`Option`), and counting facts about grid cells.
- `arith.dfy` (`Arithmetic`): division and modulo facts used by the cycle proofs.
- `game.dfy` (`Game`): the classes `Snake` (its body as a sequence of cells,
  tail first) and `SnakeGame` (a board `array2<int>`, counters and the food
  cell). `Valid()` is the invariant every operation keeps: the board shows
  exactly the snake and the food.
- `hamiltonian.dfy` (`Hamiltonian`): the walk in closed form (`CycleAt`, `OrderOf`)
  and the loops that build it (`InitCycle`, `InitPositionMap`), proved equal;
  also `ClosingCycleAt`, a corrected walk that closes on every grid with an
  even side (see Findings).
- `ordering.dfy` (`Ordering`): the order predicates, each tied to circular
  distance along the cycle.
- `strategy.dfy` (`Strategy`): the per-turn snapshot, the cycle successor, the
  cycle fallback, and the move that ends each turn.
- `greedy.dfy`, `random_strategy.dfy`, `trivial.dfy`, `shortest_path.dfy`: one
  module per strategy, each with its per-turn choice and its `run` loop.

The shortest-path planner (Dijkstra's algorithm in `snake.algorithms.djikstra`)
is not part of this model. It is a function parameter from the graph, the head
and the food to an optional route; `None` stands for the `KeyError` the source
catches. Randomness is an input:

- `random.shuffle` of the four directions becomes one order per turn.
- `random.choice` of the food cell becomes an arbitrary choice (`:|`).

The float gate `length > max_length * length_cutoff` becomes an integer
`lengthLimit`, the largest length not above the product. For integer lengths
the two tests agree.

Where no legal direction reaches the cycle successor, the source's fallback
loops (greedy, random, shortest-path) have no `else`. Their loop variable then
keeps the last legal direction, and the snake plays it. The model follows the
code here, not the "move along the cycle" description:

- `CycleFallback` returns that last legal direction.
- With no legal direction at all, every direction loses, so `Played` plays
  `Leftover` (any fixed direction).

The source raises in four places, and the model returns an error for each:

- `spawn_food` finds no free cell: `Err(NoEmptyCell)`.
- No single step reaches the next cell of the cycle or of the plan:
  `Err(DirectionNotFound(cell))`.
- The planner returns an empty route: `Err(EmptyPlan)`.
- The head is missing from the cycle: `Err(HeadNotInCycle)`.

## Model

| member | source | states |
|---|---|---|
| Grid.Offset | snake/game.py:138-148 | the target is a 4-neighbour of the head, displaced by the direction's unit vector (UP (0,-1), RIGHT (+1,0), DOWN (0,+1), LEFT (-1,0)), with no clamping |
| Grid.OffsetBijective | snake/game.py:138-148 | the four directions reach four different cells, and every 4-neighbour is reached by one of them |
| Grid.FirstReaching | snake/solutions/trivial.py:26-30 | the first direction of the list that reaches the target, or none exactly when no direction of the list does |
| Grid.FirstReachingAll | snake/solutions/shortest_path.py:167-173 | searching all four directions fails exactly when the target is not a 4-neighbour |
| Grid.KeepsOrderCons | snake/solutions/greedy.py:94-95 | keeping or dropping the first element in front of an order-keeping selection of the rest keeps the order: the step of a list comprehension with a filter |
| Grid.PermutationHoldsAll | snake/solutions/random.py:102-103 | a shuffle of the four directions still holds every direction |
| Grid.FreeCellExists | snake/game.py:112-118 | a body shorter than the grid leaves a cell for the food |
| Grid.NoFreeCell | snake/game.py:112-118 | a body as large as the grid covers every cell, so there is no candidate |
| Game.Snake.constructor | snake/game.py:42-44 | a new snake is one cell that is both head and tail |
| Game.Snake.MoveBodyForward | snake/game.py:46-52 | each segment, from the tail up, takes its parent's old position: the body loses its tail cell and the old head is duplicated |
| Game.Snake.Move | snake/game.py:54-66 | the body shifts one step and the head lands on the offset cell; returns the vacated tail cell and the new head |
| Game.Snake.NewHead | snake/game.py:68-71 | a new head cell is appended; no other cell moves |
| Game.ShiftExpected | snake/game.py:185-189 | after a shift only the new head (HEAD), the old tail (0) and the old head (BODY) change code; a head that steps onto the old tail shows HEAD |
| Game.GrowExpected | snake/game.py:174-182 | after eating, the food cell shows HEAD and the old head BODY; nothing else changes |
| Game.SpawnExpected | snake/game.py:118-120 | placing the food changes only the chosen cell |
| Game.InitialHeadIndex | snake/game.py:93-97 | the board index marked at start-up is (row height//2, column width//2): the snake's own cell, inside the board |
| Game.InitialHeadIndexSquare | snake/game.py:96 | on a square grid the index the source writes is the snake's cell |
| Game.InitialHeadIndexAsWritten | snake/game.py:96 | the index the source writes, (width // 2, height // 2) as (row, column); what it gets wrong is stated by `Game.InitialHeadIndexAsWrittenMisplaced`, where it is right by `Game.InitialHeadIndexSquare` |
| Game.InitialHeadIndexAsWrittenMisplaced | snake/game.py:96 | `board[start_x, start_y]` marks the wrong cell on a 6 x 4 grid and leaves the board on a 4 x 2 grid |
| Game.SnakeGame.PotentialPosition | snake/game.py:138-148 | the cell one step from the head, next to it |
| Game.SnakeGame.CheckValid | snake/game.py:122-136 | a move is legal exactly when it stays on the board and does not hit the body, except the tail of a snake longer than two |
| Game.SnakeGame.ValidAmong | snake/solutions/greedy.py:94-95 | the legal directions of the order given, and no others, kept in the order given |
| Game.SameLegalMoves | snake/game.py:122-136 | legality depends only on the body and the length: a state with the same body and length has the same legal moves, and is stuck exactly when the old one was |
| Game.SnakeGame.SpawnFood | snake/game.py:112-120 | food lands on a cell that was neither body nor head, and only that cell changes; it fails (the error `random.choice` raises) exactly when no such cell exists, and then nothing changes |
| Game.SnakeGame.constructor | snake/game.py:81-106 | a one-cell snake in the middle, food elsewhere, `max_length = width*height-1`, zero moves, and the invariant holds |
| Game.SnakeGame.MakeMove | snake/game.py:170-198 | illegal: nothing changes and the game is over. Eating below `max_length`: the body grows by the food cell and the length by one. Eating at `max_length`: the body grows but no food cell is left, the `spawn_food` error. Otherwise: the body shifts. The invariant holds whenever no error is raised, the result is true once the length reaches `max_length`, and every such call counts one move |
| Game.SnakeGame.Grow | snake/game.py:174-182 | the old head becomes body and the food cell the new head: the body is the old one plus the food cell, still distinct and on the grid, and the board shows exactly it |
| Game.SnakeGame.Eat | snake/game.py:174-184 | eating appends the food cell as head; the food respawns exactly when the snake was below `max_length`, and only then does the length grow |
| Game.SnakeGame.Shift | snake/game.py:174-189 | a non-food move shifts the body onto the target and keeps the board consistent |
| Hamiltonian.CycleAtInGrid | snake/algorithms/hamiltonian.py:10-26 | every step of the walk is on the grid; after the first `height` steps down column 0 it stays in columns 1..width-1 |
| Hamiltonian.OrderOfRange | snake/algorithms/hamiltonian.py:28-35 | every grid cell has an order in [0, width*height) |
| Hamiltonian.OrderOfCycleAt | snake/algorithms/hamiltonian.py:10-35 | the order of the i-th cell is i: no cell is visited twice |
| Hamiltonian.CycleAtOrderOf | snake/algorithms/hamiltonian.py:10-35 | the cell at a cell's order is that cell: every cell is visited |
| Hamiltonian.BandStep | snake/algorithms/hamiltonian.py:17-24 | each sweep step either moves one cell along its row band or, at the band's end, starts the next band at its first cell |
| Hamiltonian.CycleStep | snake/algorithms/hamiltonian.py:17-24 | one loop step: continue along the row while inside columns 1..width-1, else step up a row and reverse |
| Hamiltonian.CycleAdjacent | snake/algorithms/hamiltonian.py:10-26 | consecutive cells of the walk are 4-neighbours |
| Hamiltonian.CycleClosedForEvenHeight | snake/algorithms/hamiltonian.py:10-26 | with an even height the walk ends at (1, 0), next to its start (0, 0) |
| Hamiltonian.CycleEndForOddHeight | snake/algorithms/hamiltonian.py:10-26 | with an odd height the walk ends at (width-1, 0) |
| Hamiltonian.CycleSuccessorAdjacent | snake/algorithms/hamiltonian.py:10-26 | each cell is next to its successor mod width*height, except the last cell with odd height and more than two columns, which is not |
| Hamiltonian.WalkPrefixExtends | snake/algorithms/hamiltonian.py:17-24 | one pass of the sweep loop appends the next cell of the walk and keeps the row direction in step |
| Hamiltonian.InitCycle | snake/algorithms/hamiltonian.py:10-26 | the loop builds width*height cells, equal to the closed-form walk; it starts (0,0)..(0,height-1), (1,height-1); for width 1 it ends off the grid |
| Hamiltonian.InitPositionMap | snake/algorithms/hamiltonian.py:28-32 | every listed cell maps to the index of its last occurrence |
| Hamiltonian.NewHamiltonianCycle | snake/algorithms/hamiltonian.py:5-8 | the constructed cycle is well formed: the closed-form walk and its inverse index over exactly the grid cells |
| Hamiltonian.GetPositionOrder | snake/algorithms/hamiltonian.py:34-35 | a lookup succeeds exactly for grid cells and returns the index at which the cycle holds the cell; other cells are the `KeyError` |
| Hamiltonian.PositionOrderRoundTrip | snake/algorithms/hamiltonian.py:28-35 | the order of `cycle[i]` is `i` |
| Hamiltonian.ClosingCycleStep | snake/algorithms/hamiltonian.py:10-26 | the corrected walk: on a grid with an even side every step is on the grid and next to the following step, the last to the first |
| Hamiltonian.ClosingCycleVisitsOnce | snake/algorithms/hamiltonian.py:10-26 | the corrected walk visits no cell twice |
| Hamiltonian.ClosingCycleCovers | snake/algorithms/hamiltonian.py:10-26 | the corrected walk visits every grid cell |
| Hamiltonian.OddHeightWalkOpen | snake/algorithms/hamiltonian.py:10-26 | on a 4 x 3 grid the walk ends at (3, 0), not next to its start (0, 0), while the corrected walk closes |
| Hamiltonian.ClosingSuccessorAdjacent | snake/algorithms/hamiltonian.py:10-26 | on a closing walk every cell is next to its successor, the last to the first |
| Hamiltonian.CycleIsPermutation | snake/algorithms/hamiltonian.py:10-26 | the cycle lists every grid cell exactly once |
| Ordering.IsValidOrder | snake/solutions/greedy.py:11-38 | the tail test branch for branch (the same code is `is_valid_order` in shortest_path.py and `not_overtake_tail` in random.py); its meaning is stated by `Ordering.IsValidOrderCircular` |
| Ordering.IsValidOrderCircular | snake/solutions/greedy.py:11-38 | the tail test passes exactly when head and tail coincide, or the cell is strictly inside the free arc from head to tail with at least `room_left` steps before the tail |
| Ordering.IsValidOrderMonotone | snake/solutions/random.py:12-35 | asking for less room never rejects a cell that passed with more |
| Ordering.AdmissibleRoomBounds | snake/solutions/greedy.py:24-38 | when head and tail differ, an admitted cell is neither, and its room lies in [max(1, room_left), n-1] |
| Ordering.IsValidOrderZeroRoom | snake/solutions/greedy.py:11-38 | with no room required the test admits exactly the cells strictly inside the free arc |
| Ordering.ShortcutGain | snake/solutions/greedy.py:41-67 | the gain branch for branch, the tail ignored; its meaning is stated by `Ordering.ShortcutGainCircular` |
| Ordering.ShortcutGainCircular | snake/solutions/greedy.py:41-67 | the gain is (food-head) mod n minus (food-cell) mod n, both in [0, n), so it lies in (-n, n); the tail is ignored |
| Ordering.ShortcutGainOfHeadAndSuccessor | snake/solutions/random.py:50-76 | staying on the head gains 0; the cycle successor gains exactly 1 when the head is not on the food |
| Ordering.PositiveMove | snake/solutions/random.py:38-47 | the forward test branch for branch; its meaning is stated by `Ordering.PositiveMoveCircular` |
| Ordering.PositiveMoveSuccessor | snake/solutions/random.py:44-47 | the cycle successor of the head is a positive move |
| Ordering.PositiveMoveCircular | snake/solutions/random.py:38-47 | a positive move is a forward step that does not pass order 0, or the single step from the last order to 0 |
| Ordering.NotOvertakeFood | snake/solutions/random.py:79-87 | a positive gain; its meaning is stated by `Ordering.NotOvertakeFoodArc` |
| Ordering.NotOvertakeFoodArc | snake/solutions/random.py:79-87 | the food test passes exactly when the cell is on the forward arc from the head (excluded) to the food (included) |
| Strategy.Observe | snake/solutions/random.py:102-108 | the snapshot holds the head, tail, food, length and exactly the legal directions of the given order, kept in that order; its cells are on the grid, the food is off the head, head == tail exactly at length 1, and every legal direction stays on the grid |
| Strategy.Order | snake/algorithms/hamiltonian.py:34-35 | the order of a grid cell is an index holding that cell |
| Strategy.NextOnCycle | snake/solutions/greedy.py:130-132 | the successor's order is the head's order plus one, mod n |
| Strategy.NextOnCycleAdjacent | snake/solutions/greedy.py:130-132 | the successor is one step away except at the open end of an odd-height grid wider than two, where it is not |
| Strategy.CycleFallback | snake/solutions/greedy.py:133-136 | the legal direction reaching the successor if any; otherwise the last legal direction, which the loop variable keeps; none when nothing is legal |
| Strategy.Played | snake/solutions/greedy.py:133-155 | the direction played is the chosen one; with no legal direction, a fixed leftover one |
| Strategy.Move | snake/solutions/greedy.py:155 | a legal direction moves the head where it points and the game then ends only at `max_length`; an illegal one ends the game and leaves the body, length and food as they were; below `max_length` the move never fails (the only error is eating the last free cell), each move without error counts one move, and `Ok(false)` leaves the snake below `max_length` |
| Strategy.Play | snake/solutions/greedy.py:155 | a legal choice moves the head where it points and the game then ends only at `max_length`; with no legal direction the game ends and the snake stays stuck; below `max_length` the move never fails, and `Ok(false)` leaves the snake below `max_length` |
| Strategy.NoValidIsStuck | snake/solutions/greedy.py:94-95 | no legal direction in an order holding all four means no direction is legal |
| Greedy.GainOf | snake/solutions/greedy.py:101-103 | the gain of a legal direction is how many fewer forward steps along the cycle its cell needs to reach the food than the head needs, in (-n, n) |
| Greedy.KeepsOrderConsShortcut | snake/solutions/greedy.py:100-105 | the same step for the directions of a list of shortcuts |
| Greedy.Candidates | snake/solutions/greedy.py:100-105 | exactly the legal directions whose gain exceeds the cutoff, with their gains, in the order of the directions given |
| Greedy.InsertByGain | snake/solutions/greedy.py:106 | insertion keeps the elements and adds one |
| Greedy.InsertByGainSorted | snake/solutions/greedy.py:106 | insertion keeps the list sorted by descending gain |
| Greedy.SortByGainDesc | snake/solutions/greedy.py:106 | the sort is a permutation sorted by descending gain |
| Greedy.FirstIn | snake/solutions/greedy.py:109-127 | the first shortcut that passes the checks: it passes, and every earlier one fails; none exactly when none passes |
| Greedy.BestIn | snake/solutions/greedy.py:106-127 | reference choice: the earliest passing shortcut of largest gain, or none when none passes |
| Greedy.FirstInInsert | snake/solutions/greedy.py:106-127 | inserting into a sorted list changes the first passing element only when the new one passes and gains at least as much |
| Greedy.FirstInSorted | snake/solutions/greedy.py:106-127 | the first passing element of the stable descending sort is the reference choice: ties keep up, right, down, left order |
| Greedy.GreedyChoice | snake/solutions/greedy.py:99-136 | the move is the reference best passing shortcut, or the cycle fallback when none passes; it is always legal, and there is none exactly when no direction is legal |
| Greedy.GreedyChoiceBest | snake/solutions/greedy.py:99-127 | when a shortcut passes, the move passes and gains at least as much as any passing shortcut |
| Greedy.GreedyChoiceFallback | snake/solutions/greedy.py:128-136 | when no shortcut passes (or the snake is over the length limit), the move is the cycle fallback |
| Greedy.AdmittedStaysBehindTail | snake/solutions/greedy.py:113-124 | from length 2 an admitted move stays strictly inside the free arc before the tail, leaving `room_left` |
| Greedy.Turn | snake/solutions/greedy.py:93-158 | the turn plays the greedy choice of the snapshot: with a legal direction the head lands where the choice points and the game ends only at `max_length`; with none the game ends stuck; below `max_length` the turn never fails; every move without error counts one move |
| Greedy.Run | snake/solutions/greedy.py:86-160 | turn after turn as `Greedy.Turn`: the game invariant holds while the run goes on, a run that starts below `max_length` never fails, `Ok(false)` comes after exactly `turns` moves, and `Ok(true)` means the snake reached `max_length` or has no legal move |
| RandomStrategy.FirstAccepted | snake/solutions/random.py:110-132 | the earliest direction of the order that passes every check, or none when none passes |
| RandomStrategy.RandomChoice | snake/solutions/random.py:100-140 | the first accepted legal direction of the shuffled order, or else the cycle fallback; always legal, and none exactly when no direction is legal |
| RandomStrategy.RandomShortSnakeTakesFirst | snake/solutions/random.py:110-116 | a one-cell snake below the limit takes the first legal direction; above it, the cycle fallback |
| RandomStrategy.AcceptedIsSafeShortcut | snake/solutions/random.py:110-132 | from length 2 an accepted move lands on the arc from head to food, strictly before the tail with `room_left` to spare, and moves forward without wrapping |
| RandomStrategy.Turn | snake/solutions/random.py:101-158 | the turn plays the random choice for the shuffled order: with a legal direction the head lands where the choice points and the game ends only at `max_length`; with none the game ends stuck; below `max_length` the turn never fails; every move without error counts one move |
| RandomStrategy.Run | snake/solutions/random.py:97-160 | with each order a permutation of the four directions, turn after turn as `RandomStrategy.Turn`: the invariant holds, a run that starts below `max_length` never fails, `Ok(false)` comes after one move per order, and `Ok(true)`, after at most that many, means the snake reached `max_length` or has no legal move |
| Trivial.FindCycleIndex | snake/solutions/trivial.py:12-18 | the first index holding the head, or the error exactly when the head is absent |
| Trivial.TrivialAction | snake/solutions/trivial.py:23-30 | a direction exists exactly when the next cycle cell is adjacent, and it reaches that cell; otherwise the `ValueError` |
| Trivial.TrivialStuckAtOddEnd | snake/solutions/trivial.py:24-30 | on an odd-height grid wider than two the last cell of the walk has no action |
| Trivial.FollowsSingle | snake/solutions/trivial.py:13-16 | a one-cell snake at the found index lies on the cycle |
| Trivial.FollowsLeavesNextFree | snake/solutions/trivial.py:24-25 | a body on the cycle behind the head, shorter than the cycle, never holds the next cycle cell |
| Trivial.FollowsShift | snake/game.py:185-189 | shifting onto the next cycle cell keeps the body on the cycle behind the head |
| Trivial.FollowsGrow | snake/game.py:179-184 | growing onto the next cycle cell keeps the body on the cycle behind the head |
| Trivial.Turn | snake/solutions/trivial.py:20-49 | the index advances mod n; a missing action is the `ValueError`; otherwise an illegal action ends the game, a legal one lands the head on the next cycle cell, and below `max_length` the move never fails; on a closing cycle with the body behind the head the move is legal, and the game ends only at `max_length` |
| Trivial.NextCellFree | snake/solutions/trivial.py:24-27 | on a closing cycle the next cell is on the grid, adjacent and free of the body |
| Trivial.SafeStep | snake/solutions/trivial.py:24-30 | on a closing cycle the trivial action exists and is a legal move |
| Trivial.Run | snake/solutions/trivial.py:9-51 | the run keeps the invariant. On a closing cycle, from one cell, it never errs and never dies: it ends only at `max_length` or when the budget runs out |
| ShortestPath.TailExcluded | snake/solutions/shortest_path.py:98-107 | the tail rule branch for branch; its meaning is stated by `ShortestPath.TailRuleIsValidOrder` and `ShortestPath.RulesKeepHead` |
| ShortestPath.FoodExcluded | snake/solutions/shortest_path.py:115-120 | the food rule branch for branch; its meaning is stated by `ShortestPath.FoodRuleNotOvertakeFood` and `ShortestPath.RulesKeepHead` |
| ShortestPath.RulesKeepHead | snake/solutions/shortest_path.py:98-120 | neither rule blocks the head; the tail rule never blocks the tail, the food rule never the food |
| ShortestPath.TailRuleIsValidOrder | snake/solutions/shortest_path.py:92-107 | away from head and tail, the tail rule blocks exactly what the tail test with no room rejects |
| ShortestPath.FoodRuleNotOvertakeFood | snake/solutions/shortest_path.py:109-120 | away from the head, the food rule blocks exactly the cells off the forward arc from head to food |
| ShortestPath.CopyBoard | snake/solutions/shortest_path.py:151 | a fresh board with the same cells |
| ShortestPath.MarkExcluded | snake/solutions/shortest_path.py:93-120 | a marking pass sets exactly the zero cells whose order the rule excludes; all other cells keep their code |
| ShortestPath.PreparedZeroIffOpen | snake/solutions/shortest_path.py:83-120 | a prepared cell is 0 exactly when it is the head, the food or free, and neither rule blocks it; non-zero cells are untouched |
| ShortestPath.OpenRespectsOrder | snake/solutions/shortest_path.py:83-120 | an open cell other than head and tail lies inside the free arc before the tail and on the arc to the food |
| ShortestPath.DeltaCell | snake/solutions/shortest_path.py:29-32 | each offset reaches a distinct 4-neighbour |
| ShortestPath.EmptyGraph | snake/solutions/shortest_path.py:15-20 | a key for every board cell, zero cells or not, each with no neighbours |
| ShortestPath.LinkFreeNeighbours | snake/solutions/shortest_path.py:29-37 | a free cell gets a unit edge to exactly its free in-bounds 4-neighbours |
| ShortestPath.ConvertToGraphDict | snake/solutions/shortest_path.py:12-43 | every cell is a key; an edge of weight 1 joins two cells exactly when both are free 4-neighbours, so edges are symmetric |
| ShortestPath.PrepareGraph | snake/solutions/shortest_path.py:76-126 | head and food cleared, then the tail rule (3) and the food rule (4) on zero cells, then the graph of the result |
| ShortestPath.PreparedEdgeIffOpen | snake/solutions/shortest_path.py:76-126 | for one pair of cells of the prepared board, an edge joins them exactly when both are open 4-neighbours |
| ShortestPath.PreparedGraphIsOpen | snake/solutions/shortest_path.py:76-126 | the prepared graph is the open graph of the original board: a key per cell, and a unit edge exactly between two open 4-neighbours |
| ShortestPath.Replan | snake/solutions/shortest_path.py:153-163 | no route leaves the plan empty; an empty route is the `pop(0)` error; otherwise the plan is the route without its first cell |
| ShortestPath.FollowPlan | snake/solutions/shortest_path.py:165-173 | a direction exists exactly when the next planned cell is adjacent; it reaches that cell and pops it; otherwise the `ValueError` |
| ShortestPath.WalkIsFollowed | snake/solutions/shortest_path.py:165-173 | a route of consecutive neighbours from the head is followed without error, and what is left is again such a route |
| ShortestPath.ReplanWalk | snake/solutions/shortest_path.py:154-163 | a planner that returns walks from the head never leaves an empty route to pop, and the route without its first cell is a walk from the head |
| ShortestPath.Plan | snake/solutions/shortest_path.py:144-163 | the plan is kept unless it is empty and the snake is within the limit; otherwise the planner is asked for a route from the head to the food over the open graph of the board, and the plan is that route without its first cell; the only error is the empty route |
| ShortestPath.PlanStep | snake/solutions/shortest_path.py:165-188 | with a plan, a direction exists exactly when its first cell is adjacent; it reaches that cell and pops it, and otherwise it is the `ValueError`; with no plan, the cycle fallback: a legal direction whenever there is one, reaching the cycle successor whenever a legal direction does and otherwise the last legal direction |
| ShortestPath.TakeStep | snake/solutions/shortest_path.py:165-210 | the move for a plan: the error of its step; otherwise the move never fails except when eating the last free cell, lands the head where a legal step points and ends the game only at `max_length`, or ends the game when the step is illegal; below `max_length` the move itself never fails |
| ShortestPath.Turn | snake/solutions/shortest_path.py:139-210 | a renewed plan comes from the planner run on the open graph of the board before the move; the turn then plays `ShortestPath.PlanStep` for the plan: a non-adjacent planned cell is the `ValueError`, a successful step never fails except when eating the last free cell, a legal step lands the head where it points and pops the plan, an illegal step ends the game, and with no plan the cycle fallback is played; when the planner returns walks from the head and the plan is a walk from the head, the turn raises no plan error and the plan left is again a walk from the new head |
| ShortestPath.Run | snake/solutions/shortest_path.py:135-212 | turn after turn as `ShortestPath.Turn`, carrying the plan: the game invariant holds while the run goes on, `Ok(false)` comes after exactly `turns` moves, `Ok(true)` comes after at least one move, a run that starts below `max_length` never fails in the game itself, and with a planner that returns walks from the head it never fails at all |

## Left out

- Printing, `display`, `visualize_cycle`, `time.sleep`, `main.py`, `manual.py` and `base.py`: they only render state or dispatch.
- The planner `find_shortest_path` and its `Graph` class are not part of this model: the planner is a parameter, and nothing is assumed about the routes it returns; the guarantees that need routes to be walks from the head (`ShortestPath.PlansWalks`) are stated under that condition.
- `random.seed`, `random.shuffle` and `random.choice`: an order parameter per turn and an arbitrary choice of the food cell.
- The float gate `length > max_length * length_cutoff`: an integer `lengthLimit`.
- The `starting_food=True` start-up (`initial_spawn_food`): it calls `make_move` before `max_length` and `move_count` exist and never sets `food_pos`.
- The 1 x 1 grid: the constructor requires two cells, where the source's `spawn_food` raises.
- Width 1: the strategies require at least two columns; `Hamiltonian.InitCycle` states that the source's list then ends with the off-grid cell (1, height-1).
- The `NameError` of a fallback loop when no direction has ever been legal: `Strategy.Played` plays `Leftover` instead, which loses just as any direction does.
- `SHORTCUT_GAIN_CUTOFF`: the module constants are never read by the strategies.
- `BodyNode` objects and their `parent` links: the body is a sequence of cells, tail first, so node aliasing is not modelled.
- Greedy.Run: runs for at most `turns` moves and does not prove that the strategy ever ends the game.
- RandomStrategy.Run: runs for as many turns as orders are given and does not prove termination.
- ShortestPath.Run: runs for at most `turns` moves and does not prove termination; what ends a game is stated per turn by `ShortestPath.Turn`, since a route of the planner may lead onto an illegal cell; with a planner whose routes are not walks from the head, the run may stop with a plan error (`EmptyPlan` or `DirectionNotFound`) at any turn.
- Trivial.Run: runs for at most `turns` moves; it proves the never-dies property only on closing cycles, since on an odd-height grid wider than two the last cycle cell has no action (`Trivial.TrivialStuckAtOddEnd`; see Findings).
- Hamiltonian.ClosingCycleAt: the corrected walk is proved a cycle, but the strategies keep the walk of `init_cycle`, since that is the walk the source plays; on odd heights their results are the ones stated for that walk.
- Game.SnakeGame.constructor: marks the head at the snake's cell, not at the swapped index the source writes (see Findings).

## Findings

| source | as written | input that shows it | evidently intended | confidence | as-written member | corrected member |
|---|---|---|---|---|---|---|
| snake/algorithms/hamiltonian.py:10-26 | with an odd height the sweep ends in the top-right corner (width-1, 0), so for an even width above two the walk is not a cycle, although a Hamiltonian cycle exists whenever one side is even; the trivial strategy then raises at that corner | width 4, height 3: the walk ends at (3, 0) and starts at (0, 0); `Trivial.TrivialAction` finds no direction there | a walk that closes whenever one side is even, such as the same sweep on the transposed grid | not executed | Hamiltonian.OddHeightWalkOpen | Hamiltonian.ClosingCycleStep |
| snake/game.py:96 | `board[start_x, start_y]` marks row `width // 2`, column `height // 2` as the head (modelled by `Game.InitialHeadIndexAsWritten`) | width 6, height 4: the snake starts at (3, 2) but row 3, column 2 is marked; width 4, height 2: row 2 does not exist | mark row `height // 2`, column `width // 2`, the snake's own cell, as `check_valid` and `make_move` index the board | not executed | Game.InitialHeadIndexAsWrittenMisplaced | Game.InitialHeadIndex |
