/**
 * The shortest-path strategy: on a copy of the board, block the cells whose
 * cycle order would let the head overtake the tail (code 3) or skip past the
 * food (code 4), turn the free cells into a unit-weight adjacency map, ask a
 * shortest-path planner for a route from the head to the food, and follow
 * it; without a route, follow the Hamiltonian cycle.
 *
 * The planner (Dijkstra's algorithm in the source) is a parameter of the
 * model: a function from the graph, the head and the food to a path, or to
 * `None` where the source catches a `KeyError`.
 */
module ShortestPath {
  import opened Grid
  import opened Arithmetic
  import opened Hamiltonian
  import opened Ordering
  import opened Game
  import opened Strategy

  /** `Dict[position, Dict[position, distance]]`: the neighbours of each cell with their edge weight. */
  type Graph = map<Cell, map<Cell, int>>

  /** Code for a cell blocked by the tail rule. */
  const TAIL_BLOCKED := 3
  /** Code for a cell blocked by the food rule. */
  const FOOD_BLOCKED := 4

  // ---------------------------------------------------------------------------
  // The two ordering rules

  /** The tail rule of `prepare_graph`: is the order `o` outside the stretch the head may run through? */
  function TailExcluded(o: int, headOrder: int, tailOrder: int): bool {
    if headOrder == tailOrder then false
    else if headOrder > tailOrder then tailOrder < o < headOrder
    else !(headOrder <= o <= tailOrder)
  }

  /** The food rule of `prepare_graph`: is the order `o` outside the stretch from the head to the food? */
  function FoodExcluded(o: int, headOrder: int, foodOrder: int): bool {
    if headOrder < foodOrder then o < headOrder || o > foodOrder
    else foodOrder < o < headOrder
  }

  /**
   * Neither rule ever blocks the head's own cell, the tail rule never blocks
   * the tail's, and the food rule never blocks the food's.
   */
  lemma RulesKeepHead(headOrder: int, tailOrder: int, foodOrder: int)
    ensures !TailExcluded(headOrder, headOrder, tailOrder)
    ensures !FoodExcluded(headOrder, headOrder, foodOrder)
    ensures !TailExcluded(tailOrder, headOrder, tailOrder)
    ensures !FoodExcluded(foodOrder, headOrder, foodOrder)
  {
  }

  /**
   * For any cell other than the head and the tail, the tail rule blocks
   * exactly the cells that `is_valid_order` rejects with no room required.
   */
  lemma TailRuleIsValidOrder(headOrder: int, tailOrder: int, o: int, n: int)
    requires InCycle(headOrder, tailOrder, o, n) && o != headOrder && o != tailOrder
    ensures !TailExcluded(o, headOrder, tailOrder) <==> IsValidOrder(headOrder, tailOrder, o, n, 0)
  {
  }

  /**
   * For any cell other than the head, with the food elsewhere, the food rule
   * blocks exactly the cells that `not_overtake_food` rejects: the cells
   * outside the forward arc from the head to the food.
   */
  lemma FoodRuleNotOvertakeFood(headOrder: int, foodOrder: int, o: int, n: int)
    requires InCycle(headOrder, foodOrder, o, n) && o != headOrder && foodOrder != headOrder
    ensures !FoodExcluded(o, headOrder, foodOrder) <==> NotOvertakeFood(headOrder, o, foodOrder, n)
    ensures !FoodExcluded(o, headOrder, foodOrder) <==>
            0 < CircDist(headOrder, o, n) <= CircDist(headOrder, foodOrder, n)
  {
    NotOvertakeFoodArc(headOrder, o, foodOrder, n);
    ModNear(o - headOrder, n);
    ModNear(foodOrder - headOrder, n);
  }

  // ---------------------------------------------------------------------------
  // Preparing the board

  /** `self.game.board.copy()`. */
  method CopyBoard(board: array2<int>) returns (copy: array2<int>)
    ensures fresh(copy)
    ensures copy.Length0 == board.Length0 && copy.Length1 == board.Length1
    ensures forall y, x :: 0 <= y < board.Length0 && 0 <= x < board.Length1 ==> copy[y, x] == board[y, x]
  {
    copy := new int[board.Length0, board.Length1]((y, x) reads board =>
      if 0 <= y < board.Length0 && 0 <= x < board.Length1 then board[y, x] else 0);
  }

  /**
   * One marking pass of `prepare_graph`: every cell still holding 0 whose
   * cycle order the rule excludes gets `mark`; all other cells keep their code.
   */
  method MarkExcluded(grid: array2<int>, hc: HamiltonianCycle, excluded: int -> bool, mark: int)
    requires hc.WellFormed() && grid.Length0 == hc.height && grid.Length1 == hc.width
    modifies grid
    ensures forall y, x :: 0 <= y < grid.Length0 && 0 <= x < grid.Length1 ==>
      grid[y, x] == if old(grid[y, x]) == 0 && excluded(Order(hc, Cell(x, y))) then mark else old(grid[y, x])
  {
    var i := 0;
    while i < grid.Length0
      invariant 0 <= i <= grid.Length0
      invariant forall y, x :: 0 <= y < grid.Length0 && 0 <= x < grid.Length1 ==>
        grid[y, x] == if y < i && old(grid[y, x]) == 0 && excluded(Order(hc, Cell(x, y))) then mark else old(grid[y, x])
    {
      var j := 0;
      while j < grid.Length1
        invariant 0 <= j <= grid.Length1
        invariant forall y, x :: 0 <= y < grid.Length0 && 0 <= x < grid.Length1 ==>
          grid[y, x] ==
            if (y < i || (y == i && x < j)) && old(grid[y, x]) == 0 && excluded(Order(hc, Cell(x, y))) then mark
            else old(grid[y, x])
      {
        if grid[i, j] == 0 {
          var order := Order(hc, Cell(j, i));
          if excluded(order) {
            grid[i, j] := mark;
          }
        }
        j := j + 1;
      }
      i := i + 1;
    }
  }

  /** A cell the planner may use: free, the head or the food, and blocked by neither rule. */
  ghost predicate Open(hc: HamiltonianCycle, original: int, c: Cell, head: Cell, tail: Cell, food: Cell)
    requires hc.WellFormed() && InGrid(hc.width, hc.height, c)
    requires InGrid(hc.width, hc.height, head) && InGrid(hc.width, hc.height, tail) && InGrid(hc.width, hc.height, food)
  {
    var o, h := Order(hc, c), Order(hc, head);
    && (c == head || c == food || original == 0)
    && !TailExcluded(o, h, Order(hc, tail))
    && !FoodExcluded(o, h, Order(hc, food))
  }

  /** The code `prepare_graph` leaves on a cell whose code was `original`. */
  ghost function PreparedValue(hc: HamiltonianCycle, original: int, c: Cell, head: Cell, tail: Cell, food: Cell): int
    requires hc.WellFormed() && InGrid(hc.width, hc.height, c)
    requires InGrid(hc.width, hc.height, head) && InGrid(hc.width, hc.height, tail) && InGrid(hc.width, hc.height, food)
  {
    var o, h := Order(hc, c), Order(hc, head);
    var cleared := if c == head || c == food then 0 else original;
    var afterTail := if cleared == 0 && TailExcluded(o, h, Order(hc, tail)) then TAIL_BLOCKED else cleared;
    if afterTail == 0 && FoodExcluded(o, h, Order(hc, food)) then FOOD_BLOCKED else afterTail
  }

  /**
   * A prepared cell holds 0 exactly when it is open, and the head always is;
   * a non-zero cell other than the head and the food keeps its code; a
   * changed code is 0, 3 or 4.
   */
  lemma PreparedZeroIffOpen(hc: HamiltonianCycle, original: int, c: Cell, head: Cell, tail: Cell, food: Cell)
    requires hc.WellFormed() && InGrid(hc.width, hc.height, c)
    requires InGrid(hc.width, hc.height, head) && InGrid(hc.width, hc.height, tail) && InGrid(hc.width, hc.height, food)
    ensures PreparedValue(hc, original, c, head, tail, food) == 0 <==> Open(hc, original, c, head, tail, food)
    ensures c == head ==> Open(hc, original, c, head, tail, food)
    ensures c != head && c != food && original != 0 ==> PreparedValue(hc, original, c, head, tail, food) == original
    ensures var v := PreparedValue(hc, original, c, head, tail, food);
      v == original || v == 0 || v == TAIL_BLOCKED || v == FOOD_BLOCKED
  {
    RulesKeepHead(Order(hc, head), Order(hc, tail), Order(hc, food));
  }

  /**
   * An open cell other than the head and the tail lies strictly inside the
   * free arc from the head to the tail and, when the food is elsewhere, on
   * the forward arc from the head to the food: the planner's route cannot
   * overtake the tail or skip past the food along the cycle.
   */
  lemma OpenRespectsOrder(hc: HamiltonianCycle, original: int, c: Cell, head: Cell, tail: Cell, food: Cell)
    requires hc.WellFormed() && InGrid(hc.width, hc.height, c)
    requires InGrid(hc.width, hc.height, head) && InGrid(hc.width, hc.height, tail) && InGrid(hc.width, hc.height, food)
    requires Open(hc, original, c, head, tail, food) && c != head && c != tail
    ensures IsValidOrder(Order(hc, head), Order(hc, tail), Order(hc, c), |hc.cycle|, 0)
    ensures food != head ==> NotOvertakeFood(Order(hc, head), Order(hc, c), Order(hc, food), |hc.cycle|)
  {
    var n, o, h, t, f := |hc.cycle|, Order(hc, c), Order(hc, head), Order(hc, tail), Order(hc, food);
    CycleIsPermutation(hc);
    assert o != h && o != t;
    TailRuleIsValidOrder(h, t, o, n);
    if food != head {
      assert f != h;
      FoodRuleNotOvertakeFood(h, f, o, n);
    }
  }

  // ---------------------------------------------------------------------------
  // The adjacency map

  /** `[(0, 1), (0, -1), (1, 0), (-1, 0)]` as (row, column) offsets. */
  const Deltas: seq<(int, int)> := [(0, 1), (0, -1), (1, 0), (-1, 0)]

  function DeltaCell(c: Cell, t: int): (r: Cell)
    requires 0 <= t < |Deltas|
    ensures Adjacent(c, r) && DeltaIndex(c, r) == t
  {
    Cell(c.x + Deltas[t].1, c.y + Deltas[t].0)
  }

  /** Which of the offsets reaches the 4-neighbour `e` of `c`. */
  function DeltaIndex(c: Cell, e: Cell): int {
    if e == Cell(c.x + 1, c.y) then 0
    else if e == Cell(c.x - 1, c.y) then 1
    else if e == Cell(c.x, c.y + 1) then 2
    else 3
  }

  lemma DeltaIndexReaches(c: Cell, e: Cell)
    requires Adjacent(c, e)
    ensures 0 <= DeltaIndex(c, e) < |Deltas| && DeltaCell(c, DeltaIndex(c, e)) == e
  {
  }

  predicate Free(board: array2<int>, c: Cell)
    reads board
  {
    InGrid(board.Length1, board.Length0, c) && board[c.y, c.x] == 0
  }

  /** The neighbour map of `c` once linked: a unit edge to every free 4-neighbour of a free cell; empty before. */
  ghost predicate RowOf(board: array2<int>, c: Cell, row: map<Cell, int>, linked: bool)
    reads board
  {
    && (forall e :: e in row <==> linked && Free(board, c) && Free(board, e) && Adjacent(c, e))
    && (forall e :: e in row ==> row[e] == 1)
  }

  /** Whether a row counts as linked does not matter for a cell that is not free. */
  lemma RowOfRelink(board: array2<int>, c: Cell, row: map<Cell, int>, before: bool, after: bool)
    requires RowOf(board, c, row, before) && (before == after || !Free(board, c))
    ensures RowOf(board, c, row, after)
  {
  }

  /** The graph of a board: a key per cell, and a unit edge between every two free 4-neighbours. */
  ghost predicate IsGraphOf(board: array2<int>, gd: Graph)
    reads board
  {
    && (forall c :: c in gd <==> InGrid(board.Length1, board.Length0, c))
    && (forall c :: c in gd ==> RowOf(board, c, gd[c], true))
  }

  /** The first double loop of `convert_to_graph_dict`: an empty neighbour map for every cell. */
  method EmptyGraph(n: nat, m: nat) returns (gd: Graph)
    ensures forall c :: c in gd <==> InGrid(m, n, c)
    ensures forall c :: c in gd ==> gd[c] == map[]
  {
    gd := map[];
    var i := 0;
    while i < n
      invariant 0 <= i <= n
      invariant forall c :: c in gd <==> 0 <= c.y < i && 0 <= c.x < m
      invariant forall c :: c in gd ==> gd[c] == map[]
    {
      var j := 0;
      while j < m
        invariant 0 <= j <= m
        invariant forall c :: c in gd <==> (0 <= c.y < i && 0 <= c.x < m) || (c.y == i && 0 <= c.x < j)
        invariant forall c :: c in gd ==> gd[c] == map[]
      {
        gd := gd[Cell(j, i) := map[]];
        j := j + 1;
      }
      i := i + 1;
    }
  }

  /** The loop over the four offsets for the free cell `here`: a unit edge to each free neighbour. */
  method LinkFreeNeighbours(board: array2<int>, here: Cell) returns (row: map<Cell, int>)
    requires Free(board, here)
    ensures RowOf(board, here, row, true)
  {
    var n, m := board.Length0, board.Length1;
    var (i, j) := (here.y, here.x);
    row := map[];
    var t := 0;
    while t < |Deltas|
      invariant 0 <= t <= |Deltas|
      invariant forall e :: e in row <==> Free(board, e) && Adjacent(here, e) && DeltaIndex(here, e) < t
      invariant forall e :: e in row ==> row[e] == 1
    {
      var (deltaY, deltaX) := Deltas[t];
      var newY, newX := i + deltaY, j + deltaX;
      assert Cell(newX, newY) == DeltaCell(here, t);
      forall e | Adjacent(here, e) && DeltaIndex(here, e) == t ensures e == Cell(newX, newY) {
        DeltaIndexReaches(here, e);
      }
      if 0 <= newY < n && 0 <= newX < m {
        var value := board[newY, newX];
        if value == 0 {
          row := row[Cell(newX, newY) := 1];
        }
      }
      t := t + 1;
    }
    forall e | Adjacent(here, e) ensures DeltaIndex(here, e) < t {
      DeltaIndexReaches(here, e);
    }
  }

  /**
   * `convert_to_graph_dict`: an empty neighbour map for every cell, then,
   * for every free cell, a unit edge to each free 4-neighbour.
   */
  method ConvertToGraphDict(board: array2<int>) returns (gd: Graph)
    ensures IsGraphOf(board, gd)
  {
    var n, m := board.Length0, board.Length1;
    gd := EmptyGraph(n, m);
    var i := 0;
    while i < n
      invariant 0 <= i <= n
      invariant forall c :: c in gd <==> InGrid(m, n, c)
      invariant forall c :: c in gd ==> RowOf(board, c, gd[c], c.y < i)
    {
      var j := 0;
      while j < m
        invariant 0 <= j <= m
        invariant forall c :: c in gd <==> InGrid(m, n, c)
        invariant forall c :: c in gd ==> RowOf(board, c, gd[c], c.y < i || (c.y == i && c.x < j))
      {
        var here := Cell(j, i);
        ghost var previous := gd;
        if board[i, j] == 0 {
          var row := LinkFreeNeighbours(board, here);
          gd := gd[here := row];
        }
        forall c | c in gd ensures RowOf(board, c, gd[c], c.y < i || (c.y == i && c.x < j + 1)) {
          if c != here || board[i, j] != 0 {
            RowOfRelink(board, c, previous[c], c.y < i || (c.y == i && c.x < j), c.y < i || (c.y == i && c.x < j + 1));
          }
        }
        j := j + 1;
      }
      i := i + 1;
    }
  }

  /**
   * `prepare_graph` on a copy of the board: clear the head and the food,
   * block by the tail rule, then by the food rule, and build the graph.
   */
  method PrepareGraph(grid: array2<int>, head: Cell, tail: Cell, food: Cell, hc: HamiltonianCycle) returns (gd: Graph)
    requires hc.WellFormed() && grid.Length0 == hc.height && grid.Length1 == hc.width
    requires InGrid(hc.width, hc.height, head) && InGrid(hc.width, hc.height, tail) && InGrid(hc.width, hc.height, food)
    modifies grid
    ensures forall y, x :: 0 <= y < grid.Length0 && 0 <= x < grid.Length1 ==>
      grid[y, x] == PreparedValue(hc, old(grid[y, x]), Cell(x, y), head, tail, food)
    ensures IsGraphOf(grid, gd)
  {
    grid[head.y, head.x] := 0;
    grid[food.y, food.x] := 0;
    label cleared:
    var headOrder, tailOrder := Order(hc, head), Order(hc, tail);
    var foodOrder := Order(hc, food);
    MarkExcluded(grid, hc, o => TailExcluded(o, headOrder, tailOrder), TAIL_BLOCKED);
    label tailMarked:
    MarkExcluded(grid, hc, o => FoodExcluded(o, headOrder, foodOrder), FOOD_BLOCKED);
    forall y, x | 0 <= y < grid.Length0 && 0 <= x < grid.Length1
      ensures grid[y, x] == PreparedValue(hc, old(grid[y, x]), Cell(x, y), head, tail, food)
    {
      var c, o := Cell(x, y), Order(hc, Cell(x, y));
      var cleared := old@cleared(grid[y, x]);
      assert cleared == if c == head || c == food then 0 else old(grid[y, x]);
      var afterTail := old@tailMarked(grid[y, x]);
      assert afterTail == if cleared == 0 && TailExcluded(o, headOrder, tailOrder) then TAIL_BLOCKED else cleared;
      assert grid[y, x] == if afterTail == 0 && FoodExcluded(o, headOrder, foodOrder) then FOOD_BLOCKED else afterTail;
    }
    gd := ConvertToGraphDict(grid);
  }

  /**
   * The graph `prepare_graph` hands to the planner for the board `board`: a
   * key per cell, and a unit edge between every two open 4-neighbours.
   */
  ghost predicate PreparedGraphOf(hc: HamiltonianCycle, board: array2<int>, head: Cell, tail: Cell, food: Cell, gd: Graph)
    reads board
    requires hc.WellFormed() && board.Length0 == hc.height && board.Length1 == hc.width
  {
    && InGrid(hc.width, hc.height, head) && InGrid(hc.width, hc.height, tail) && InGrid(hc.width, hc.height, food)
    && (forall c :: c in gd <==> InGrid(hc.width, hc.height, c))
    && (forall c, e :: c in gd && e in gd[c] ==> gd[c][e] == 1)
    && (forall c, e :: c in gd ==>
          (e in gd[c] <==>
             && InGrid(hc.width, hc.height, e) && Adjacent(c, e)
             && Open(hc, board[c.y, c.x], c, head, tail, food) && Open(hc, board[e.y, e.x], e, head, tail, food)))
  }

  /** One pair of cells: an edge of the prepared graph joins them exactly when both are open 4-neighbours. */
  lemma PreparedEdgeIffOpen(grid: array2<int>, original: array2<int>, gd: Graph, head: Cell, tail: Cell, food: Cell,
                            hc: HamiltonianCycle, c: Cell, e: Cell)
    requires hc.WellFormed() && grid.Length0 == hc.height && grid.Length1 == hc.width
    requires original.Length0 == hc.height && original.Length1 == hc.width
    requires InGrid(hc.width, hc.height, head) && InGrid(hc.width, hc.height, tail) && InGrid(hc.width, hc.height, food)
    requires InGrid(hc.width, hc.height, c) && c in gd && RowOf(grid, c, gd[c], true)
    requires grid[c.y, c.x] == PreparedValue(hc, original[c.y, c.x], c, head, tail, food)
    requires InGrid(hc.width, hc.height, e) ==> grid[e.y, e.x] == PreparedValue(hc, original[e.y, e.x], e, head, tail, food)
    ensures e in gd[c] <==>
      && InGrid(hc.width, hc.height, e) && Adjacent(c, e)
      && Open(hc, original[c.y, c.x], c, head, tail, food) && Open(hc, original[e.y, e.x], e, head, tail, food)
  {
    PreparedZeroIffOpen(hc, original[c.y, c.x], c, head, tail, food);
    if InGrid(hc.width, hc.height, e) {
      PreparedZeroIffOpen(hc, original[e.y, e.x], e, head, tail, food);
    }
  }

  /**
   * The graph built from the prepared board is the open graph of the
   * original board: its edges are exactly the pairs of open 4-neighbours, so
   * a route the planner builds from them keeps to cells that neither
   * overtake the tail nor skip past the food.
   */
  lemma PreparedGraphIsOpen(grid: array2<int>, original: array2<int>, gd: Graph, head: Cell, tail: Cell, food: Cell,
                            hc: HamiltonianCycle)
    requires hc.WellFormed() && grid.Length0 == hc.height && grid.Length1 == hc.width
    requires original.Length0 == hc.height && original.Length1 == hc.width
    requires InGrid(hc.width, hc.height, head) && InGrid(hc.width, hc.height, tail) && InGrid(hc.width, hc.height, food)
    requires forall y, x :: 0 <= y < grid.Length0 && 0 <= x < grid.Length1 ==>
      grid[y, x] == PreparedValue(hc, original[y, x], Cell(x, y), head, tail, food)
    requires IsGraphOf(grid, gd)
    ensures PreparedGraphOf(hc, original, head, tail, food, gd)
  {
    forall c, e | c in gd
      ensures e in gd[c] <==>
        && InGrid(hc.width, hc.height, e) && Adjacent(c, e)
        && Open(hc, original[c.y, c.x], c, head, tail, food) && Open(hc, original[e.y, e.x], e, head, tail, food)
    {
      assert RowOf(grid, c, gd[c], true);
      PreparedEdgeIffOpen(grid, original, gd, head, tail, food, hc, c, e);
    }
    forall c, e | c in gd && e in gd[c] ensures gd[c][e] == 1 {
      assert RowOf(grid, c, gd[c], true);
    }
  }

  // ---------------------------------------------------------------------------
  // One turn

  /** The planner's answer after `pop(0)` of its first cell; `None` (no route) leaves the plan empty. */
  function Replan(plan: Option<seq<Cell>>): (r: Result<seq<Cell>>)
    ensures plan.None? ==> r == Ok([])
    ensures plan.Some? && plan.value == [] ==> r == Err(EmptyPlan)
    ensures plan.Some? && plan.value != [] ==> r.Ok? && plan.value == [plan.value[0]] + r.value
  {
    match plan
    case None => Ok([])
    case Some(p) => if p == [] then Err(EmptyPlan) else Ok(p[1..])
  }

  /** Following the plan: the first of up, right, down, left reaching its next cell, then `pop(0)`. */
  function FollowPlan(queue: seq<Cell>, head: Cell): (r: Result<(Direction, seq<Cell>)>)
    requires queue != []
    ensures r.Ok? <==> Adjacent(head, queue[0])
    ensures r.Ok? ==> Offset(head, r.value.0) == queue[0] && queue == [queue[0]] + r.value.1
    ensures r.Err? ==> r.failure == DirectionNotFound(queue[0])
  {
    FirstReachingAll(head, queue[0]);
    match FirstReaching(AllDirections, head, queue[0])
    case Some(d) => Ok((d, queue[1..]))
    case None => Err(DirectionNotFound(queue[0]))
  }

  /** Consecutive cells of the route are 4-neighbours. */
  ghost predicate IsWalk(route: seq<Cell>) {
    forall k :: 0 <= k < |route| - 1 ==> Adjacent(route[k], route[k + 1])
  }

  /** A walk from the head is followed step by step without error. */
  lemma {:induction false} WalkIsFollowed(route: seq<Cell>, head: Cell)
    requires IsWalk([head] + route) && route != []
    ensures FollowPlan(route, head).Ok?
    ensures var rest := FollowPlan(route, head).value.1;
      rest != [] ==> IsWalk([route[0]] + rest)
  {
    assert ([head] + route)[1] == route[0];
    assert Adjacent(([head] + route)[0], ([head] + route)[1]);
    var step := FollowPlan(route, head);
    assert step.Ok?;
    var rest := route[1..];
    assert route == [route[0]] + rest;
    assert step.value.1 == rest;
    if rest != [] {
      forall k | 0 <= k < |[route[0]] + rest| - 1 ensures Adjacent(([route[0]] + rest)[k], ([route[0]] + rest)[k + 1]) {
        assert ([route[0]] + rest)[k] == ([head] + route)[k + 1];
        assert ([route[0]] + rest)[k + 1] == ([head] + route)[k + 2];
      }
    }
  }

  /**
   * A planner that returns, whenever it finds a route, a walk that starts at
   * the cell it was asked to start from, as a shortest path of the graph does.
   */
  ghost predicate PlansWalks(planner: (Graph, Cell, Cell) -> Option<seq<Cell>>) {
    forall gd, from, to :: planner(gd, from, to).Some? ==>
      var route := planner(gd, from, to).value;
      route != [] && route[0] == from && IsWalk(route)
  }

  /** Such a planner never leaves an empty route to pop, and what is left of its route is a walk from the head. */
  lemma ReplanWalk(planner: (Graph, Cell, Cell) -> Option<seq<Cell>>, gd: Graph, head: Cell, food: Cell)
    requires PlansWalks(planner)
    ensures var plan := Replan(planner(gd, head, food));
      plan.Ok? && (plan.value != [] ==> IsWalk([head] + plan.value))
  {
    var found := planner(gd, head, food);
    if found.Some? {
      var route := found.value;
      assert route == [head] + route[1..];
    }
  }

  /**
   * The start of a turn: with no plan left and the snake not too long,
   * prepare a copy of the board and ask the planner for a route from the
   * head to the food over the open graph `gd` of the board; otherwise keep
   * the plan. The game is left unchanged.
   */
  method Plan(game: SnakeGame, hc: HamiltonianCycle, queue: seq<Cell>, lengthLimit: int,
              planner: (Graph, Cell, Cell) -> Option<seq<Cell>>) returns (r: Result<seq<Cell>>, ghost gd: Graph)
    requires game.Valid() && hc.WellFormed() && hc.width == game.width && hc.height == game.height
    ensures queue != [] || game.length > lengthLimit ==> r == Ok(queue)
    ensures queue == [] && game.length <= lengthLimit ==>
      && PreparedGraphOf(hc, game.board, game.Head(), game.Tail(), game.foodPos, gd)
      && r == Replan(planner(gd, game.Head(), game.foodPos))
    ensures r.Err? ==> r.failure == EmptyPlan
  {
    if queue != [] || game.length > lengthLimit {
      return Ok(queue), map[];
    }
    var head, tail, food := game.Head(), game.Tail(), game.foodPos;
    assert InGrid(game.width, game.height, game.snake.segments[0]);
    assert InGrid(game.width, game.height, game.snake.segments[|game.snake.segments| - 1]);
    var copy := CopyBoard(game.board);
    label copied:
    var graph := PrepareGraph(copy, head, tail, food, hc);
    forall y, x | 0 <= y < copy.Length0 && 0 <= x < copy.Length1
      ensures copy[y, x] == PreparedValue(hc, game.board[y, x], Cell(x, y), head, tail, food)
    {
      assert old@copied(copy[y, x]) == game.board[y, x];
    }
    PreparedGraphIsOpen(copy, game.board, graph, head, tail, food, hc);
    r, gd := Replan(planner(graph, head, food)), graph;
  }

  /**
   * The move a turn makes for the plan `plan`, with the plan left after it:
   * toward the first planned cell when there is one, and an error when that
   * cell is not a 4-neighbour of the head; with no plan, the cycle fallback,
   * a legal direction whenever there is one, which follows the cycle when
   * a legal direction does and is otherwise the last legal direction.
   */
  function PlanStep(plan: seq<Cell>, s: Snapshot, hc: HamiltonianCycle): (r: Result<(Direction, seq<Cell>)>)
    requires hc.WellFormed() && InGrid(hc.width, hc.height, s.head)
    ensures plan != [] ==>
      && (r.Ok? <==> Adjacent(s.head, plan[0]))
      && (r.Ok? ==> Offset(s.head, r.value.0) == plan[0] && r.value.1 == plan[1..])
      && (r.Err? ==> r.failure == DirectionNotFound(plan[0]))
    ensures plan == [] ==> r.Ok? && r.value.1 == [] && (s.valid != [] ==> r.value.0 in s.valid)
    ensures plan == [] ==> r == Ok((Played(CycleFallback(s.valid, s.head, NextOnCycle(hc, s.head))), []))
    ensures plan == [] && (exists d :: d in s.valid && Offset(s.head, d) == NextOnCycle(hc, s.head)) ==>
      Offset(s.head, r.value.0) == NextOnCycle(hc, s.head)
  {
    if plan != [] then FollowPlan(plan, s.head)
    else Ok((Played(CycleFallback(s.valid, s.head, NextOnCycle(hc, s.head))), []))
  }

  /**
   * The move of a turn for the plan `plan`, with `s` the snapshot of the
   * game: take the step `PlanStep` gives and move. A step in a legal
   * direction moves the head there; a step in an illegal direction ends the
   * game.
   */
  method TakeStep(game: SnakeGame, hc: HamiltonianCycle, s: Snapshot, plan: seq<Cell>) returns (r: Result<bool>, rest: seq<Cell>)
    requires game.Valid() && hc.WellFormed() && hc.width == game.width && hc.height == game.height
    requires s == Observe(game, AllDirections)
    modifies game, game.board, game.snake
    ensures r.Ok? ==> game.Valid() && game.moveCount == old(game.moveCount) + 1
    ensures old(game.length) < game.maxLength ==> r != Err(NoEmptyCell)
    ensures r == Ok(false) ==> game.length < game.maxLength
    ensures PlanStep(plan, s, hc).Ok? ==> r.Ok? || r == Err(NoEmptyCell)
    ensures var step := PlanStep(plan, s, hc);
      && (step.Err? ==> r == Err(step.failure))
      && (step.Ok? ==> rest == step.value.1)
      && (step.Ok? && step.value.0 !in s.valid ==> r == Ok(true))
      && (step.Ok? && step.value.0 in s.valid && r.Ok? ==>
            && game.Head() == Offset(s.head, step.value.0)
            && (r == Ok(true) <==> game.length == game.maxLength))
  {
    var step := PlanStep(plan, s, hc);
    if step.Err? {
      return Err(step.failure), plan;
    }
    PermutationHoldsAll(AllDirections);
    rest := step.value.1;
    r := Move(game, step.value.0);
  }

  /**
   * One turn of `ShortestPathSolution.run`: renew the plan if needed, over
   * the open graph `gd` of the board, then take the step for it.
   */
  method Turn(game: SnakeGame, hc: HamiltonianCycle, queue: seq<Cell>, lengthLimit: int,
              planner: (Graph, Cell, Cell) -> Option<seq<Cell>>) returns (r: Result<bool>, rest: seq<Cell>, ghost gd: Graph)
    requires game.Valid() && hc.WellFormed() && hc.width == game.width && hc.height == game.height
    modifies game, game.board, game.snake
    ensures r.Ok? ==> game.Valid() && game.moveCount == old(game.moveCount) + 1
    ensures old(game.length) < game.maxLength ==> r != Err(NoEmptyCell)
    ensures r == Ok(false) ==> game.length < game.maxLength
    ensures var s := old(Observe(game, AllDirections));
      queue == [] && s.length <= lengthLimit ==> old(PreparedGraphOf(hc, game.board, s.head, s.tail, s.food, gd))
    ensures var s := old(Observe(game, AllDirections));
      var plan := if queue != [] || s.length > lengthLimit then Ok(queue) else Replan(planner(gd, s.head, s.food));
      && (plan.Err? ==> r == Err(EmptyPlan))
      && (plan.Ok? ==>
            var step := PlanStep(plan.value, s, hc);
            && (step.Err? ==> r == Err(step.failure))
            && (step.Ok? ==> r.Ok? || r == Err(NoEmptyCell))
            && (step.Ok? ==> rest == step.value.1)
            && (step.Ok? && step.value.0 !in s.valid ==> r == Ok(true))
            && (step.Ok? && step.value.0 in s.valid && r.Ok? ==>
                  && game.Head() == Offset(s.head, step.value.0)
                  && (r == Ok(true) <==> game.length == game.maxLength)))
    ensures PlansWalks(planner) && (queue != [] ==> IsWalk([old(game.Head())] + queue)) ==>
      && (r.Ok? || r == Err(NoEmptyCell))
      && (r == Ok(false) && rest != [] ==> IsWalk([game.Head()] + rest))
  {
    var s := Observe(game, AllDirections);
    var renewed;
    renewed, gd := Plan(game, hc, queue, lengthLimit, planner);
    ghost var walking := PlansWalks(planner) && (queue != [] ==> IsWalk([s.head] + queue));
    if walking && (queue == [] && s.length <= lengthLimit) {
      ReplanWalk(planner, gd, s.head, s.food);
    }
    if renewed.Err? {
      return Err(renewed.failure), [], gd;
    }
    if walking && renewed.value != [] {
      WalkIsFollowed(renewed.value, s.head);
    }
    r, rest := TakeStep(game, hc, s, renewed.value);
  }

  /**
   * `ShortestPathSolution.run`, for at most `turns` moves, with `planner`
   * standing for `find_shortest_path` and `lengthLimit` for the largest length
   * not above `max_length * length_cutoff`.
   */
  method Run(game: SnakeGame, lengthLimit: int, planner: (Graph, Cell, Cell) -> Option<seq<Cell>>, turns: nat)
    returns (r: Result<bool>)
    requires game.Valid() && game.width >= 2
    modifies game, game.board, game.snake
    ensures r.Ok? ==> game.Valid()
    ensures r == Ok(false) ==> game.moveCount == old(game.moveCount) + turns
    ensures r == Ok(true) ==> game.moveCount > old(game.moveCount)
    ensures old(game.length) < game.maxLength ==> r != Err(NoEmptyCell)
    ensures PlansWalks(planner) && old(game.length) < game.maxLength ==> r.Ok?
  {
    var hc := NewHamiltonianCycle(game.width, game.height);
    var queue: seq<Cell> := [];
    var played := 0;
    while played < turns
      invariant 0 <= played <= turns
      invariant game.Valid()
      invariant game.moveCount == old(game.moveCount) + played
      invariant old(game.length) < game.maxLength ==> game.length < game.maxLength
      invariant PlansWalks(planner) && queue != [] ==> IsWalk([game.Head()] + queue)
    {
      var result;
      ghost var graph;
      result, queue, graph := Turn(game, hc, queue, lengthLimit, planner);
      if result != Ok(false) {
        return result;
      }
      played := played + 1;
    }
    return Ok(false);
  }
}
