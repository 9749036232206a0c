/**
 * What the four strategies share: the per-turn view of the game, cycle orders
 * of cells, the cycle successor of the head, and the "move along the cycle"
 * fallback with the direction it leaves behind when no legal direction
 * reaches the successor.
 */
module Strategy {
  import opened Grid
  import opened Arithmetic
  import opened Hamiltonian
  import opened Game

  /** What a strategy reads from the game at the start of a turn. */
  datatype Snapshot = Snapshot(head: Cell, tail: Cell, food: Cell, length: int, valid: seq<Direction>)

  /** A snapshot of a consistent game played on the grid of the cycle. */
  ghost predicate Coherent(s: Snapshot, hc: HamiltonianCycle) {
    && hc.WellFormed()
    && InGrid(hc.width, hc.height, s.head)
    && InGrid(hc.width, hc.height, s.tail)
    && InGrid(hc.width, hc.height, s.food)
    && s.food != s.head
    && s.length >= 1
    && (s.tail == s.head <==> s.length == 1)
    && forall d :: d in s.valid ==> InGrid(hc.width, hc.height, Offset(s.head, d))
  }

  /**
   * The snapshot of a game; `order` is the order in which the directions are
   * checked. Head, tail and food are on the grid, the food is off the head,
   * and head and tail coincide exactly for a one-cell snake.
   */
  function Observe(game: SnakeGame, order: seq<Direction>): (s: Snapshot)
    reads game, game.board, game.snake
    requires game.Valid()
    ensures s.head == game.Head() && s.tail == game.Tail() && s.food == game.foodPos && s.length == game.length
    ensures forall d :: d in s.valid <==> d in order && game.CheckValid(d)
    ensures s.valid == game.ValidAmong(order) && KeepsOrder(s.valid, order)
    ensures InGrid(game.width, game.height, s.head) && InGrid(game.width, game.height, s.tail)
    ensures InGrid(game.width, game.height, s.food) && s.food != s.head
    ensures s.length >= 1 && (s.tail == s.head <==> s.length == 1)
    ensures forall d :: d in s.valid ==> InGrid(game.width, game.height, Offset(s.head, d))
  {
    var segments := game.snake.segments;
    assert InGrid(game.width, game.height, segments[0]);
    assert InGrid(game.width, game.height, segments[|segments| - 1]);
    assert game.length == 1 ==> segments[0] == segments[|segments| - 1];
    assert game.length >= 2 ==> segments[0] != segments[|segments| - 1];
    Snapshot(game.Head(), game.Tail(), game.foodPos, game.length, game.ValidAmong(order))
  }

  /** `get_position_order` on a cell of the grid, where it cannot fail. */
  function Order(hc: HamiltonianCycle, c: Cell): (r: int)
    requires hc.WellFormed() && InGrid(hc.width, hc.height, c)
    ensures 0 <= r < |hc.cycle| && hc.cycle[r] == c
  {
    GetPositionOrder(hc, c).value
  }

  /** `hc.cycle[(get_position_order(c) + 1) % len(hc.cycle)]`: the cell after `c` on the cycle. */
  function NextOnCycle(hc: HamiltonianCycle, c: Cell): (r: Cell)
    requires hc.WellFormed() && InGrid(hc.width, hc.height, c)
    ensures InGrid(hc.width, hc.height, r)
    ensures Order(hc, r) == (Order(hc, c) + 1) % |hc.cycle|
  {
    var n := |hc.cycle|;
    var i := (Order(hc, c) + 1) % n;
    PositionOrderRoundTrip(hc, i);
    hc.cycle[i]
  }

  /**
   * The successor of a cell on the cycle is one step away, except for the
   * last cell of a grid with an odd number of rows and more than two
   * columns, whose walk ends in the top-right corner and does not close.
   */
  lemma NextOnCycleAdjacent(hc: HamiltonianCycle, c: Cell)
    requires hc.WellFormed() && InGrid(hc.width, hc.height, c)
    ensures Order(hc, c) < |hc.cycle| - 1 || hc.height % 2 == 0 || hc.width == 2 ==>
      Adjacent(c, NextOnCycle(hc, c))
    ensures Order(hc, c) == |hc.cycle| - 1 && hc.height % 2 == 1 && hc.width > 2 ==>
      !Adjacent(c, NextOnCycle(hc, c))
  {
    var i := Order(hc, c);
    CycleSuccessorAdjacent(hc.width, hc.height, i);
  }

  /**
   * `for direction in valid_directions: if potential_position(direction) ==
   * next_pos: break`, with no `else`: the direction that reaches `next`, or,
   * when none does, the last legal direction the loop left in its variable.
   * `None` means there is no legal direction at all: the variable then holds
   * a direction from an earlier loop, and every direction ends the game.
   */
  function CycleFallback(valid: seq<Direction>, head: Cell, next: Cell): (r: Option<Direction>)
    ensures r.None? <==> valid == []
    ensures r.Some? ==> r.value in valid
    ensures (exists d :: d in valid && Offset(head, d) == next) ==> r.Some? && Offset(head, r.value) == next
    ensures r.Some? && Offset(head, r.value) != next ==> r.value == valid[|valid| - 1]
  {
    match FirstReaching(valid, head, next)
    case Some(d) => Some(d)
    case None => if valid == [] then None else Some(valid[|valid| - 1])
  }

  /** Any direction stands for the leftover one when no direction is legal: each of them ends the game. */
  const Leftover: Direction := Up

  /** The direction played for a choice: the chosen one, or the leftover when there is no legal one. */
  function Played(choice: Option<Direction>): (d: Direction)
    ensures choice.Some? ==> d == choice.value
  {
    if choice.Some? then choice.value else Leftover
  }

  /**
   * `self.game.make_move(direction)` at the end of a turn: a legal direction
   * moves the head where it points, and the game then ends only at the
   * maximum length; an illegal one ends the game and changes nothing else.
   * Only eating the last free cell fails, so below the maximum length the
   * move always succeeds.
   */
  method Move(game: SnakeGame, d: Direction) returns (r: Result<bool>)
    requires game.Valid()
    modifies game, game.board, game.snake
    ensures r.Ok? ==> game.Valid() && game.moveCount == old(game.moveCount) + 1
    ensures old(game.length) < game.maxLength ==> r.Ok?
    ensures r.Err? ==> r == Err(NoEmptyCell)
    ensures r == Ok(false) ==> game.length < game.maxLength
    ensures !old(game.CheckValid(d)) ==>
      && r == Ok(true) && game.snake.segments == old(game.snake.segments) && game.length == old(game.length)
      && game.foodPos == old(game.foodPos)
    ensures old(game.CheckValid(d)) && r.Ok? ==>
      game.Head() == Offset(old(game.Head()), d) && (r == Ok(true) <==> game.length == game.maxLength)
  {
    r := game.MakeMove(d);
    if old(game.CheckValid(d)) && r.Ok? {
      assert game.snake.segments[|game.snake.segments| - 1] == Offset(old(game.Head()), d);
    }
  }

  /**
   * The move of a strategy's choice: a legal choice moves the head where it
   * points, and the game then ends only at the maximum length; without a
   * legal direction the leftover direction is played, which ends the game
   * and leaves the snake stuck.
   */
  method Play(game: SnakeGame, choice: Option<Direction>) returns (r: Result<bool>)
    requires game.Valid()
    requires choice.Some? ==> game.CheckValid(choice.value)
    requires choice.None? ==> game.Stuck()
    modifies game, game.board, game.snake
    ensures r.Ok? ==> game.Valid() && game.moveCount == old(game.moveCount) + 1
    ensures old(game.length) < game.maxLength ==> r.Ok?
    ensures r.Err? ==> r == Err(NoEmptyCell)
    ensures r == Ok(false) ==> game.length < game.maxLength
    ensures choice.None? ==> r == Ok(true) && game.Stuck()
    ensures choice.Some? && r.Ok? ==>
      game.Head() == Offset(old(game.Head()), choice.value) && (r == Ok(true) <==> game.length == game.maxLength)
  {
    r := Move(game, Played(choice));
    if choice.None? {
      SameLegalMoves(game);
    }
  }

  /** With no direction legal in an order that holds all four, the game is stuck. */
  lemma NoValidIsStuck(game: SnakeGame, order: seq<Direction>)
    requires game.Valid() && forall d :: d in order
    requires Observe(game, order).valid == []
    ensures game.Stuck()
  {
    forall d ensures !game.CheckValid(d) {
      assert d in order;
    }
  }
}
