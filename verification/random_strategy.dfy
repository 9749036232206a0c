/**
 * The random strategy: check the four directions in a shuffled order and take
 * the first legal one that moves forward along the cycle without overtaking
 * the tail or the food; otherwise follow the cycle. The shuffle is an input:
 * one order of the four directions per turn.
 */
module RandomStrategy {
  import opened Grid
  import opened Hamiltonian
  import opened Ordering
  import opened Game
  import opened Strategy

  /**
   * The checks of one direction: length not above the limit and, from
   * length 2 on, `not_overtake_tail`, `positive_move` and `not_overtake_food`.
   */
  predicate Accepts(s: Snapshot, hc: HamiltonianCycle, roomLeft: int, lengthLimit: int, d: Direction)
    requires Coherent(s, hc) && d in s.valid
  {
    var n, h, t, f := |hc.cycle|, Order(hc, s.head), Order(hc, s.tail), Order(hc, s.food);
    var p := Order(hc, Offset(s.head, d));
    && s.length <= lengthLimit
    && (s.length >= 2 ==> IsValidOrder(h, t, p, n, roomLeft) && PositiveMove(h, p, n) && NotOvertakeFood(h, p, f, n))
  }

  /** The legal directions the checks accept. */
  function Accepted(s: Snapshot, hc: HamiltonianCycle, roomLeft: int, lengthLimit: int): set<Direction>
    requires Coherent(s, hc)
  {
    set d | d in s.valid && Accepts(s, hc, roomLeft, lengthLimit, d)
  }

  /** `dirs[i]` is in `ok` and no earlier direction is. */
  ghost predicate FirstAt(dirs: seq<Direction>, ok: set<Direction>, i: int) {
    0 <= i < |dirs| && dirs[i] in ok && forall j :: 0 <= j < i ==> dirs[j] !in ok
  }

  /** The first direction of `dirs` in `ok`: the `for ... continue ... break` loop. */
  function FirstAccepted(dirs: seq<Direction>, ok: set<Direction>): (r: Option<Direction>)
    ensures r.None? <==> forall d :: d in dirs ==> d !in ok
    ensures r.Some? ==> exists i :: FirstAt(dirs, ok, i) && dirs[i] == r.value
  {
    if dirs == [] then None
    else if dirs[0] in ok then
      assert FirstAt(dirs, ok, 0);
      Some(dirs[0])
    else
      var r := FirstAccepted(dirs[1..], ok);
      assert r.Some? ==> exists i :: FirstAt(dirs, ok, i) && dirs[i] == r.value by {
        if r.Some? {
          var i :| FirstAt(dirs[1..], ok, i) && dirs[1..][i] == r.value;
          assert FirstAt(dirs, ok, i + 1);
        }
      }
      r
  }

  /**
   * One turn of `RandomSolution.run`, with `s.valid` listing the legal
   * directions in the shuffled order: the first accepted one, or else the
   * cycle fallback (which then leaves the last legal direction of the
   * shuffled order when none reaches the successor).
   */
  function RandomChoice(s: Snapshot, hc: HamiltonianCycle, roomLeft: int, lengthLimit: int): (r: Option<Direction>)
    requires Coherent(s, hc)
    ensures r.None? <==> s.valid == []
    ensures r.Some? ==> r.value in s.valid
    ensures var first := FirstAccepted(s.valid, Accepted(s, hc, roomLeft, lengthLimit));
      && (first.Some? ==> r == first)
      && (first.None? ==> r == CycleFallback(s.valid, s.head, NextOnCycle(hc, s.head)))
  {
    match FirstAccepted(s.valid, Accepted(s, hc, roomLeft, lengthLimit))
    case Some(d) => Some(d)
    case None => CycleFallback(s.valid, s.head, NextOnCycle(hc, s.head))
  }

  /**
   * A one-cell snake below the length limit takes the first legal direction
   * of the shuffled order; above the limit it follows the cycle.
   */
  lemma RandomShortSnakeTakesFirst(s: Snapshot, hc: HamiltonianCycle, roomLeft: int, lengthLimit: int)
    requires Coherent(s, hc) && s.length < 2 && s.valid != []
    ensures s.length <= lengthLimit ==> RandomChoice(s, hc, roomLeft, lengthLimit) == Some(s.valid[0])
    ensures s.length > lengthLimit ==>
      RandomChoice(s, hc, roomLeft, lengthLimit) == CycleFallback(s.valid, s.head, NextOnCycle(hc, s.head))
  {
    if s.length <= lengthLimit {
      assert s.valid[0] in Accepted(s, hc, roomLeft, lengthLimit);
    } else {
      assert forall d :: d !in Accepted(s, hc, roomLeft, lengthLimit);
    }
  }

  /**
   * From length 2 on, an accepted move with head and tail on different cells
   * is a forward step that lands on the arc from the head to the food (the
   * food included), strictly before the tail, with at least `roomLeft` slots
   * to spare.
   */
  lemma AcceptedIsSafeShortcut(s: Snapshot, hc: HamiltonianCycle, roomLeft: int, lengthLimit: int, d: Direction)
    requires Coherent(s, hc) && d in s.valid && Accepts(s, hc, roomLeft, lengthLimit, d)
    requires s.length >= 2
    ensures var n, h, t, f := |hc.cycle|, Order(hc, s.head), Order(hc, s.tail), Order(hc, s.food);
      var p := Order(hc, Offset(s.head, d));
      && 0 < CircDist(h, p, n) <= CircDist(h, f, n)
      && CircDist(h, p, n) < CircDist(h, t, n)
      && CircDist(p, t, n) >= roomLeft
      && (h + CircDist(h, p, n) < n || CircDist(h, p, n) == 1)
  {
    var n, h, t, f := |hc.cycle|, Order(hc, s.head), Order(hc, s.tail), Order(hc, s.food);
    var p := Order(hc, Offset(s.head, d));
    IsValidOrderCircular(h, t, p, n, roomLeft);
    NotOvertakeFoodArc(h, p, f, n);
    PositiveMoveCircular(h, p, n);
  }

  /**
   * One turn of `RandomSolution.run` with `order` as the shuffled directions:
   * observe, choose and move. With a legal direction available the choice is
   * legal, so the head lands where it points and the game ends only at the
   * maximum length; with none, the game is over.
   */
  method Turn(game: SnakeGame, hc: HamiltonianCycle, roomLeft: int, lengthLimit: int, order: seq<Direction>)
    returns (r: Result<bool>)
    requires game.Valid() && hc.WellFormed() && hc.width == game.width && hc.height == game.height
    requires multiset(order) == multiset(AllDirections)
    modifies game, game.board, game.snake
    ensures r.Ok? ==> game.Valid() && game.moveCount == old(game.moveCount) + 1
    ensures old(game.length) < game.maxLength ==> r.Ok?
    ensures r.Err? ==> r == Err(NoEmptyCell)
    ensures r == Ok(false) ==> game.length < game.maxLength
    ensures r == Ok(true) ==> game.length == game.maxLength || game.Stuck()
    ensures var s := old(Observe(game, order));
      var choice := RandomChoice(s, hc, roomLeft, lengthLimit);
      && (s.valid == [] ==> choice.None? && r == Ok(true))
      && (s.valid != [] && r.Ok? ==>
            && choice.Some?
            && game.Head() == Offset(s.head, choice.value)
            && (r == Ok(true) <==> game.length == game.maxLength))
  {
    var s := Observe(game, order);
    var choice := RandomChoice(s, hc, roomLeft, lengthLimit);
    if s.valid == [] {
      PermutationHoldsAll(order);
      NoValidIsStuck(game, order);
    }
    r := Play(game, choice);
  }

  /**
   * `RandomSolution.run` with one shuffled order per turn: build the cycle,
   * then play `Turn` until a move ends the game or the orders run out
   * (`Ok(false)`). `Ok(true)` means the snake reached the maximum length or
   * has no legal move.
   */
  method Run(game: SnakeGame, roomLeft: int, lengthLimit: int, orders: seq<seq<Direction>>) returns (r: Result<bool>)
    requires game.Valid() && game.width >= 2
    requires forall i :: 0 <= i < |orders| ==> multiset(orders[i]) == multiset(AllDirections)
    modifies game, game.board, game.snake
    ensures r.Ok? ==> game.Valid()
    ensures r == Ok(false) ==> game.moveCount == old(game.moveCount) + |orders|
    ensures r == Ok(true) ==> game.moveCount <= old(game.moveCount) + |orders|
    ensures r == Ok(true) ==> game.Valid() && (game.length == game.maxLength || game.Stuck())
    ensures old(game.length) < game.maxLength ==> r.Ok?
    ensures r.Err? ==> r == Err(NoEmptyCell)
  {
    var hc := NewHamiltonianCycle(game.width, game.height);
    var turn := 0;
    while turn < |orders|
      invariant 0 <= turn <= |orders|
      invariant game.Valid()
      invariant game.moveCount == old(game.moveCount) + turn
      invariant old(game.length) < game.maxLength ==> game.length < game.maxLength
    {
      var result := Turn(game, hc, roomLeft, lengthLimit, orders[turn]);
      if result != Ok(false) {
        return result;
      }
      turn := turn + 1;
    }
    return Ok(false);
  }
}
