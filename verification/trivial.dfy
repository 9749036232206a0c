/**
 * The trivial strategy: find the head on the Hamiltonian cycle, then always
 * step to the next cell of the cycle.
 *
 * On a cycle that closes (an even number of rows, or two columns) a snake
 * that starts with one cell never makes an illegal move: its body always
 * occupies the cycle cells just behind the head, so the next cell is free,
 * and the game ends only when the snake reaches the maximum length.
 */
module Trivial {
  import opened Grid
  import opened Arithmetic
  import opened Hamiltonian
  import opened Game
  import opened Strategy

  /** `for i, pos in enumerate(hc.cycle): if pos == head: ... break` with its `else: raise`. */
  method FindCycleIndex(cycle: seq<Cell>, head: Cell) returns (r: Result<int>)
    ensures r.Ok? ==> 0 <= r.value < |cycle| && cycle[r.value] == head && head !in cycle[..r.value]
    ensures r.Err? <==> head !in cycle
    ensures r.Err? ==> r.failure == HeadNotInCycle
  {
    var i := 0;
    while i < |cycle|
      invariant 0 <= i <= |cycle|
      invariant head !in cycle[..i]
    {
      if cycle[i] == head {
        return Ok(i);
      }
      assert cycle[..i + 1] == cycle[..i] + [cycle[i]];
      i := i + 1;
    }
    assert cycle[..i] == cycle;
    return Err(HeadNotInCycle);
  }

  /**
   * One turn: the first of up, right, down, left that reaches the cycle cell
   * after `cycleIdx`, or the `ValueError` raised when none does.
   */
  function TrivialAction(cycle: seq<Cell>, cycleIdx: int, head: Cell): (r: Result<Direction>)
    requires 0 <= cycleIdx < |cycle|
    ensures var next := cycle[(cycleIdx + 1) % |cycle|];
      && (r.Ok? <==> Adjacent(head, next))
      && (r.Ok? ==> Offset(head, r.value) == next)
      && (r.Err? ==> r.failure == DirectionNotFound(next))
  {
    var next := cycle[(cycleIdx + 1) % |cycle|];
    FirstReachingAll(head, next);
    match FirstReaching(AllDirections, head, next)
    case Some(d) => Ok(d)
    case None => Err(DirectionNotFound(next))
  }

  /** On a grid with an odd number of rows and more than two columns the last cell of the walk is a dead end. */
  lemma TrivialStuckAtOddEnd(hc: HamiltonianCycle)
    requires hc.WellFormed() && hc.height % 2 == 1 && hc.width > 2
    ensures var last := |hc.cycle| - 1;
      TrivialAction(hc.cycle, last, hc.cycle[last]).Err?
  {
    var last := |hc.cycle| - 1;
    PositionOrderRoundTrip(hc, last);
    CycleIsPermutation(hc);
    NextOnCycleAdjacent(hc, hc.cycle[last]);
  }

  // ---------------------------------------------------------------------------
  // The body follows the cycle

  /** The body (tail first) is the run of cycle cells that ends at index `idx`. */
  ghost predicate Follows(segments: seq<Cell>, cycle: seq<Cell>, idx: int)
    requires |cycle| > 0
  {
    forall k :: 0 <= k < |segments| ==> segments[k] == cycle[(idx - |segments| + 1 + k) % |cycle|]
  }

  lemma FollowsSingle(cycle: seq<Cell>, idx: int)
    requires 0 <= idx < |cycle|
    ensures Follows([cycle[idx]], cycle, idx)
  {
    ModNear(idx, |cycle|);
  }

  /** A body shorter than the cycle never holds the next cell of the cycle. */
  lemma FollowsLeavesNextFree(segments: seq<Cell>, cycle: seq<Cell>, idx: int)
    requires Distinct(cycle) && 0 <= idx < |cycle|
    requires Follows(segments, cycle, idx) && |segments| < |cycle|
    ensures cycle[(idx + 1) % |cycle|] !in segments
  {
    var n, len := |cycle|, |segments|;
    if cycle[(idx + 1) % n] in segments {
      var k :| 0 <= k < len && segments[k] == cycle[(idx + 1) % n];
      ModDistinct(idx - len + 1 + k, idx + 1, n);
      assert false;
    }
  }

  /** Moving the body one step along the cycle keeps it on the cycle. */
  lemma FollowsShift(segments: seq<Cell>, cycle: seq<Cell>, idx: int)
    requires 0 <= idx < |cycle| && |segments| >= 1
    requires Follows(segments, cycle, idx)
    ensures var next := (idx + 1) % |cycle|;
      Follows(segments[1..] + [cycle[next]], cycle, next)
  {
    var n, len, next := |cycle|, |segments|, (idx + 1) % |cycle|;
    var moved := segments[1..] + [cycle[next]];
    forall k | 0 <= k < len
      ensures moved[k] == cycle[(next - len + 1 + k) % n]
    {
      ModAddLeft(idx + 1, -len + 1 + k, n);
      if k < len - 1 {
        assert moved[k] == segments[k + 1];
      }
    }
  }

  /** Growing the body onto the next cell of the cycle keeps it on the cycle. */
  lemma FollowsGrow(segments: seq<Cell>, cycle: seq<Cell>, idx: int)
    requires 0 <= idx < |cycle|
    requires Follows(segments, cycle, idx)
    ensures var next := (idx + 1) % |cycle|;
      Follows(segments + [cycle[next]], cycle, next)
  {
    var n, len, next := |cycle|, |segments|, (idx + 1) % |cycle|;
    var grown := segments + [cycle[next]];
    forall k | 0 <= k < len + 1
      ensures grown[k] == cycle[(next - (len + 1) + 1 + k) % n]
    {
      ModAddLeft(idx + 1, -len + k, n);
    }
  }

  /** The cycle closes after its last cell: an even number of rows, or two columns. */
  predicate Closes(hc: HamiltonianCycle) {
    hc.height % 2 == 0 || hc.width == 2
  }

  /**
   * One turn of `TrivialSolution.run` from cycle index `cycleIdx`: compute the
   * action, advance the index, and move. On a closing cycle, with the body on
   * the cycle behind the head and below the maximum length, the move is legal
   * and the body stays on the cycle.
   */
  method Turn(game: SnakeGame, hc: HamiltonianCycle, cycleIdx: int) returns (r: Result<bool>, next: int)
    requires game.Valid() && hc.WellFormed() && hc.width == game.width && hc.height == game.height
    requires 0 <= cycleIdx < |hc.cycle| && hc.cycle[cycleIdx] == game.Head()
    modifies game, game.board, game.snake
    ensures next == (cycleIdx + 1) % |hc.cycle|
    ensures r.Ok? ==> game.Valid()
    ensures r == Ok(false) ==> game.Head() == hc.cycle[next] && game.moveCount == old(game.moveCount) + 1
    ensures r == Ok(false) ==> game.length < game.maxLength
    ensures var a := TrivialAction(hc.cycle, cycleIdx, old(game.Head()));
      && (a.Err? ==> r == Err(a.failure))
      && (a.Ok? && old(game.length) < game.maxLength ==> r.Ok?)
      && (a.Ok? && !old(game.CheckValid(a.value)) ==> r == Ok(true))
      && (a.Ok? && old(game.CheckValid(a.value)) && r.Ok? ==>
            game.Head() == hc.cycle[next] && game.moveCount == old(game.moveCount) + 1)
    ensures Closes(hc) && old(Follows(game.snake.segments, hc.cycle, cycleIdx)) && old(game.length) < game.maxLength ==>
              && r.Ok?
              && (r == Ok(false) ==> Follows(game.snake.segments, hc.cycle, next) && game.length < game.maxLength)
              && (r == Ok(true) ==> game.length == game.maxLength)
  {
    var head := game.Head();
    var action := TrivialAction(hc.cycle, cycleIdx, head);
    next := (cycleIdx + 1) % |hc.cycle|;
    ghost var closing := Closes(hc) && Follows(game.snake.segments, hc.cycle, cycleIdx) && game.length < game.maxLength;
    if closing {
      SafeStep(game, hc, cycleIdx);
      FollowsShift(game.snake.segments, hc.cycle, cycleIdx);
      FollowsGrow(game.snake.segments, hc.cycle, cycleIdx);
    }
    if action.Err? {
      return Err(action.failure), next;
    }
    r := game.MakeMove(action.value);
  }

  /** On a closing cycle the next cell of the cycle is on the grid, next to the head, and free of the body. */
  lemma NextCellFree(hc: HamiltonianCycle, segments: seq<Cell>, cycleIdx: int)
    requires hc.WellFormed() && Closes(hc) && 0 <= cycleIdx < |hc.cycle|
    requires Follows(segments, hc.cycle, cycleIdx) && |segments| < |hc.cycle|
    ensures var next := hc.cycle[(cycleIdx + 1) % |hc.cycle|];
      InGrid(hc.width, hc.height, next) && Adjacent(hc.cycle[cycleIdx], next) && next !in segments
  {
    CycleIsPermutation(hc);
    ClosingSuccessorAdjacent(hc, cycleIdx);
    FollowsLeavesNextFree(segments, hc.cycle, cycleIdx);
  }

  /** On a closing cycle the trivial action is a legal move of the game. */
  lemma SafeStep(game: SnakeGame, hc: HamiltonianCycle, cycleIdx: int)
    requires game.Valid() && hc.WellFormed() && hc.width == game.width && hc.height == game.height
    requires 0 <= cycleIdx < |hc.cycle| && hc.cycle[cycleIdx] == game.Head()
    requires Closes(hc) && Follows(game.snake.segments, hc.cycle, cycleIdx) && game.length < game.maxLength
    ensures var action := TrivialAction(hc.cycle, cycleIdx, game.Head());
      action.Ok? && game.CheckValid(action.value)
  {
    NextCellFree(hc, game.snake.segments, cycleIdx);
  }

  /**
   * `TrivialSolution.run`, for at most `turns` moves. On a closing cycle a
   * fresh one-cell snake (on a grid of more than two cells) never errs and
   * never dies: the run ends only with `Ok(true)` at the maximum length, or
   * with `Ok(false)` when the budget runs out.
   */
  method Run(game: SnakeGame, turns: nat) returns (r: Result<bool>)
    requires game.Valid() && game.width >= 2
    modifies game, game.board, game.snake
    ensures r.Ok? ==> game.Valid()
    ensures r == Ok(false) ==> game.moveCount == old(game.moveCount) + turns
    ensures (game.height % 2 == 0 || game.width == 2) && old(game.length) == 1 && game.maxLength > 1 ==>
              r.Ok? && (r == Ok(true) ==> game.length == game.maxLength)
  {
    var hc := NewHamiltonianCycle(game.width, game.height);
    CycleIsPermutation(hc);
    ghost var closing := Closes(hc) && game.length == 1 && game.maxLength > 1;
    var head := game.Head();
    var start := FindCycleIndex(hc.cycle, head);
    if start.Err? {
      return Err(HeadNotInCycle);
    }
    var cycleIdx := start.value;
    if closing {
      FollowsSingle(hc.cycle, cycleIdx);
      assert game.snake.segments == [hc.cycle[cycleIdx]];
    }
    var played := 0;
    while played < turns
      invariant 0 <= played <= turns
      invariant game.Valid()
      invariant game.moveCount == old(game.moveCount) + played
      invariant 0 <= cycleIdx < |hc.cycle| && hc.cycle[cycleIdx] == game.Head()
      invariant closing ==> Follows(game.snake.segments, hc.cycle, cycleIdx) && game.length < game.maxLength
    {
      var result;
      result, cycleIdx := Turn(game, hc, cycleIdx);
      if result != Ok(false) {
        return result;
      }
      played := played + 1;
    }
    return Ok(false);
  }
}
