/**
 * The grid state machine: a snake whose body is a chain of cells, a dense board
 * of cell codes kept in lockstep with it, and the food cell.
 *
 * The board is indexed `board[y, x]` (row, column) and holds EMPTY, BODY, HEAD
 * or FOOD. The snake's body is the sequence of its cells from the tail to the
 * head: the parent of `segments[i]` is `segments[i + 1]`.
 */
module Game {
  import opened Grid

  const EMPTY := 0
  const BODY := 1
  const HEAD := 5
  const FOOD := 9

  /** The code a consistent board holds at `c` for this snake body (tail first) and this food cell. */
  ghost function Expected(segments: seq<Cell>, food: Cell, c: Cell): int {
    if |segments| > 0 && c == segments[|segments| - 1] then HEAD
    else if c in segments then BODY
    else if c == food then FOOD
    else EMPTY
  }

  /**
   * After the body shifts one step (the tail cell is left, `t` becomes the
   * head), only three cells change code: the new head, the old tail and the
   * old head.
   */
  lemma ShiftExpected(segments: seq<Cell>, food: Cell, t: Cell, c: Cell)
    requires |segments| >= 1 && Distinct(segments) && food !in segments
    requires t != segments[|segments| - 1] && t != food
    requires t !in segments || t == segments[0]
    ensures var after := segments[1..] + [t];
      Expected(after, food, c) ==
        if c == t then HEAD
        else if c == segments[0] then EMPTY
        else if c == segments[|segments| - 1] then BODY
        else Expected(segments, food, c)
  {
    var after := segments[1..] + [t];
    if c != t && c != segments[0] {
      assert c in after <==> c in segments by {
        if c in segments {
          var i :| 0 <= i < |segments| && segments[i] == c;
          assert after[i - 1] == c;
        }
      }
    }
  }

  /** Eating: the food cell becomes the head and the old head becomes body. */
  lemma GrowExpected(segments: seq<Cell>, food: Cell, c: Cell)
    requires |segments| >= 1 && food !in segments
    ensures Expected(segments + [food], food, c) ==
      if c == food then HEAD
      else if c == segments[|segments| - 1] then BODY
      else Expected(segments, food, c)
  {
    if c != food {
      assert c in segments + [food] <==> c in segments;
    }
  }

  /** Placing food on a free cell changes that cell only, when the old food lies under the snake. */
  lemma SpawnExpected(segments: seq<Cell>, oldFood: Cell, newFood: Cell, c: Cell)
    requires oldFood in segments && newFood !in segments
    ensures Expected(segments, newFood, c) ==
      if c == newFood then FOOD else Expected(segments, oldFood, c)
  {
  }

  /** The body of a snake: `BodyNode`s linked by `parent`, as the cells from tail to head. */
  class Snake {
    var segments: seq<Cell>

    /** `Snake(x, y)`: a one-cell snake whose head is its tail. */
    constructor (x: int, y: int)
      ensures segments == [Cell(x, y)]
    {
      segments := [Cell(x, y)];
    }

    function Head(): Cell
      reads this
      requires |segments| > 0
    {
      segments[|segments| - 1]
    }

    function Tail(): Cell
      reads this
      requires |segments| > 0
    {
      segments[0]
    }

    /** `move_body_foward`: from the tail towards the head, each segment takes its parent's position. */
    method MoveBodyForward()
      requires |segments| > 0
      modifies this
      ensures segments == old(segments)[1..] + [old(Head())]
    {
      var i := 0;
      while i < |segments| - 1
        invariant 0 <= i < |segments| == |old(segments)|
        invariant forall k :: 0 <= k < i ==> segments[k] == old(segments)[k + 1]
        invariant forall k :: i <= k < |segments| ==> segments[k] == old(segments)[k]
      {
        segments := segments[i := segments[i + 1]];
        i := i + 1;
      }
    }

    /** `move`: shift the body, then step the head; report the vacated tail cell and the new head. */
    method Move(d: Direction) returns (oldTail: Cell, newHead: Cell)
      requires |segments| > 0
      modifies this
      ensures segments == old(segments)[1..] + [Offset(old(Head()), d)]
      ensures oldTail == old(Tail()) && newHead == Offset(old(Head()), d)
    {
      oldTail := Tail();
      MoveBodyForward();
      var head := Head();
      match d {
        case Up => newHead := Cell(head.x, head.y - 1);
        case Right => newHead := Cell(head.x + 1, head.y);
        case Down => newHead := Cell(head.x, head.y + 1);
        case Left => newHead := Cell(head.x - 1, head.y);
      }
      segments := segments[|segments| - 1 := newHead];
    }

    /** `new_head`: link a new head node in front of the old one; nothing else moves. */
    method NewHead(x: int, y: int)
      modifies this
      ensures segments == old(segments) + [Cell(x, y)]
    {
      segments := segments + [Cell(x, y)];
    }
  }

  /** The (row, column) of the board that the source marks HEAD at start-up: `board[start_x, start_y]`. */
  function InitialHeadIndexAsWritten(width: int, height: int): (int, int) {
    (width / 2, height / 2)
  }

  /** The (row, column) of the snake's starting cell (width // 2, height // 2). */
  function InitialHeadIndex(width: int, height: int): (r: (int, int))
    requires width >= 1 && height >= 1
    ensures 0 <= r.0 < height && 0 <= r.1 < width
    ensures r == (Cell(width / 2, height / 2).y, Cell(width / 2, height / 2).x)
  {
    (height / 2, width / 2)
  }

  /** On a square grid the index the source writes is the snake's cell. */
  lemma InitialHeadIndexSquare(size: int)
    requires size >= 1
    ensures InitialHeadIndexAsWritten(size, size) == InitialHeadIndex(size, size)
  {
  }

  /**
   * On a 6 x 4 grid the source marks row 3, column 2 (the cell (2, 3)) as the
   * head while the snake starts at (3, 2); on a 4 x 2 grid the row index 2 is
   * outside the two rows.
   */
  lemma InitialHeadIndexAsWrittenMisplaced()
    ensures InitialHeadIndexAsWritten(6, 4) == (3, 2) && InitialHeadIndex(6, 4) == (2, 3)
    ensures InitialHeadIndexAsWritten(4, 2).0 >= 2
  {
  }

  /** `SnakeGame`: the board, the snake, the food and the counters. */
  class SnakeGame {
    const width: int
    const height: int
    const board: array2<int>
    const snake: Snake
    const maxLength: int
    var length: int
    var moveCount: int
    var foodPos: Cell

    /** The board shows exactly the snake and the food. */
    ghost predicate BoardMatches()
      reads this, board, snake
    {
      && board.Length0 == height && board.Length1 == width
      && forall y, x :: 0 <= y < height && 0 <= x < width ==>
           board[y, x] == Expected(snake.segments, foodPos, Cell(x, y))
    }

    /** The game invariant: a snake of `length` distinct in-grid cells, food on a free cell, a matching board. */
    ghost predicate Valid()
      reads this, board, snake
    {
      && width >= 1 && height >= 1
      && maxLength == width * height - 1
      && length == |snake.segments| && 1 <= length <= maxLength
      && (forall i :: 0 <= i < |snake.segments| ==> InGrid(width, height, snake.segments[i]))
      && Distinct(snake.segments)
      && InGrid(width, height, foodPos) && foodPos !in snake.segments
      && moveCount >= 0
      && BoardMatches()
    }

    function Head(): Cell
      reads this, snake
      requires |snake.segments| > 0
    {
      snake.Head()
    }

    function Tail(): Cell
      reads this, snake
      requires |snake.segments| > 0
    {
      snake.Tail()
    }

    /** `potential_position`: the head offset by the direction, not clamped to the board. */
    function PotentialPosition(d: Direction): (p: Cell)
      reads this, snake
      requires |snake.segments| > 0
      ensures Adjacent(Head(), p)
    {
      Offset(Head(), d)
    }

    /**
     * `check_valid`: the move stays on the board and does not run into the
     * body, except into the tail of a snake longer than two, which moves away
     * in the same step.
     */
    function CheckValid(d: Direction): (ok: bool)
      reads this, board, snake
      requires Valid()
      ensures var p := PotentialPosition(d);
        ok <==> InGrid(width, height, p) && (p in snake.segments ==> p == Tail() && length > 2)
    {
      var p := PotentialPosition(d);
      if p.x == -1 || p.x == width then false
      else if p.y == -1 || p.y == height then false
      else if board[p.y, p.x] == BODY then p == Tail() && length > 2
      else true
    }

    /** No direction is a legal move: whatever the snake plays, the game is over. */
    ghost predicate Stuck()
      reads this, board, snake
      requires Valid()
    {
      forall d :: !CheckValid(d)
    }

    /**
     * `[d for d in order if check_valid(d)]`: the legal directions, in the
     * order given.
     */
    function ValidAmong(order: seq<Direction>): (r: seq<Direction>)
      reads this, board, snake
      requires Valid()
      ensures forall d :: d in r <==> d in order && CheckValid(d)
      ensures KeepsOrder(r, order)
      ensures |r| <= |order|
    {
      if order == [] then []
      else
        var rest := ValidAmong(order[1..]);
        KeepsOrderCons(order[0], CheckValid(order[0]), rest, order[1..]);
        assert [order[0]] + order[1..] == order;
        (if CheckValid(order[0]) then [order[0]] else []) + rest
    }

    /**
     * `spawn_food`: collect every cell that is neither body nor head, row by
     * row, and put the food on one of them; the choice is arbitrary. `found`
     * is false when there is no such cell (where `random.choice` raises).
     */
    method SpawnFood() returns (found: bool)
      requires board.Length0 == height && board.Length1 == width
      modifies this`foodPos, board
      ensures found <==> exists c :: InGrid(width, height, c) &&
                          old(board[c.y, c.x]) != BODY && old(board[c.y, c.x]) != HEAD
      ensures found ==> var f := foodPos;
                        InGrid(width, height, f) && old(board[f.y, f.x]) != BODY && old(board[f.y, f.x]) != HEAD
      ensures found ==> forall y, x :: 0 <= y < height && 0 <= x < width ==>
                          board[y, x] == if Cell(x, y) == foodPos then FOOD else old(board[y, x])
      ensures !found ==> foodPos == old(foodPos) && unchanged(board)
    {
      var emptyCells: seq<Cell> := [];
      var i := 0;
      while i < height
        invariant 0 <= i <= height
        invariant forall c :: c in emptyCells ==>
                    InGrid(width, height, c) && board[c.y, c.x] != BODY && board[c.y, c.x] != HEAD
        invariant forall c :: InGrid(width, height, c) && c.y < i ==>
                    (board[c.y, c.x] != BODY && board[c.y, c.x] != HEAD ==> c in emptyCells)
      {
        var j := 0;
        while j < width
          invariant 0 <= j <= width
          invariant forall c :: c in emptyCells ==>
                      InGrid(width, height, c) && board[c.y, c.x] != BODY && board[c.y, c.x] != HEAD
          invariant forall c :: InGrid(width, height, c) && (c.y < i || (c.y == i && c.x < j)) ==>
                      (board[c.y, c.x] != BODY && board[c.y, c.x] != HEAD ==> c in emptyCells)
        {
          var value := board[i, j];
          if value != BODY && value != HEAD {
            emptyCells := emptyCells + [Cell(j, i)];
          }
          j := j + 1;
        }
        i := i + 1;
      }
      if emptyCells == [] {
        return false;
      }
      assert emptyCells[0] in emptyCells;
      var choice :| choice in emptyCells;
      foodPos := choice;
      board[choice.y, choice.x] := FOOD;
      found := true;
    }

    /**
     * `SnakeGame(width, height)` without starting food: a one-cell snake in the
     * middle of an empty board, and food on some other cell.
     */
    constructor (width: int, height: int)
      requires width >= 1 && height >= 1 && width * height >= 2
      ensures Valid() && fresh(board) && fresh(snake)
      ensures this.width == width && this.height == height
      ensures snake.segments == [Cell(width / 2, height / 2)]
      ensures length == 1 && moveCount == 0
    {
      this.width := width;
      this.height := height;
      board := new int[height, width]((_, _) => EMPTY);
      length := 1;
      var startX, startY := width / 2, height / 2;
      snake := new Snake(startX, startY);
      maxLength := width * height - 1;
      moveCount := 0;
      foodPos := Cell(startX, startY);
      new;
      var (row, column) := InitialHeadIndex(width, height);
      board[row, column] := HEAD;
      ghost var start := Cell(startX, startY);
      assert forall y, x :: 0 <= y < height && 0 <= x < width ==>
        board[y, x] == if Cell(x, y) == start then HEAD else EMPTY;
      ghost var other := if start == Cell(0, 0) then Cell(width - 1, height - 1) else Cell(0, 0);
      assert InGrid(width, height, other) && board[other.y, other.x] == EMPTY;
      var found := SpawnFood();
      assert foodPos != start;
      forall y, x | 0 <= y < height && 0 <= x < width
        ensures board[y, x] == Expected(snake.segments, foodPos, Cell(x, y))
      {
      }
    }

    /**
     * `make_move`: an illegal move only counts the call and ends the game.
     * A legal move onto the food grows the snake by a new head and respawns
     * the food; any other legal move shifts the body one step. The game is
     * also over once the snake reaches `maxLength`. Eating the last free cell
     * leaves no cell for the food: `Err(NoEmptyCell)`.
     */
    method MakeMove(d: Direction) returns (r: Result<bool>)
      requires Valid()
      modifies this, board, snake
      ensures var t := Offset(old(Head()), d);
        && (!old(CheckValid(d)) ==>
              && r == Ok(true) && Valid() && unchanged(board)
              && snake.segments == old(snake.segments) && length == old(length) && foodPos == old(foodPos))
        && (old(CheckValid(d)) && t == old(foodPos) && old(length) < maxLength ==>
              && Valid() && r == Ok(length == maxLength)
              && snake.segments == old(snake.segments) + [t] && length == old(length) + 1
              && board[t.y, t.x] == HEAD)
        && (old(CheckValid(d)) && t == old(foodPos) && old(length) == maxLength ==>
              && r == Err(NoEmptyCell) && BoardMatches()
              && snake.segments == old(snake.segments) + [t] && length == old(length)
              && moveCount == old(moveCount))
        && (old(CheckValid(d)) && t != old(foodPos) ==>
              && Valid() && r == Ok(length == maxLength)
              && snake.segments == old(snake.segments)[1..] + [t]
              && length == old(length) && foodPos == old(foodPos)
              && board[t.y, t.x] == HEAD)
      ensures r.Ok? ==> moveCount == old(moveCount) + 1
    {
      var gameOver := false;
      if CheckValid(d) {
        var pot := PotentialPosition(d);
        assert board[pot.y, pot.x] == Expected(snake.segments, foodPos, pot);
        if board[pot.y, pot.x] == FOOD {
          var found := Eat(d);
          if !found {
            return Err(NoEmptyCell);
          }
        } else {
          Shift(d);
        }
      } else {
        gameOver := true;
      }
      if length == maxLength {
        gameOver := true;
      }
      moveCount := moveCount + 1;
      r := Ok(gameOver);
    }

    /**
     * The first half of eating: the old head becomes body and a new head
     * node is linked on the food cell; the board shows the grown snake.
     */
    method Grow(d: Direction)
      requires Valid() && CheckValid(d) && PotentialPosition(d) == foodPos
      modifies board, snake
      ensures snake.segments == old(snake.segments) + [foodPos]
      ensures Distinct(snake.segments)
      ensures forall i :: 0 <= i < |snake.segments| ==> InGrid(width, height, snake.segments[i])
      ensures forall y, x :: 0 <= y < height && 0 <= x < width ==>
        board[y, x] == Expected(snake.segments, foodPos, Cell(x, y))
    {
      ghost var segs := snake.segments;
      var head := Head();
      board[head.y, head.x] := BODY;
      var pot := PotentialPosition(d);
      snake.NewHead(pot.x, pot.y);
      board[pot.y, pot.x] := HEAD;
      forall y, x | 0 <= y < height && 0 <= x < width
        ensures board[y, x] == Expected(snake.segments, foodPos, Cell(x, y))
      {
        GrowExpected(segs, foodPos, Cell(x, y));
      }
      GrowKeepsDistinct(segs, pot);
    }

    /**
     * The eating branch of `make_move`: the old head becomes body, a new head
     * node is linked on the food cell, the food respawns, and the length grows
     * once the food has found a cell.
     */
    method Eat(d: Direction) returns (found: bool)
      requires Valid() && CheckValid(d) && PotentialPosition(d) == foodPos
      modifies this`length, this`foodPos, board, snake
      ensures var t := old(PotentialPosition(d));
        && snake.segments == old(snake.segments) + [t]
        && board[t.y, t.x] == HEAD
        && (found <==> old(length) < maxLength)
        && (found ==> Valid() && length == old(length) + 1)
        && (!found ==> BoardMatches() && length == old(length))
    {
      ghost var food := foodPos;
      Grow(d);
      ghost var grown := snake.segments;
      if length < maxLength {
        FreeCellExists(width, height, grown);
        ghost var c :| InGrid(width, height, c) && c !in grown;
        assert board[c.y, c.x] == Expected(grown, food, c);
      } else {
        NoFreeCell(width, height, grown);
      }
      found := SpawnFood();
      if !found {
        return;
      }
      forall y, x | 0 <= y < height && 0 <= x < width
        ensures board[y, x] == Expected(grown, foodPos, Cell(x, y))
      {
        SpawnExpected(grown, food, foodPos, Cell(x, y));
      }
      assert foodPos !in grown by {
        assert Cell(foodPos.x, foodPos.y) == foodPos;
        assert board[foodPos.y, foodPos.x] == Expected(grown, foodPos, foodPos);
      }
      length := length + 1;
    }

    /**
     * The moving branch of `make_move`: the old head becomes body, the body
     * shifts one step, the vacated tail cell is cleared and the new head
     * marked (in that order, so a head that steps onto the old tail wins).
     */
    method Shift(d: Direction)
      requires Valid() && CheckValid(d) && PotentialPosition(d) != foodPos
      modifies board, snake
      ensures var t := old(PotentialPosition(d));
        && Valid()
        && snake.segments == old(snake.segments)[1..] + [t]
        && board[t.y, t.x] == HEAD
    {
      ghost var segs := snake.segments;
      var head := Head();
      board[head.y, head.x] := BODY;
      var pot := PotentialPosition(d);
      var oldTail, newHead := snake.Move(d);
      board[oldTail.y, oldTail.x] := EMPTY;
      board[newHead.y, newHead.x] := HEAD;
      forall y, x | 0 <= y < height && 0 <= x < width
        ensures board[y, x] == Expected(snake.segments, foodPos, Cell(x, y))
      {
        ShiftExpected(segs, foodPos, pot, Cell(x, y));
      }
      ShiftKeepsDistinct(segs, pot);
    }
  }

  /**
   * A step that leaves the body and the length as they were leaves the legal
   * moves as they were: after an illegal move none is legal that was not
   * legal before.
   */
  twostate lemma SameLegalMoves(game: SnakeGame)
    requires old(game.Valid()) && game.Valid()
    requires game.snake.segments == old(game.snake.segments) && game.length == old(game.length)
    ensures forall d :: game.CheckValid(d) == old(game.CheckValid(d))
    ensures game.Stuck() == old(game.Stuck())
  {
  }

  lemma GrowKeepsDistinct(segments: seq<Cell>, t: Cell)
    requires Distinct(segments) && t !in segments
    ensures Distinct(segments + [t])
  {
  }

  lemma ShiftKeepsDistinct(segments: seq<Cell>, t: Cell)
    requires |segments| >= 1 && Distinct(segments)
    requires t !in segments[1..]
    ensures Distinct(segments[1..] + [t])
  {
  }
}
