/**
 * Cells, directions and the shared vocabulary of the snake model: unit offsets,
 * 4-adjacency, the failures the source raises, and the counting facts about
 * the cells of a width x height grid that the food placement relies on.
 */
module Grid {

  /** A board position: x is the column, y the row; row 0 is the top row. */
  datatype Cell = Cell(x: int, y: int)

  /** The four moves, declared in the order the source enumerates them. */
  datatype Direction = Up | Right | Down | Left

  /** `[Direction.UP, Direction.RIGHT, Direction.DOWN, Direction.LEFT]` and `for action in Direction`. */
  const AllDirections: seq<Direction> := [Up, Right, Down, Left]

  datatype Option<T> = None | Some(value: T)

  /** The fatal conditions of the source: an exception it raises, or a case it leaves undetected. */
  datatype Failure =
    | NoEmptyCell                 // `random.choice` on an empty list of food candidates
    | DirectionNotFound(target: Cell)  // no single step reaches the next cell of a plan or of the cycle
    | EmptyPlan                   // `pop(0)` on an empty planner result
    | HeadNotInCycle              // the head is missing from the Hamiltonian cycle

  datatype Result<T> = Ok(value: T) | Err(failure: Failure)

  predicate InGrid(width: int, height: int, c: Cell) {
    0 <= c.x < width && 0 <= c.y < height
  }

  /** 4-neighbours: the cells differ by one in exactly one coordinate. */
  predicate Adjacent(a: Cell, b: Cell) {
    (a.x == b.x && (a.y - b.y == 1 || b.y - a.y == 1)) ||
    (a.y == b.y && (a.x - b.x == 1 || b.x - a.x == 1))
  }

  /** The unit vector of a direction: UP (0,-1), RIGHT (+1,0), DOWN (0,+1), LEFT (-1,0). */
  function Delta(d: Direction): (r: (int, int))
  {
    match d
    case Up => (0, -1)
    case Right => (1, 0)
    case Down => (0, 1)
    case Left => (-1, 0)
  }

  /** The cell one step from `c` in direction `d`; nothing is clamped to the board. */
  function Offset(c: Cell, d: Direction): (r: Cell)
    ensures Adjacent(c, r)
    ensures r.x - c.x == Delta(d).0 && r.y - c.y == Delta(d).1
  {
    match d
    case Up => Cell(c.x, c.y - 1)
    case Right => Cell(c.x + 1, c.y)
    case Down => Cell(c.x, c.y + 1)
    case Left => Cell(c.x - 1, c.y)
  }

  /** Different directions lead to different cells, and every neighbour is reached by one of them. */
  lemma OffsetBijective(c: Cell)
    ensures forall d, e :: Offset(c, d) == Offset(c, e) ==> d == e
    ensures forall b :: Adjacent(c, b) ==> exists d :: Offset(c, d) == b
  {
    forall b | Adjacent(c, b) ensures exists d :: Offset(c, d) == b {
      if b.x == c.x && b.y == c.y - 1 {
        assert Offset(c, Up) == b;
      } else if b.x == c.x && b.y == c.y + 1 {
        assert Offset(c, Down) == b;
      } else if b.x == c.x + 1 {
        assert Offset(c, Right) == b;
      } else {
        assert Offset(c, Left) == b;
      }
    }
  }

  /**
   * The first direction of `dirs` whose step from `from` lands on `to`: the
   * `for direction in ...: if potential_position(direction) == target: break`
   * searches of the strategies. `None` stands for the search that finds nothing.
   */
  function FirstReaching(dirs: seq<Direction>, from: Cell, to: Cell): (r: Option<Direction>)
    ensures r.Some? ==> r.value in dirs && Offset(from, r.value) == to
    ensures r.None? <==> forall d :: d in dirs ==> Offset(from, d) != to
  {
    if dirs == [] then None
    else if Offset(from, dirs[0]) == to then Some(dirs[0])
    else FirstReaching(dirs[1..], from, to)
  }

  /** Searching all four directions fails exactly when the target is not a 4-neighbour. */
  lemma FirstReachingAll(from: Cell, to: Cell)
    ensures FirstReaching(AllDirections, from, to).None? <==> !Adjacent(from, to)
  {
    OffsetBijective(from);
    if Adjacent(from, to) {
      var d :| Offset(from, d) == to;
      assert d in AllDirections;
    }
  }

  /** A reordering of the four directions still holds every direction. */
  lemma PermutationHoldsAll(order: seq<Direction>)
    requires multiset(order) == multiset(AllDirections)
    ensures forall d :: d in order
  {
    forall d ensures d in order {
      assert d == AllDirections[0] || d == AllDirections[1] || d == AllDirections[2] || d == AllDirections[3];
      assert d in multiset(AllDirections);
    }
  }

  /** `u` occurs in `order` before an occurrence of `v`. */
  ghost predicate Before<T>(order: seq<T>, u: T, v: T) {
    exists a, b :: 0 <= a < b < |order| && order[a] == u && order[b] == v
  }

  /** Any two elements of `r` occur in `order` in the same relative order. */
  ghost predicate KeepsOrder<T>(r: seq<T>, order: seq<T>) {
    forall i, j :: 0 <= i < j < |r| ==> Before(order, r[i], r[j])
  }

  /** Keeping or dropping the first element in front of an order-keeping selection of the rest keeps the order. */
  lemma KeepsOrderCons<T>(x: T, keep: bool, rest: seq<T>, tail: seq<T>)
    requires KeepsOrder(rest, tail) && forall e :: e in rest ==> e in tail
    ensures KeepsOrder((if keep then [x] else []) + rest, [x] + tail)
  {
    var r, order := (if keep then [x] else []) + rest, [x] + tail;
    var k := if keep then 1 else 0;
    forall i, j | 0 <= i < j < |r|
      ensures Before(order, r[i], r[j])
    {
      assert r[j] == rest[j - k] && rest[j - k] in tail;
      var b :| 0 <= b < |tail| && tail[b] == r[j];
      if keep && i == 0 {
        assert order[0] == r[i] && order[b + 1] == r[j];
      } else {
        assert Before(tail, rest[i - k], rest[j - k]);
        var a', b' :| 0 <= a' < b' < |tail| && tail[a'] == rest[i - k] && tail[b'] == rest[j - k];
        assert order[a' + 1] == r[i] && order[b' + 1] == r[j];
      }
    }
  }

  // ---------------------------------------------------------------------------
  // Counting the cells of a grid

  ghost predicate Distinct<T>(s: seq<T>) {
    forall i, j :: 0 <= i < j < |s| ==> s[i] != s[j]
  }

  /** The set of the elements of a sequence, built from the left. */
  ghost function Elements<T>(s: seq<T>): set<T> {
    if s == [] then {} else Elements(s[..|s| - 1]) + {s[|s| - 1]}
  }

  lemma {:induction false} ElementsMembership<T>(s: seq<T>)
    ensures forall e :: e in Elements(s) <==> e in s
  {
    if s != [] {
      ElementsMembership(s[..|s| - 1]);
      assert s == s[..|s| - 1] + [s[|s| - 1]];
    }
  }

  lemma {:induction false} DistinctElementsSize<T>(s: seq<T>)
    requires Distinct(s)
    ensures |Elements(s)| == |s|
  {
    if s != [] {
      var init := s[..|s| - 1];
      DistinctElementsSize(init);
      ElementsMembership(init);
      assert s[|s| - 1] !in init;
    }
  }

  lemma SubsetSize<T>(a: set<T>, b: set<T>)
    requires a <= b
    ensures |a| <= |b|
    ensures a != b ==> |a| < |b|
  {
    var rest := b - a;
    assert b == a + rest && a !! rest;
    if a != b {
      var e :| e in b && e !in a;
      assert e in rest;
    }
  }

  /** The cells of row `y` with x < width. */
  ghost function RowCells(width: nat, y: int): set<Cell> {
    if width == 0 then {} else RowCells(width - 1, y) + {Cell(width - 1, y)}
  }

  /** The cells of the first `height` rows. */
  ghost function GridCells(width: nat, height: nat): set<Cell> {
    if height == 0 then {} else GridCells(width, height - 1) + RowCells(width, height - 1)
  }

  lemma {:induction false} RowCellsSize(width: nat, y: int)
    ensures |RowCells(width, y)| == width
    ensures forall c :: c in RowCells(width, y) <==> c.y == y && 0 <= c.x < width
  {
    if width > 0 {
      RowCellsSize(width - 1, y);
    }
  }

  lemma {:induction false} GridCellsMembership(width: nat, height: nat)
    ensures forall c :: c in GridCells(width, height) <==> InGrid(width, height, c)
  {
    if height > 0 {
      GridCellsMembership(width, height - 1);
      RowCellsSize(width, height - 1);
    }
  }

  lemma {:induction false} GridCellsSize(width: nat, height: nat)
    ensures |GridCells(width, height)| == width * height
  {
    if height > 0 {
      var h := height - 1;
      GridCellsSize(width, h);
      GridCellsMembership(width, h);
      RowCellsSize(width, h);
      var upper, row := GridCells(width, h), RowCells(width, h);
      forall c | c in row ensures c !in upper {
      }
      assert upper !! row;
      assert |upper + row| == width * h + width;
      MulSucc(width, h);
    }
  }

  lemma MulSucc(a: int, b: int)
    ensures a * (b + 1) == a * b + a
  {
  }

  /** Distinct in-grid cells that are fewer than the grid's cells leave a free cell. */
  lemma FreeCellExists(width: nat, height: nat, s: seq<Cell>)
    requires Distinct(s) && |s| < width * height
    requires forall i :: 0 <= i < |s| ==> InGrid(width, height, s[i])
    ensures exists c :: InGrid(width, height, c) && c !in s
  {
    GridCellsSize(width, height);
    GridCellsMembership(width, height);
    DistinctElementsSize(s);
    ElementsMembership(s);
    var g := GridCells(width, height);
    if g <= Elements(s) {
      SubsetSize(g, Elements(s));
      assert false;
    }
    var c :| c in g && c !in Elements(s);
  }

  /** Distinct in-grid cells as many as the grid's cells cover the whole grid. */
  lemma NoFreeCell(width: nat, height: nat, s: seq<Cell>)
    requires Distinct(s) && |s| == width * height
    requires forall i :: 0 <= i < |s| ==> InGrid(width, height, s[i])
    ensures forall c :: InGrid(width, height, c) ==> c in s
  {
    GridCellsSize(width, height);
    GridCellsMembership(width, height);
    DistinctElementsSize(s);
    ElementsMembership(s);
    var g := GridCells(width, height);
    assert Elements(s) <= g;
    if Elements(s) != g {
      SubsetSize(Elements(s), g);
      assert false;
    }
  }
}
