/**
 * The fixed Hamiltonian walk of a width x height grid and its inverse index.
 *
 * The walk goes down column 0, steps right into (1, height-1), and then sweeps
 * the columns 1..width-1 one row at a time from the bottom row to the top row,
 * turning round at each end of a row. `CycleAt` and `OrderOf` give the walk and
 * its inverse in closed form; `InitCycle` and `InitPositionMap` are the loops
 * that build them, proved equal to the closed forms.
 */
module Hamiltonian {
  import opened Grid
  import opened Arithmetic

  // ---------------------------------------------------------------------------
  // The walk in closed form

  /** Index of the row band of step `i >= height`: 0 is the bottom row, height-1 the top row. */
  function Band(width: int, height: int, i: int): int
    requires width >= 2
  {
    (i - height) / (width - 1)
  }

  /** How many cells of its row band step `i >= height` has already passed. */
  function Along(width: int, height: int, i: int): int
    requires width >= 2
  {
    (i - height) % (width - 1)
  }

  /** The horizontal heading (`axis0_move`) of the row band of step `i`: right on even bands. */
  function Heading(width: int, height: int, i: int): int
    requires width >= 2
  {
    if Band(width, height, i) % 2 == 0 then 1 else -1
  }

  /** The `i`-th cell of the walk. */
  function CycleAt(width: int, height: int, i: int): Cell
    requires width >= 2
  {
    if i < height then Cell(0, i)
    else
      var r, k := Band(width, height, i), Along(width, height, i);
      Cell(if r % 2 == 0 then 1 + k else width - 1 - k, height - 1 - r)
  }

  /** The index at which the walk visits `c`: `get_position_order` on a well-formed map. */
  function OrderOf(width: int, height: int, c: Cell): int
    requires width >= 2
  {
    if c.x == 0 then c.y
    else
      var r := height - 1 - c.y;
      height + r * (width - 1) + (if r % 2 == 0 then c.x - 1 else width - 1 - c.x)
  }

  /** Every step of the walk is a cell of the grid, and steps past column 0 have x in [1, width). */
  lemma CycleAtInGrid(width: int, height: int, i: int)
    requires width >= 2 && height >= 1 && 0 <= i < width * height
    ensures InGrid(width, height, CycleAt(width, height, i))
    ensures i >= height ==> 1 <= CycleAt(width, height, i).x < width
  {
    if i >= height {
      assert i - height < height * (width - 1);
      DivBelow(i - height, width - 1, height);
    }
  }

  /** The index of a cell is an index of the walk. */
  lemma OrderOfRange(width: int, height: int, c: Cell)
    requires width >= 2 && height >= 1 && InGrid(width, height, c)
    ensures 0 <= OrderOf(width, height, c) < width * height
    ensures c.x != 0 ==> OrderOf(width, height, c) >= height
  {
    if c.x != 0 {
      var r := height - 1 - c.y;
      MulMono(r, height - 1, width - 1);
      MulMono(0, r, width - 1);
      assert (height - 1) * (width - 1) == width * height - width - height + 1;
    }
  }

  /** `OrderOf` undoes `CycleAt`: no step is visited twice. */
  lemma OrderOfCycleAt(width: int, height: int, i: int)
    requires width >= 2 && height >= 1 && 0 <= i < width * height
    ensures OrderOf(width, height, CycleAt(width, height, i)) == i
  {
    CycleAtInGrid(width, height, i);
    if i >= height {
      var m, j := width - 1, i - height;
      var r, k := j / m, j % m;
      assert j == r * m + k;
      var c := CycleAt(width, height, i);
      assert c.y == height - 1 - r && height - 1 - c.y == r;
      if r % 2 == 0 {
        assert c.x - 1 == k;
      } else {
        assert width - 1 - c.x == k;
      }
    }
  }

  /** `CycleAt` undoes `OrderOf`: every cell of the grid is visited. */
  lemma CycleAtOrderOf(width: int, height: int, c: Cell)
    requires width >= 2 && height >= 1 && InGrid(width, height, c)
    ensures CycleAt(width, height, OrderOf(width, height, c)) == c
  {
    OrderOfRange(width, height, c);
    if c.x != 0 {
      var r := height - 1 - c.y;
      var k := if r % 2 == 0 then c.x - 1 else width - 1 - c.x;
      DivModUnique(r * (width - 1) + k, width - 1, r, k);
    }
  }

  /** From step `i` to step `i + 1` the sweep moves one cell along its row band, or starts the next band. */
  lemma BandStep(width: int, height: int, i: int)
    requires width >= 2 && i >= height
    ensures 0 <= Along(width, height, i) < width - 1
    ensures Along(width, height, i) < width - 2 ==>
      Band(width, height, i + 1) == Band(width, height, i) && Along(width, height, i + 1) == Along(width, height, i) + 1
    ensures Along(width, height, i) == width - 2 ==>
      Band(width, height, i + 1) == Band(width, height, i) + 1 && Along(width, height, i + 1) == 0
  {
    var m := width - 1;
    var j := i - height;
    var r, k := j / m, j % m;
    assert j == r * m + k;
    if k < m - 1 {
      DivModUnique(j + 1, m, r, k + 1);
    } else {
      DivModUnique(j + 1, m, r + 1, 0);
    }
  }

  /** One step of the sweep: the move `_init_cycle` makes from step `i` to step `i + 1`. */
  lemma CycleStep(width: int, height: int, i: int)
    requires width >= 2 && height >= 1 && height <= i < width * height - 1
    ensures var c, a := CycleAt(width, height, i), Heading(width, height, i);
      if 1 <= c.x + a < width then
        CycleAt(width, height, i + 1) == Cell(c.x + a, c.y) && Heading(width, height, i + 1) == a
      else
        CycleAt(width, height, i + 1) == Cell(c.x, c.y - 1) && Heading(width, height, i + 1) == -a
  {
    BandStep(width, height, i);
  }

  /** Consecutive steps of the walk are 4-neighbours. */
  lemma CycleAdjacent(width: int, height: int, i: int)
    requires width >= 2 && height >= 1 && 0 <= i < width * height - 1
    ensures Adjacent(CycleAt(width, height, i), CycleAt(width, height, i + 1))
  {
    if i == height - 1 {
      DivModUnique(0, width - 1, 0, 0);
    } else if i >= height {
      CycleStep(width, height, i);
    }
  }

  /** With an even height the walk ends at (1, 0), next to its start (0, 0): it is a closed cycle. */
  lemma CycleClosedForEvenHeight(width: int, height: int)
    requires width >= 2 && height >= 2 && height % 2 == 0
    ensures CycleAt(width, height, width * height - 1) == Cell(1, 0)
    ensures Adjacent(CycleAt(width, height, width * height - 1), CycleAt(width, height, 0))
  {
    var m := width - 1;
    assert width * height - 1 - height == (height - 1) * m + (m - 1);
    DivModUnique(width * height - 1 - height, m, height - 1, m - 1);
  }

  /** With an odd height the walk ends at (width-1, 0), which is next to (0, 0) only when width == 2. */
  lemma CycleEndForOddHeight(width: int, height: int)
    requires width >= 2 && height >= 1 && height % 2 == 1
    ensures CycleAt(width, height, width * height - 1) == Cell(width - 1, 0)
  {
    var m := width - 1;
    assert width * height - 1 - height == (height - 1) * m + (m - 1);
    DivModUnique(width * height - 1 - height, m, height - 1, m - 1);
  }

  // ---------------------------------------------------------------------------
  // The construction, as the loops of the source

  /**
   * Every cell of the walk is one step from the next one, wrapping around
   * from the last to the first, unless the number of rows is odd and there
   * are more than two columns: the last cell is then the top-right corner,
   * not next to the first.
   */
  lemma CycleSuccessorAdjacent(width: int, height: int, i: int)
    requires width >= 2 && height >= 1 && 0 <= i < width * height
    ensures i < width * height - 1 || height % 2 == 0 || width == 2 ==>
      Adjacent(CycleAt(width, height, i), CycleAt(width, height, (i + 1) % (width * height)))
    ensures i == width * height - 1 && height % 2 == 1 && width > 2 ==>
      !Adjacent(CycleAt(width, height, i), CycleAt(width, height, (i + 1) % (width * height)))
  {
    var n := width * height;
    var j := (i + 1) % n;
    if i < n - 1 {
      ModNear(i + 1, n);
      assert j == i + 1;
      CycleAdjacent(width, height, i);
    } else {
      DivModUnique(i + 1, n, 1, 0);
      assert j == 0;
      var first := CycleAt(width, height, 0);
      assert first == Cell(0, 0);
      if height % 2 == 0 {
        CycleClosedForEvenHeight(width, height);
      } else {
        CycleEndForOddHeight(width, height);
        assert CycleAt(width, height, i) == Cell(width - 1, 0);
      }
    }
  }

  /** The cell with its row and column exchanged. */
  function Transposed(c: Cell): Cell {
    Cell(c.y, c.x)
  }

  /**
   * A walk that closes whenever one side of the grid is even: the walk above
   * when the height is even or the width is two, and otherwise the walk of
   * the transposed grid (whose height, the width here, is then even) read
   * back with rows and columns exchanged.
   */
  function ClosingCycleAt(width: int, height: int, i: int): Cell
    requires width >= 2 && height >= 2
  {
    if height % 2 == 0 || width == 2 then CycleAt(width, height, i)
    else Transposed(CycleAt(height, width, i))
  }

  /** With an even side, each step of the corrected walk is on the grid and next to the following step, the last one included. */
  lemma ClosingCycleStep(width: int, height: int, i: int)
    requires width >= 2 && height >= 2 && (width % 2 == 0 || height % 2 == 0) && 0 <= i < width * height
    ensures InGrid(width, height, ClosingCycleAt(width, height, i))
    ensures Adjacent(ClosingCycleAt(width, height, i), ClosingCycleAt(width, height, (i + 1) % (width * height)))
  {
    if height % 2 == 0 || width == 2 {
      CycleAtInGrid(width, height, i);
      CycleSuccessorAdjacent(width, height, i);
    } else {
      assert height * width == width * height;
      CycleAtInGrid(height, width, i);
      CycleSuccessorAdjacent(height, width, i);
    }
  }

  /** The corrected walk visits no cell twice. */
  lemma ClosingCycleVisitsOnce(width: int, height: int, i: int, j: int)
    requires width >= 2 && height >= 2 && 0 <= i < j < width * height
    ensures ClosingCycleAt(width, height, i) != ClosingCycleAt(width, height, j)
  {
    if height % 2 == 0 || width == 2 {
      OrderOfCycleAt(width, height, i);
      OrderOfCycleAt(width, height, j);
    } else {
      assert height * width == width * height;
      OrderOfCycleAt(height, width, i);
      OrderOfCycleAt(height, width, j);
    }
  }

  /** The corrected walk visits every cell of the grid. */
  lemma ClosingCycleCovers(width: int, height: int, c: Cell)
    requires width >= 2 && height >= 2 && InGrid(width, height, c)
    ensures exists i :: 0 <= i < width * height && ClosingCycleAt(width, height, i) == c
  {
    if height % 2 == 0 || width == 2 {
      OrderOfRange(width, height, c);
      CycleAtOrderOf(width, height, c);
      assert ClosingCycleAt(width, height, OrderOf(width, height, c)) == c;
    } else {
      var t := Transposed(c);
      assert height * width == width * height;
      OrderOfRange(height, width, t);
      CycleAtOrderOf(height, width, t);
      assert ClosingCycleAt(width, height, OrderOf(height, width, t)) == c;
    }
  }

  /**
   * On a 4 x 3 grid, whose width is even, the walk ends at (3, 0), two cells
   * away from its start (0, 0); the corrected walk ends next to its start.
   */
  lemma OddHeightWalkOpen()
    ensures CycleAt(4, 3, 11) == Cell(3, 0) && CycleAt(4, 3, 0) == Cell(0, 0)
    ensures !Adjacent(CycleAt(4, 3, 11), CycleAt(4, 3, 0))
    ensures Adjacent(ClosingCycleAt(4, 3, 11), ClosingCycleAt(4, 3, 0))
  {
    CycleEndForOddHeight(4, 3);
    ClosingCycleStep(4, 3, 11);
  }

  /** `[(0, i) for i in range(height)]`: column 0 from top to bottom. */
  function Column(height: nat): seq<Cell> {
    seq(height, i => Cell(0, i))
  }

  /**
   * A prefix of the closed-form walk, past column 0 and the step right, with
   * `heading` the row direction of its last cell.
   */
  ghost predicate WalkPrefix(width: int, height: int, path: seq<Cell>, heading: int) {
    && width >= 2 && height + 1 <= |path| <= width * height
    && (forall i :: 0 <= i < |path| ==> path[i] == CycleAt(width, height, i))
    && heading == Heading(width, height, |path| - 1)
  }

  /** One pass of the sweep loop extends a prefix of the walk by its next cell. */
  lemma WalkPrefixExtends(width: int, height: int, path: seq<Cell>, heading: int)
    requires WalkPrefix(width, height, path, heading) && |path| < width * height
    ensures var cur := path[|path| - 1];
      if 1 <= cur.x + heading < width then WalkPrefix(width, height, path + [Cell(cur.x + heading, cur.y)], heading)
      else WalkPrefix(width, height, path + [Cell(cur.x, cur.y - 1)], -heading)
  {
    CycleStep(width, height, |path| - 1);
  }

  /**
   * `_init_cycle`: column 0 downwards, one step right, then the row sweep. For
   * width >= 2 the result is the closed-form walk; for width <= 1 the loop
   * never runs and the list ends with the off-grid cell (1, height-1).
   */
  method InitCycle(width: int, height: int) returns (path: seq<Cell>)
    requires width >= 0 && height >= 1
    ensures width >= 2 ==> |path| == width * height
    ensures width >= 2 ==> forall i :: 0 <= i < |path| ==> path[i] == CycleAt(width, height, i)
    ensures width <= 1 ==> path == Column(height) + [Cell(1, height - 1)]
    ensures |path| > height && path[..height] == Column(height) && path[height] == Cell(1, height - 1)
  {
    path := Column(height);
    path := path + [Cell(1, path[|path| - 1].y)];
    var cur := path[|path| - 1];
    var axis0Move, axis1Move := 1, -1;
    if width <= 1 {
      assert width * height <= height by { if width == 1 { } else { assert width == 0; } }
    } else {
      MulMono(2, width, height);
      DivModUnique(0, width - 1, 0, 0);
    }
    while |path| < width * height
      invariant height + 1 <= |path|
      invariant cur == path[|path| - 1]
      invariant axis1Move == -1
      invariant path[..height + 1] == Column(height) + [Cell(1, height - 1)]
      invariant width <= 1 ==> path == Column(height) + [Cell(1, height - 1)]
      invariant width >= 2 ==> WalkPrefix(width, height, path, axis0Move)
      decreases width * height - |path|
    {
      WalkPrefixExtends(width, height, path, axis0Move);
      var next;
      if 1 <= cur.x + axis0Move < width {
        next := Cell(cur.x + axis0Move, cur.y);
      } else {
        next := Cell(cur.x, cur.y + axis1Move);
        axis0Move := if axis0Move == 1 then -1 else 1;
      }
      path := path + [next];
      cur := next;
    }
  }

  /**
   * `_init_position_map`: each cell of the list maps to the index of its last
   * occurrence (a later `mapping[pos] = i` overwrites an earlier one).
   */
  method InitPositionMap(cycle: seq<Cell>) returns (mapping: map<Cell, int>)
    ensures forall c :: c in mapping <==> c in cycle
    ensures forall c :: c in mapping ==> 0 <= mapping[c] < |cycle| && cycle[mapping[c]] == c
    ensures forall c, j :: c in mapping && mapping[c] < j < |cycle| ==> cycle[j] != c
  {
    mapping := map[];
    var i := 0;
    while i < |cycle|
      invariant 0 <= i <= |cycle|
      invariant forall c :: c in mapping <==> c in cycle[..i]
      invariant forall c :: c in mapping ==> 0 <= mapping[c] < i && cycle[mapping[c]] == c
      invariant forall c, j :: c in mapping && mapping[c] < j < i ==> cycle[j] != c
    {
      mapping := mapping[cycle[i] := i];
      i := i + 1;
      assert cycle[..i] == cycle[..i - 1] + [cycle[i - 1]];
    }
    assert cycle[..i] == cycle;
  }

  /** The built cycle: its size, the list of cells and the inverse index. */
  datatype HamiltonianCycle = HamiltonianCycle(width: int, height: int, cycle: seq<Cell>, positionMap: map<Cell, int>)
  {
    /** What construction guarantees for a grid at least two columns wide. */
    ghost predicate WellFormed() {
      && width >= 2 && height >= 1
      && |cycle| == width * height
      && (forall i :: 0 <= i < |cycle| ==> cycle[i] == CycleAt(width, height, i))
      && (forall c :: c in positionMap <==> InGrid(width, height, c))
      && (forall c :: c in positionMap ==> positionMap[c] == OrderOf(width, height, c))
    }
  }

  /** `HamiltonianCycle.__init__`: build the walk and then its inverse index. */
  method NewHamiltonianCycle(width: int, height: int) returns (hc: HamiltonianCycle)
    requires width >= 2 && height >= 1
    ensures hc.WellFormed() && hc.width == width && hc.height == height
  {
    var cycle := InitCycle(width, height);
    var positionMap := InitPositionMap(cycle);
    hc := HamiltonianCycle(width, height, cycle, positionMap);
    forall c | InGrid(width, height, c) ensures c in positionMap {
      OrderOfRange(width, height, c);
      CycleAtOrderOf(width, height, c);
      assert cycle[OrderOf(width, height, c)] == c;
    }
    forall c | c in positionMap ensures InGrid(width, height, c) && positionMap[c] == OrderOf(width, height, c) {
      var i := positionMap[c];
      CycleAtInGrid(width, height, i);
      OrderOfCycleAt(width, height, i);
    }
  }

  /** `get_position_order`: the cycle index of a cell, or `None` for the source's `KeyError`. */
  function GetPositionOrder(hc: HamiltonianCycle, pos: Cell): (r: Option<int>)
    requires hc.WellFormed()
    ensures r.Some? <==> InGrid(hc.width, hc.height, pos)
    ensures r.Some? ==> 0 <= r.value < |hc.cycle| && hc.cycle[r.value] == pos
  {
    if pos in hc.positionMap then
      OrderOfRange(hc.width, hc.height, pos);
      CycleAtOrderOf(hc.width, hc.height, pos);
      Some(hc.positionMap[pos])
    else None
  }

  /** The order lookup and the cycle are inverse to each other in both directions. */
  lemma PositionOrderRoundTrip(hc: HamiltonianCycle, i: int)
    requires hc.WellFormed() && 0 <= i < |hc.cycle|
    ensures GetPositionOrder(hc, hc.cycle[i]) == Some(i)
  {
    CycleAtInGrid(hc.width, hc.height, i);
    OrderOfCycleAt(hc.width, hc.height, i);
  }

  /** On a closing walk (an even number of rows, or two columns) each cell is next to its successor, the last to the first. */
  lemma ClosingSuccessorAdjacent(hc: HamiltonianCycle, i: int)
    requires hc.WellFormed() && (hc.height % 2 == 0 || hc.width == 2) && 0 <= i < |hc.cycle|
    ensures Adjacent(hc.cycle[i], hc.cycle[(i + 1) % |hc.cycle|])
  {
    var n := |hc.cycle|;
    var j := (i + 1) % n;
    if i < n - 1 {
      ModNear(i + 1, n);
    } else {
      DivModUnique(i + 1, n, 1, 0);
    }
    assert 0 <= j < n;
    assert hc.cycle[i] == CycleAt(hc.width, hc.height, i);
    assert hc.cycle[j] == CycleAt(hc.width, hc.height, j);
    CycleSuccessorAdjacent(hc.width, hc.height, i);
  }

  /** The walk visits every cell of the grid exactly once. */
  lemma CycleIsPermutation(hc: HamiltonianCycle)
    requires hc.WellFormed()
    ensures Distinct(hc.cycle)
    ensures forall i :: 0 <= i < |hc.cycle| ==> InGrid(hc.width, hc.height, hc.cycle[i])
    ensures forall c :: InGrid(hc.width, hc.height, c) ==> c in hc.cycle
  {
    forall i, j | 0 <= i < j < |hc.cycle| ensures hc.cycle[i] != hc.cycle[j] {
      OrderOfCycleAt(hc.width, hc.height, i);
      OrderOfCycleAt(hc.width, hc.height, j);
    }
    forall i | 0 <= i < |hc.cycle| ensures InGrid(hc.width, hc.height, hc.cycle[i]) {
      CycleAtInGrid(hc.width, hc.height, i);
    }
    forall c | InGrid(hc.width, hc.height, c) ensures c in hc.cycle {
      OrderOfRange(hc.width, hc.height, c);
      CycleAtOrderOf(hc.width, hc.height, c);
      assert hc.cycle[OrderOf(hc.width, hc.height, c)] == c;
    }
  }
}
