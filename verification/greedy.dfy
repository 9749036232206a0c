/**
 * The greedy strategy: among the legal moves whose cycle shortcut towards the
 * food gains more than a cutoff, take the one with the largest gain that does
 * not overtake the tail; otherwise follow the Hamiltonian cycle.
 *
 * The source sorts the shortcuts with Python's stable `sorted(..., reverse=True)`
 * and takes the first that passes its checks; that is proved to be the
 * earliest shortcut of largest gain among those that pass.
 */
module Greedy {
  import opened Grid
  import opened Hamiltonian
  import opened Ordering
  import opened Game
  import opened Strategy

  /** A legal direction and the shortcut it gains, `(direction, shortcut_gained)`. */
  datatype Shortcut = Shortcut(direction: Direction, gain: int)

  /**
   * `get_shortcut_gained` for the cell one step from the head: how many
   * fewer forward steps along the cycle separate that cell from the food
   * than separate the head from it.
   */
  function GainOf(s: Snapshot, hc: HamiltonianCycle, d: Direction): (r: int)
    requires Coherent(s, hc) && d in s.valid
    ensures var n, f := |hc.cycle|, Order(hc, s.food);
      r == CircDist(Order(hc, s.head), f, n) - CircDist(Order(hc, Offset(s.head, d)), f, n)
    ensures -|hc.cycle| < r < |hc.cycle|
  {
    var h, p, f := Order(hc, s.head), Order(hc, Offset(s.head, d)), Order(hc, s.food);
    ShortcutGainCircular(h, p, f, |hc.cycle|);
    ShortcutGain(h, p, f, |hc.cycle|)
  }

  /** The directions of a list of shortcuts, in the same order. */
  ghost function DirectionsOf(xs: seq<Shortcut>): (r: seq<Direction>)
    ensures |r| == |xs| && forall i :: 0 <= i < |xs| ==> r[i] == xs[i].direction
  {
    seq(|xs|, i requires 0 <= i < |xs| => xs[i].direction)
  }

  /** The shortcuts of `dirs` (legal directions, in order) that gain more than the cutoff, in the order of `dirs`. */
  function Candidates(s: Snapshot, hc: HamiltonianCycle, dirs: seq<Direction>, gainCutoff: int): (r: seq<Shortcut>)
    requires Coherent(s, hc) && forall d :: d in dirs ==> d in s.valid
    ensures forall x :: x in r ==> x.direction in dirs && x.gain == GainOf(s, hc, x.direction) && x.gain > gainCutoff
    ensures forall d :: d in dirs && GainOf(s, hc, d) > gainCutoff ==> Shortcut(d, GainOf(s, hc, d)) in r
    ensures KeepsOrder(DirectionsOf(r), dirs)
    ensures |r| <= |dirs|
  {
    if dirs == [] then []
    else
      var gain := GainOf(s, hc, dirs[0]);
      var rest := Candidates(s, hc, dirs[1..], gainCutoff);
      KeepsOrderConsShortcut(Shortcut(dirs[0], gain), gain > gainCutoff, rest, dirs[1..]);
      assert [dirs[0]] + dirs[1..] == dirs;
      (if gain > gainCutoff then [Shortcut(dirs[0], gain)] else []) + rest
  }

  /** `KeepsOrderCons` for the directions of shortcuts. */
  lemma KeepsOrderConsShortcut(x: Shortcut, keep: bool, rest: seq<Shortcut>, tail: seq<Direction>)
    requires KeepsOrder(DirectionsOf(rest), tail) && forall y :: y in rest ==> y.direction in tail
    ensures KeepsOrder(DirectionsOf((if keep then [x] else []) + rest), [x.direction] + tail)
  {
    var first := if keep then [x] else [];
    assert DirectionsOf(first + rest) == (if keep then [x.direction] else []) + DirectionsOf(rest);
    forall e | e in DirectionsOf(rest) ensures e in tail {
      var i :| 0 <= i < |rest| && DirectionsOf(rest)[i] == e;
      assert rest[i] in rest;
    }
    KeepsOrderCons(x.direction, keep, DirectionsOf(rest), tail);
  }

  // ---------------------------------------------------------------------------
  // The stable descending sort

  ghost predicate SortedByGainDesc(xs: seq<Shortcut>) {
    forall i, j :: 0 <= i < j < |xs| ==> xs[i].gain >= xs[j].gain
  }

  /** Insert `x` in front of the first element whose gain does not exceed its own. */
  function InsertByGain(x: Shortcut, xs: seq<Shortcut>): (r: seq<Shortcut>)
    ensures multiset(r) == multiset(xs) + multiset{x}
  {
    if xs == [] || xs[0].gain <= x.gain then
      [x] + xs
    else
      assert xs == [xs[0]] + xs[1..];
      [xs[0]] + InsertByGain(x, xs[1..])
  }

  lemma {:induction false} InsertByGainSorted(x: Shortcut, xs: seq<Shortcut>)
    requires SortedByGainDesc(xs)
    ensures SortedByGainDesc(InsertByGain(x, xs))
  {
    if xs != [] && xs[0].gain > x.gain {
      InsertByGainSorted(x, xs[1..]);
      var rest := InsertByGain(x, xs[1..]);
      forall k | 0 <= k < |rest| ensures rest[k].gain <= xs[0].gain {
        assert rest[k] in multiset(rest);
        assert rest[k] == x || rest[k] in xs[1..];
      }
    }
  }

  /**
   * `sorted(shortcuts, key=gain, reverse=True)`: descending by gain, and equal
   * gains keep their original order, since each element is inserted in front
   * of the later elements of equal gain.
   */
  function SortByGainDesc(xs: seq<Shortcut>): (r: seq<Shortcut>)
    ensures multiset(r) == multiset(xs)
    ensures SortedByGainDesc(r)
  {
    if xs == [] then []
    else
      assert xs == [xs[0]] + xs[1..];
      InsertByGainSorted(xs[0], SortByGainDesc(xs[1..]));
      InsertByGain(xs[0], SortByGainDesc(xs[1..]))
  }

  /** The first shortcut whose direction is in `ok`: the `for ... continue ... break` loop. */
  function FirstIn(xs: seq<Shortcut>, ok: set<Direction>): (r: Option<Shortcut>)
    ensures r.None? <==> forall i :: 0 <= i < |xs| ==> xs[i].direction !in ok
    ensures r.Some? ==> exists i :: 0 <= i < |xs| && xs[i] == r.value && r.value.direction in ok &&
                                  forall j :: 0 <= j < i ==> xs[j].direction !in ok
  {
    if xs == [] then None
    else if xs[0].direction in ok then Some(xs[0])
    else
      var r := FirstIn(xs[1..], ok);
      assert r.Some? ==> exists i :: 0 <= i < |xs| && xs[i] == r.value && r.value.direction in ok &&
                                     forall j :: 0 <= j < i ==> xs[j].direction !in ok by {
        if r.Some? {
          var i :| 0 <= i < |xs[1..]| && xs[1..][i] == r.value && r.value.direction in ok &&
                   forall j :: 0 <= j < i ==> xs[1..][j].direction !in ok;
          assert forall j :: 0 <= j < i + 1 ==> xs[j].direction !in ok by {
            forall j | 0 <= j < i + 1 ensures xs[j].direction !in ok {
              if j > 0 { assert xs[j] == xs[1..][j - 1]; }
            }
          }
        }
      }
      r
  }

  /**
   * Reference choice: the earliest shortcut with direction in `ok` whose gain
   * is the largest among those with direction in `ok`.
   */
  function BestIn(xs: seq<Shortcut>, ok: set<Direction>): (r: Option<Shortcut>)
    ensures r.None? <==> forall i :: 0 <= i < |xs| ==> xs[i].direction !in ok
    ensures r.Some? ==> exists i :: 0 <= i < |xs| && xs[i] == r.value && BestAt(xs, ok, i)
  {
    if xs == [] then None
    else
      var rest := BestIn(xs[1..], ok);
      if xs[0].direction in ok && (rest.None? || rest.value.gain <= xs[0].gain) then
        assert BestAt(xs, ok, 0);
        Some(xs[0])
      else
        assert rest.Some? ==> exists i :: 0 <= i < |xs| && xs[i] == rest.value && BestAt(xs, ok, i) by {
          if rest.Some? {
            var i :| 0 <= i < |xs[1..]| && xs[1..][i] == rest.value && BestAt(xs[1..], ok, i);
            assert BestAt(xs, ok, i + 1);
          }
        }
        rest
  }

  /** `xs[i]` passes, no passing shortcut gains more, and every earlier passing one gains less. */
  ghost predicate BestAt(xs: seq<Shortcut>, ok: set<Direction>, i: int)
    requires 0 <= i < |xs|
  {
    && xs[i].direction in ok
    && (forall j :: 0 <= j < |xs| && xs[j].direction in ok ==> xs[j].gain <= xs[i].gain)
    && (forall j :: 0 <= j < i && xs[j].direction in ok ==> xs[j].gain < xs[i].gain)
  }

  /** Taking the first passing element after inserting `x` into a sorted list. */
  lemma {:induction false} FirstInInsert(x: Shortcut, xs: seq<Shortcut>, ok: set<Direction>)
    requires SortedByGainDesc(xs)
    ensures var first := FirstIn(xs, ok);
      FirstIn(InsertByGain(x, xs), ok) ==
        if x.direction in ok && (first.None? || first.value.gain <= x.gain) then Some(x) else first
  {
    if xs == [] || xs[0].gain <= x.gain {
      var first := FirstIn(xs, ok);
      if first.Some? {
        var k :| 0 <= k < |xs| && xs[k] == first.value;
        assert first.value.gain <= xs[0].gain;
      }
      assert ([x] + xs)[1..] == xs;
    } else {
      FirstInInsert(x, xs[1..], ok);
      var r := [xs[0]] + InsertByGain(x, xs[1..]);
      assert r[1..] == InsertByGain(x, xs[1..]);
    }
  }

  /** The first passing element of the stable descending sort is the reference choice. */
  lemma {:induction false} FirstInSorted(xs: seq<Shortcut>, ok: set<Direction>)
    ensures FirstIn(SortByGainDesc(xs), ok) == BestIn(xs, ok)
  {
    if xs != [] {
      FirstInSorted(xs[1..], ok);
      FirstInInsert(xs[0], SortByGainDesc(xs[1..]), ok);
    }
  }

  // ---------------------------------------------------------------------------
  // One turn

  /** The checks a shortcut passes: length not above the limit and, from length 2 on, `is_valid_order`. */
  predicate Admits(s: Snapshot, hc: HamiltonianCycle, roomLeft: int, lengthLimit: int, d: Direction)
    requires Coherent(s, hc) && d in s.valid
  {
    && s.length <= lengthLimit
    && (s.length >= 2 ==>
          IsValidOrder(Order(hc, s.head), Order(hc, s.tail), Order(hc, Offset(s.head, d)), |hc.cycle|, roomLeft))
  }

  function Admissible(s: Snapshot, hc: HamiltonianCycle, roomLeft: int, lengthLimit: int): set<Direction>
    requires Coherent(s, hc)
  {
    set d | d in s.valid && Admits(s, hc, roomLeft, lengthLimit, d)
  }

  /**
   * One turn of `GreedySolution.run`: the shortcut of largest gain above
   * `gainCutoff` that passes the checks (the earliest in up, right, down,
   * left order among equal gains), or else the cycle fallback.
   * `lengthLimit` is the largest length not above `max_length * length_cutoff`.
   */
  function GreedyChoice(s: Snapshot, hc: HamiltonianCycle, roomLeft: int, gainCutoff: int, lengthLimit: int)
    : (r: Option<Direction>)
    requires Coherent(s, hc)
    ensures r.None? <==> s.valid == []
    ensures r.Some? ==> r.value in s.valid
    ensures var best := BestIn(Candidates(s, hc, s.valid, gainCutoff), Admissible(s, hc, roomLeft, lengthLimit));
      && (best.Some? ==> r == Some(best.value.direction))
      && (best.None? ==> r == CycleFallback(s.valid, s.head, NextOnCycle(hc, s.head)))
  {
    var shortcuts := SortByGainDesc(Candidates(s, hc, s.valid, gainCutoff));
    var ok := Admissible(s, hc, roomLeft, lengthLimit);
    FirstInSorted(Candidates(s, hc, s.valid, gainCutoff), ok);
    match FirstIn(shortcuts, ok)
    case Some(x) =>
      assert x in multiset(shortcuts);
      Some(x.direction)
    case None => CycleFallback(s.valid, s.head, NextOnCycle(hc, s.head))
  }

  /** A legal direction whose shortcut gains more than the cutoff and passes the checks. */
  predicate Passing(s: Snapshot, hc: HamiltonianCycle, roomLeft: int, gainCutoff: int, lengthLimit: int, d: Direction)
    requires Coherent(s, hc)
  {
    d in s.valid && GainOf(s, hc, d) > gainCutoff && Admits(s, hc, roomLeft, lengthLimit, d)
  }

  /**
   * When some shortcut passes, the greedy move is a passing shortcut and no
   * passing shortcut gains more.
   */
  lemma GreedyChoiceBest(s: Snapshot, hc: HamiltonianCycle, roomLeft: int, gainCutoff: int, lengthLimit: int, d: Direction)
    requires Coherent(s, hc) && Passing(s, hc, roomLeft, gainCutoff, lengthLimit, d)
    ensures var r := GreedyChoice(s, hc, roomLeft, gainCutoff, lengthLimit);
      && r.Some?
      && Passing(s, hc, roomLeft, gainCutoff, lengthLimit, r.value)
      && GainOf(s, hc, d) <= GainOf(s, hc, r.value)
  {
    var xs := Candidates(s, hc, s.valid, gainCutoff);
    var ok := Admissible(s, hc, roomLeft, lengthLimit);
    var x := Shortcut(d, GainOf(s, hc, d));
    assert x in xs;
    var k :| 0 <= k < |xs| && xs[k] == x;
    var best := BestIn(xs, ok);
    var i :| 0 <= i < |xs| && xs[i] == best.value && BestAt(xs, ok, i);
    assert xs[i] in xs;
  }

  /** When no shortcut passes, the greedy move is the cycle fallback. */
  lemma GreedyChoiceFallback(s: Snapshot, hc: HamiltonianCycle, roomLeft: int, gainCutoff: int, lengthLimit: int)
    requires Coherent(s, hc)
    requires forall d :: !Passing(s, hc, roomLeft, gainCutoff, lengthLimit, d)
    ensures GreedyChoice(s, hc, roomLeft, gainCutoff, lengthLimit) ==
            CycleFallback(s.valid, s.head, NextOnCycle(hc, s.head))
  {
    var xs := Candidates(s, hc, s.valid, gainCutoff);
    var ok := Admissible(s, hc, roomLeft, lengthLimit);
    forall k | 0 <= k < |xs| ensures xs[k].direction !in ok {
      assert xs[k] in xs;
      assert !Passing(s, hc, roomLeft, gainCutoff, lengthLimit, xs[k].direction);
    }
  }

  /**
   * A direction that passes `is_valid_order`, with head and tail on different
   * cells, moves the head strictly inside the free arc from the head to the
   * tail and leaves at least `roomLeft` slots before the tail.
   */
  lemma AdmittedStaysBehindTail(s: Snapshot, hc: HamiltonianCycle, roomLeft: int, lengthLimit: int, d: Direction)
    requires Coherent(s, hc) && d in s.valid && Admits(s, hc, roomLeft, lengthLimit, d)
    requires s.length >= 2
    ensures var n, h, t, p := |hc.cycle|, Order(hc, s.head), Order(hc, s.tail), Order(hc, Offset(s.head, d));
      0 < CircDist(h, p, n) < CircDist(h, t, n) && CircDist(p, t, n) >= roomLeft
  {
    var n, h, t, p := |hc.cycle|, Order(hc, s.head), Order(hc, s.tail), Order(hc, Offset(s.head, d));
    IsValidOrderCircular(h, t, p, n, roomLeft);
  }

  /**
   * One turn of `GreedySolution.run`: observe, choose and move. With a legal
   * direction available the choice is legal, so the head lands where it
   * points and the game ends only at the maximum length; with none, every
   * direction is illegal and the game is over.
   */
  method Turn(game: SnakeGame, hc: HamiltonianCycle, roomLeft: int, gainCutoff: int, lengthLimit: int)
    returns (r: Result<bool>)
    requires game.Valid() && hc.WellFormed() && hc.width == game.width && hc.height == game.height
    modifies game, game.board, game.snake
    ensures r.Ok? ==> game.Valid() && game.moveCount == old(game.moveCount) + 1
    ensures old(game.length) < game.maxLength ==> r.Ok?
    ensures r.Err? ==> r == Err(NoEmptyCell)
    ensures r == Ok(false) ==> game.length < game.maxLength
    ensures r == Ok(true) ==> game.length == game.maxLength || game.Stuck()
    ensures var s := old(Observe(game, AllDirections));
      var choice := GreedyChoice(s, hc, roomLeft, gainCutoff, lengthLimit);
      && (s.valid == [] ==> choice.None? && r == Ok(true))
      && (s.valid != [] && r.Ok? ==>
            && choice.Some?
            && game.Head() == Offset(s.head, choice.value)
            && (r == Ok(true) <==> game.length == game.maxLength))
  {
    var s := Observe(game, AllDirections);
    var choice := GreedyChoice(s, hc, roomLeft, gainCutoff, lengthLimit);
    if s.valid == [] {
      PermutationHoldsAll(AllDirections);
      NoValidIsStuck(game, AllDirections);
    }
    r := Play(game, choice);
  }

  /**
   * `GreedySolution.run`, for at most `turns` turns: build the cycle, then
   * play `Turn` until a move ends the game. `Ok(false)` means the budget ran
   * out first; `Ok(true)` means the snake reached the maximum length or has
   * no legal move; an error is what the game raised.
   */
  method Run(game: SnakeGame, roomLeft: int, gainCutoff: int, lengthLimit: int, turns: nat) returns (r: Result<bool>)
    requires game.Valid() && game.width >= 2
    modifies game, game.board, game.snake
    ensures r.Ok? ==> game.Valid()
    ensures r == Ok(false) ==> game.moveCount == old(game.moveCount) + turns
    ensures r == Ok(true) ==> game.moveCount <= old(game.moveCount) + turns
    ensures r == Ok(true) ==> game.Valid() && (game.length == game.maxLength || game.Stuck())
    ensures old(game.length) < game.maxLength ==> r.Ok?
    ensures r.Err? ==> r == Err(NoEmptyCell)
  {
    var hc := NewHamiltonianCycle(game.width, game.height);
    var played := 0;
    while played < turns
      invariant 0 <= played <= turns
      invariant game.Valid()
      invariant game.moveCount == old(game.moveCount) + played
      invariant old(game.length) < game.maxLength ==> game.length < game.maxLength
    {
      var result := Turn(game, hc, roomLeft, gainCutoff, lengthLimit);
      if result != Ok(false) {
        return result;
      }
      played := played + 1;
    }
    return Ok(false);
  }
}
