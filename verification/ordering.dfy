/**
 * Pure predicates over cycle orders (indices into the Hamiltonian cycle of n
 * cells): the "do not overtake the tail" test, the shortcut gain towards the
 * food, the forward-move test and the "do not overtake the food" test.
 *
 * The source keeps three textual copies of the tail test (`is_valid_order` in
 * greedy.py and shortest_path.py, `not_overtake_tail` in random.py) and two of
 * the gain; they are identical, so each is defined once here. Each as-written
 * definition is related to a reference definition by circular distance.
 */
module Ordering {
  import opened Arithmetic

  /** The number of forward steps along a cycle of `n` slots from order `a` to order `b`. */
  function CircDist(a: int, b: int, n: int): int
    requires n > 0
  {
    (b - a) % n
  }

  /** The orders of the head, tail and candidate cell are all orders of the cycle. */
  predicate InCycle(headOrder: int, tailOrder: int, posOrder: int, n: int) {
    0 <= headOrder < n && 0 <= tailOrder < n && 0 <= posOrder < n
  }

  /**
   * `is_valid_order` / `not_overtake_tail`, branch for branch: may the head
   * move to `posOrder` while leaving at least `roomLeft` slots before the tail?
   */
  function IsValidOrder(headOrder: int, tailOrder: int, posOrder: int, n: int, roomLeft: int): bool {
    if headOrder == tailOrder then true
    else if headOrder > tailOrder then
      if !(tailOrder <= posOrder <= headOrder) then
        var room := if posOrder < tailOrder then tailOrder - posOrder else tailOrder + n - posOrder;
        room >= roomLeft
      else false
    else
      if headOrder < posOrder < tailOrder then tailOrder - posOrder >= roomLeft
      else false
  }

  /**
   * Reference reading of the tail test: unless head and tail share an order,
   * the candidate lies strictly inside the free arc that runs forward from the
   * head to the tail, and at least `roomLeft` forward steps separate it from
   * the tail.
   */
  lemma IsValidOrderCircular(headOrder: int, tailOrder: int, posOrder: int, n: int, roomLeft: int)
    requires InCycle(headOrder, tailOrder, posOrder, n)
    ensures IsValidOrder(headOrder, tailOrder, posOrder, n, roomLeft) <==>
      (headOrder == tailOrder ||
       (0 < CircDist(headOrder, posOrder, n) < CircDist(headOrder, tailOrder, n) &&
        CircDist(posOrder, tailOrder, n) >= roomLeft))
  {
    ModNear(posOrder - headOrder, n);
    ModNear(tailOrder - headOrder, n);
    ModNear(tailOrder - posOrder, n);
  }

  /** Asking for less room never rejects a cell that passed with more room. */
  lemma IsValidOrderMonotone(headOrder: int, tailOrder: int, posOrder: int, n: int, roomLeft: int, less: int)
    requires less <= roomLeft
    ensures IsValidOrder(headOrder, tailOrder, posOrder, n, roomLeft) ==>
            IsValidOrder(headOrder, tailOrder, posOrder, n, less)
  {
  }

  /**
   * When head and tail differ, an admissible cell is neither the head nor the
   * tail, and the room it leaves lies in [max(1, roomLeft), n-1]: no room
   * requirement above n-1 admits anything.
   */
  lemma AdmissibleRoomBounds(headOrder: int, tailOrder: int, posOrder: int, n: int, roomLeft: int)
    requires InCycle(headOrder, tailOrder, posOrder, n) && headOrder != tailOrder
    requires IsValidOrder(headOrder, tailOrder, posOrder, n, roomLeft)
    ensures posOrder != headOrder && posOrder != tailOrder
    ensures 1 <= CircDist(posOrder, tailOrder, n) <= n - 1
    ensures roomLeft <= CircDist(posOrder, tailOrder, n)
    ensures roomLeft <= n - 1
  {
    IsValidOrderCircular(headOrder, tailOrder, posOrder, n, roomLeft);
    ModNear(tailOrder - posOrder, n);
  }

  /** With no room required, the admissible cells are exactly those strictly inside the free arc. */
  lemma IsValidOrderZeroRoom(headOrder: int, tailOrder: int, posOrder: int, n: int)
    requires InCycle(headOrder, tailOrder, posOrder, n) && headOrder != tailOrder
    ensures IsValidOrder(headOrder, tailOrder, posOrder, n, 0) <==>
      0 < CircDist(headOrder, posOrder, n) < CircDist(headOrder, tailOrder, n)
  {
    IsValidOrderCircular(headOrder, tailOrder, posOrder, n, 0);
    ModNear(tailOrder - posOrder, n);
  }

  /**
   * `get_shortcut_gained`: the cycle distance from the head to the food minus
   * the cycle distance from the candidate to the food, each computed by adding
   * `n` to a negative difference.
   */
  function ShortcutGain(headOrder: int, posOrder: int, foodOrder: int, n: int): int {
    var curDistance := if headOrder > foodOrder then foodOrder - headOrder + n else foodOrder - headOrder;
    var potentialDistance := if posOrder > foodOrder then foodOrder - posOrder + n else foodOrder - posOrder;
    -(potentialDistance - curDistance)
  }

  /** Both distances of the gain are forward circular distances in [0, n). */
  lemma ShortcutGainCircular(headOrder: int, posOrder: int, foodOrder: int, n: int)
    requires InCycle(headOrder, posOrder, foodOrder, n)
    ensures 0 <= CircDist(headOrder, foodOrder, n) < n && 0 <= CircDist(posOrder, foodOrder, n) < n
    ensures ShortcutGain(headOrder, posOrder, foodOrder, n) ==
            CircDist(headOrder, foodOrder, n) - CircDist(posOrder, foodOrder, n)
    ensures -n < ShortcutGain(headOrder, posOrder, foodOrder, n) < n
  {
    ModNear(foodOrder - headOrder, n);
    ModNear(foodOrder - posOrder, n);
  }

  /** Staying on the head gains nothing; the cycle successor of the head gains exactly one step. */
  lemma ShortcutGainOfHeadAndSuccessor(headOrder: int, foodOrder: int, n: int)
    requires 0 <= headOrder < n && 0 <= foodOrder < n
    ensures ShortcutGain(headOrder, headOrder, foodOrder, n) == 0
    ensures headOrder != foodOrder ==> ShortcutGain(headOrder, (headOrder + 1) % n, foodOrder, n) == 1
  {
    if headOrder + 1 == n {
      DivModUnique(headOrder + 1, n, 1, 0);
    } else {
      ModNear(headOrder + 1, n);
    }
  }

  /** `positive_move`: from the last order only order 0 is forward; otherwise the order must grow. */
  function PositiveMove(headOrder: int, posOrder: int, n: int): bool {
    if headOrder == n - 1 then posOrder == 0 else posOrder > headOrder
  }

  /** The cycle successor of the head is always a positive move. */
  lemma PositiveMoveSuccessor(headOrder: int, n: int)
    requires 0 <= headOrder < n
    ensures PositiveMove(headOrder, (headOrder + 1) % n, n)
  {
    if headOrder + 1 == n {
      DivModUnique(headOrder + 1, n, 1, 0);
    } else {
      DivModUnique(headOrder + 1, n, 0, headOrder + 1);
    }
  }

  /**
   * A positive move is a forward step along the cycle that does not pass
   * order 0, or else the single step from the last order back to order 0.
   */
  lemma PositiveMoveCircular(headOrder: int, posOrder: int, n: int)
    requires n >= 2 && 0 <= headOrder < n && 0 <= posOrder < n
    ensures PositiveMove(headOrder, posOrder, n) <==>
      0 < CircDist(headOrder, posOrder, n) &&
      (headOrder + CircDist(headOrder, posOrder, n) < n || CircDist(headOrder, posOrder, n) == 1)
  {
    ModNear(posOrder - headOrder, n);
  }

  /** `not_overtake_food`: the candidate strictly shortens the cycle distance to the food. */
  function NotOvertakeFood(headOrder: int, posOrder: int, foodOrder: int, n: int): bool {
    ShortcutGain(headOrder, posOrder, foodOrder, n) > 0
  }

  /**
   * The candidate passes the food test exactly when it lies on the forward arc
   * from the head to the food, the head excluded and the food included: the
   * move never skips past the food along the cycle.
   */
  lemma NotOvertakeFoodArc(headOrder: int, posOrder: int, foodOrder: int, n: int)
    requires InCycle(headOrder, posOrder, foodOrder, n)
    ensures NotOvertakeFood(headOrder, posOrder, foodOrder, n) <==>
      0 < CircDist(headOrder, posOrder, n) <= CircDist(headOrder, foodOrder, n)
  {
    ShortcutGainCircular(headOrder, posOrder, foodOrder, n);
    ModNear(posOrder - headOrder, n);
    ModNear(foodOrder - headOrder, n);
    ModNear(foodOrder - posOrder, n);
  }
}
