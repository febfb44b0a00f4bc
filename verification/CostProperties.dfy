/** What the cost of elevator/controller_costFunction.go is worth: bounds, and its distance from the intended one. */
module CostProperties {
  import opened Settings
  import opened Requests
  import opened CostFunction

  // ---------------------------------------------------------------- bounds

  /** The car has arrived where it was headed: something is requested here or further on. */
  predicate AtOrAhead(e: ElevatorState) {
    e.movement != MOVE_STOP && (OrdersHere(e) != {} || Ahead(e))
  }

  ghost function UpTo(n: nat): (s: set<int>)
    ensures forall f :: f in s <==> 0 <= f < n
    ensures |s| == n
  {
    if n == 0 then {} else UpTo(n - 1) + {n - 1}
  }

  lemma FloorsBelow(s: set<int>, n: nat)
    requires forall f :: f in s ==> 0 <= f < n
    ensures |s| <= n
  {
    assert s <= UpTo(n) && UpTo(n) == s + (UpTo(n) - s);
  }

  lemma DepartAtOrAhead(e: ElevatorState, o: Order)
    requires o in e.orders && !Serves(e, o)
    ensures AtOrAhead(Depart(e, o))
  {
    var d := AfterStop(e);
    assert o in d.orders && Ahead(d);
    var p :| p in d.orders && (if d.movement == MOVE_UP then p.floor > d.floor else p.floor < d.floor);
    var r := Depart(e, o);
    assert p in r.orders && (p.floor == r.floor ==> p in OrdersHere(r));
  }

  /** The floors in seen are stops the car has made: cleared since, not o's, and left behind. */
  ghost predicate StopsMade(e: ElevatorState, o: Order, seen: set<int>) {
    && (forall f :: f in seen ==> 0 <= f < FLOOR_NUM && f != o.floor)
    && (forall p :: p in e.orders ==> p.floor !in seen)
    && (seen == {} || AtOrAhead(e))
  }

  lemma StopIsNew(e: ElevatorState, o: Order, seen: set<int>)
    requires o in e.orders && !Serves(e, o) && StopsMade(e, o, seen)
    ensures ShouldStop(e) ==> e.floor !in seen && StopsMade(Depart(e, o), o, seen + {e.floor as int})
    ensures !ShouldStop(e) ==> StopsMade(Depart(e, o), o, seen)
  {
    DepartAtOrAhead(e, o);
    assert e.floor in seen ==> OrdersHere(e) == {};
  }

  lemma StopsLeaveOneFloor(e: ElevatorState, o: Order, seen: set<int>)
    requires StopsMade(e, o, seen)
    ensures |seen| <= FLOOR_NUM - 1
  {
    FloorsBelow(seen + {o.floor as int}, FLOOR_NUM);
  }

  lemma {:induction false} StopsOfPrefix(e: ElevatorState, o: Order, k: nat)
    requires o in e.orders && 0 < k < |Trajectory(e, o)|
    ensures !Serves(e, o) && |Trajectory(Depart(e, o), o)| == |Trajectory(e, o)| - 1
    ensures Stops(Trajectory(e, o)[..k])
            == (if ShouldStop(e) then 1 else 0) + Stops(Trajectory(Depart(e, o), o)[..k - 1])
  {
    var t, rest := Trajectory(e, o), Trajectory(Depart(e, o), o);
    assert t[1..] == rest && t[..k][1..] == rest[..k - 1];
  }

  /** Stops before the one that serves o are at pairwise different floors, none of them o's. */
  lemma {:induction false} StopsAtDistinctFloors(e: ElevatorState, o: Order, k: nat, seen: set<int>)
    requires o in e.orders && k < |Trajectory(e, o)| && StopsMade(e, o, seen)
    ensures |seen| + Stops(Trajectory(e, o)[..k]) <= FLOOR_NUM - 1
    decreases k
  {
    if k == 0 {
      StopsLeaveOneFloor(e, o, seen);
    } else {
      StopsOfPrefix(e, o, k);
      StopIsNew(e, o, seen);
      var d := Depart(e, o);
      if ShouldStop(e) {
        StopsAtDistinctFloors(d, o, k - 1, seen + {e.floor as int});
      } else {
        StopsAtDistinctFloors(d, o, k - 1, seen);
      }
    }
  }

  lemma Distribute(a: int, b: int, c: int)
    ensures (a + b) * c == a * c + b * c
  {
  }

  lemma TimesMonotone(a: int, b: int, c: nat)
    requires a <= b
    ensures a * c <= b * c
  {
  }

  /** Floor moves the simulation can need: a car on its way has its next arrival behind it. */
  function MaxMoves(e: ElevatorState): nat {
    if e.behaviour == Moving then 2 * (FLOOR_NUM - 1) - 1 else 2 * (FLOOR_NUM - 1)
  }

  function MaxCost(e: ElevatorState): int {
    StartOffset(e) + MaxMoves(e) * TRAVEL_TIME + (FLOOR_NUM - 1) * DOOR_OPEN_TIME
  }

  lemma SimulatedMoves(state: ElevatorState, o: Order)
    requires WeakInvariant(state)
    ensures |Simulated(state, o)| - 1 <= MaxMoves(state)
  {
    var e := Start(AddOrder(state, o));
    RankBound(e.movement, e.floor, o);
    RankBound(state.movement, state.floor, o);
  }

  lemma SimulatedCosts(state: ElevatorState, o: Order)
    requires WeakInvariant(state) && !ServedAtOnce(AddOrder(state, o))
    ensures var t := Simulated(state, o);
            && FirstClearing(t, o.btn) < |t|
            && Cost(state, o) == StartOffset(state) + Elapsed(t[..FirstClearing(t, o.btn)])
            && ReferenceCost(state, o) == StartOffset(state) + Elapsed(t[..|t| - 1])
  {
    FirstClearingExists(Start(AddOrder(state, o)), o);
  }

  lemma MaxCostAtLeastOffset(state: ElevatorState)
    ensures StartOffset(state) <= MaxCost(state)
    ensures MaxCost(state)
            <= TRAVEL_TIME / 2 + 2 * (FLOOR_NUM - 1) * TRAVEL_TIME + (FLOOR_NUM - 1) * DOOR_OPEN_TIME
  {
    TimesMonotone(MaxMoves(state), 2 * (FLOOR_NUM - 1), TRAVEL_TIME);
    TimesMonotone(0, MaxMoves(state), TRAVEL_TIME);
    TimesMonotone(0, FLOOR_NUM - 1, DOOR_OPEN_TIME);
  }

  lemma {:induction false} ElapsedClosedForm(t: seq<Visit>)
    ensures Elapsed(t) == |t| * TRAVEL_TIME + Stops(t) * DOOR_OPEN_TIME
  {
    if t != [] {
      ElapsedClosedForm(t[1..]);
      Distribute(1, |t| - 1, TRAVEL_TIME);
      Distribute(1, Stops(t[1..]), DOOR_OPEN_TIME);
    }
  }

  lemma {:induction false} ElapsedBound(t: seq<Visit>, moves: nat, stops: nat)
    requires |t| <= moves && Stops(t) <= stops
    ensures 0 <= Elapsed(t) <= moves * TRAVEL_TIME + stops * DOOR_OPEN_TIME
  {
    ElapsedClosedForm(t);
    TimesMonotone(|t|, moves, TRAVEL_TIME);
    TimesMonotone(Stops(t), stops, DOOR_OPEN_TIME);
  }

  lemma PrefixBound(state: ElevatorState, o: Order, k: nat)
    requires WeakInvariant(state) && k < |Simulated(state, o)|
    ensures 0 <= Elapsed(Simulated(state, o)[..k])
                 <= MaxMoves(state) * TRAVEL_TIME + (FLOOR_NUM - 1) * DOOR_OPEN_TIME
  {
    SimulatedMoves(state, o);
    StopsAtDistinctFloors(Start(AddOrder(state, o)), o, k, {});
    ElapsedBound(Simulated(state, o)[..k], MaxMoves(state), FLOOR_NUM - 1);
  }

  /** The cost of every state the controller can be in, for either notion of arrival. */
  lemma CostBound(state: ElevatorState, o: Order)
    requires WeakInvariant(state)
    ensures -(DOOR_OPEN_TIME / 2) <= Cost(state, o) <= MaxCost(state)
    ensures -(DOOR_OPEN_TIME / 2) <= ReferenceCost(state, o) <= MaxCost(state)
  {
    if ServedAtOnce(AddOrder(state, o)) {
      MaxCostAtLeastOffset(state);
    } else {
      SimulatedCosts(state, o);
      PrefixBound(state, o, FirstClearing(Simulated(state, o), o.btn));
      PrefixBound(state, o, |Simulated(state, o)| - 1);
    }
  }

  // ---------------------------------------------------------------- coded against intended

  lemma {:induction false} ElapsedSplit(t: seq<Visit>, k: nat)
    requires k <= |t|
    ensures Elapsed(t) == Elapsed(t[..k]) + Elapsed(t[k..])
  {
    if k > 0 {
      assert t[..k][1..] == t[1..][..k - 1] && t[k..] == t[1..][k - 1..];
      ElapsedSplit(t[1..], k - 1);
    } else {
      assert t[..0] == [] && t[0..] == t;
    }
  }

  /** An order of type b is cleared before the last visit. */
  predicate ClearsEarly(t: seq<Visit>, b: OrderType) {
    exists k :: 0 <= k < |t| - 1 && Clears(t[k], b)
  }

  /** An order of o's type is cleared at a stop before the one that serves o. */
  predicate TypeClearedEarlier(state: ElevatorState, o: Order)
    requires WeakInvariant(state)
  {
    !ServedAtOnce(AddOrder(state, o)) && ClearsEarly(Simulated(state, o), o.btn)
  }

  lemma EarlierIsCheaper(t: seq<Visit>, k: nat, last: nat)
    requires k <= last < |t| && t[k].stopped && TRAVEL_TIME + DOOR_OPEN_TIME > 0
    ensures Elapsed(t[..k]) <= Elapsed(t[..last])
    ensures Elapsed(t[..k]) == Elapsed(t[..last]) <==> k == last
  {
    if k < last {
      var gap := t[..last][k..];
      ElapsedSplit(t[..last], k);
      assert t[..last][..k] == t[..k];
      assert gap[0] == t[k];
      ElapsedBound(gap[1..], |gap|, |gap|);
    }
  }

  /** The last visit clears an order of type b, and every visit that does so is a stop. */
  predicate EndsByClearing(t: seq<Visit>, b: OrderType) {
    && t != [] && Clears(t[|t| - 1], b)
    && forall k :: 0 <= k < |t| && Clears(t[k], b) ==> t[k].stopped
  }

  /** The first visit that clears type b against the last, which does. */
  lemma {:induction false} FirstAgainstLast(t: seq<Visit>, b: OrderType)
    requires EndsByClearing(t, b) && TRAVEL_TIME + DOOR_OPEN_TIME > 0
    ensures var first, reference := Elapsed(t[..FirstClearing(t, b)]), Elapsed(t[..|t| - 1]);
            first <= reference && (first == reference <==> !ClearsEarly(t, b))
  {
    var k := FirstClearing(t, b);
    assert k < |t| && Clears(t[k], b);
    EarlierIsCheaper(t, k, |t| - 1);
  }

  lemma {:induction false} OnlyStopsClear(e: ElevatorState, o: Order)
    requires o in e.orders
    ensures EndsByClearing(Trajectory(e, o), o.btn)
  {
    var t := Trajectory(e, o);
    assert o in t[|t| - 1].cleared;
  }

  /** The same for two costs that differ from these times by one offset. */
  lemma {:induction false} CostsCompared(t: seq<Visit>, b: OrderType, offset: int, cost: int, reference: int)
    requires EndsByClearing(t, b) && TRAVEL_TIME + DOOR_OPEN_TIME > 0
    requires cost == offset + Elapsed(t[..FirstClearing(t, b)]) && reference == offset + Elapsed(t[..|t| - 1])
    ensures cost <= reference && (cost == reference <==> !ClearsEarly(t, b))
  {
    FirstAgainstLast(t, b);
  }

  lemma SimulatedAgainstReference(state: ElevatorState, o: Order)
    requires WeakInvariant(state) && !ServedAtOnce(AddOrder(state, o))
    requires TRAVEL_TIME + DOOR_OPEN_TIME > 0
    ensures Cost(state, o) <= ReferenceCost(state, o)
    ensures Cost(state, o) == ReferenceCost(state, o) <==> !ClearsEarly(Simulated(state, o), o.btn)
  {
    SimulatedCosts(state, o);
    OnlyStopsClear(Start(AddOrder(state, o)), o);
    CostsCompared(Simulated(state, o), o.btn, StartOffset(state), Cost(state, o), ReferenceCost(state, o));
  }

  /**
   The source passes its parameter floor to the callback, so any order of the type ends the
   simulation. The cost never exceeds the intended one, and is the intended one exactly when no
   other order of that type is cleared on the way.
   */
  lemma CostAgainstReference(state: ElevatorState, o: Order)
    requires WeakInvariant(state) && TRAVEL_TIME + DOOR_OPEN_TIME > 0
    ensures Cost(state, o) <= ReferenceCost(state, o)
    ensures Cost(state, o) == ReferenceCost(state, o) <==> !TypeClearedEarlier(state, o)
  {
    if !ServedAtOnce(AddOrder(state, o)) {
      SimulatedAgainstReference(state, o);
    }
  }

  /** An upward call one floor up ends the simulation of an upward call on the floor below. */
  lemma CostIgnoresFloor()
    ensures var state := ElevatorState(0, Moving, MOVE_UP, true, {Order(1, HALL_UP)});
            var o := Order(0, HALL_UP);
            && WeakInvariant(state)
            && Cost(state, o) == TRAVEL_TIME / 2
            && ReferenceCost(state, o) == TRAVEL_TIME / 2 + TRAVEL_TIME + DOOR_OPEN_TIME
  {
    var state := ElevatorState(0, Moving, MOVE_UP, true, {Order(1, HALL_UP)});
    var o := Order(0, HALL_UP);
    var e := Start(AddOrder(state, o));
    assert e == ElevatorState(1, Moving, MOVE_UP, true, {Order(1, HALL_UP), o});
    assert Order(1, HALL_UP) in VisitOf(e).cleared && !Serves(e, o);
    var d := Depart(e, o);
    assert d.orders == {o} && d.floor == 0;
    assert Trajectory(d, o) == [VisitOf(d)];
    var t := Trajectory(e, o);
    assert t == [VisitOf(e), VisitOf(d)] && t[..1] == [VisitOf(e)] && t[..0] == [];
    assert Clears(t[0], HALL_UP) && t[0].stopped;
    assert Elapsed([VisitOf(e)]) == TRAVEL_TIME + DOOR_OPEN_TIME + Elapsed([VisitOf(e)][1..]);
  }

  // ---------------------------------------------------------------- the bounds are attained

  function Distance(f: Floor, g: Floor): nat {
    if f < g then g - f else f - g
  }

  lemma TravelStep(n: nat)
    requires n > 0
    ensures n * TRAVEL_TIME == TRAVEL_TIME + (n - 1) * TRAVEL_TIME
  {
    Distribute(1, n - 1, TRAVEL_TIME);
  }

  lemma LoneOrderPasses(e: ElevatorState, o: Order)
    requires e.orders == {o} && e.floor != o.floor
    requires e.movement == if e.floor < o.floor then MOVE_UP else MOVE_DOWN
    ensures !ShouldStop(e) && !Clears(VisitOf(e), o.btn)
    ensures Depart(e, o) == e.(floor := e.floor + e.movement)
  {
    DepartMoves(e, o);
  }

  /** A car on its way to its only order. */
  lemma {:induction false} LoneOrder(e: ElevatorState, o: Order)
    requires e.orders == {o}
    requires e.floor < o.floor ==> e.movement == MOVE_UP
    requires e.floor > o.floor ==> e.movement == MOVE_DOWN
    ensures LoopCost(e, o) == Distance(e.floor, o.floor) * TRAVEL_TIME
    decreases Distance(e.floor, o.floor)
  {
    LoopTurn(e, o);
    if e.floor != o.floor {
      LoneOrderPasses(e, o);
      var d := Depart(e, o);
      LoneOrder(d, o);
      TravelStep(Distance(e.floor, o.floor));
      assert LoopCost(e, o) == TRAVEL_TIME + LoopCost(d, o);
    } else {
      assert o in VisitOf(e).cleared;
    }
  }

  lemma SweepUpStops(e: ElevatorState, o: Order)
    requires e.movement == MOVE_UP && e.floor >= 1
    requires o.floor == 0 && o.btn != CAB && o in e.orders
    requires forall p :: p in e.orders <==> p == o || (p.btn == CAB && p.floor >= e.floor)
    ensures ShouldStop(e) && !Clears(VisitOf(e), o.btn)
    ensures var d := Depart(e, o);
            && (e.floor < FLOOR_NUM - 1 ==> d.movement == MOVE_UP && d.floor == e.floor + 1)
            && (e.floor == FLOOR_NUM - 1 ==> d.movement == MOVE_DOWN && d.orders == {o} && d.floor == e.floor - 1)
            && forall p :: p in d.orders <==> p == o || (p.btn == CAB && p.floor >= e.floor + 1)
  {
    assert Order(e.floor, CAB) in e.orders;
    if e.floor < FLOOR_NUM - 1 {
      assert Order(e.floor + 1, CAB) in ClearHere(e).orders;
    }
  }

  /** From a stop at x up to the top, stopping everywhere, and all the way down. */
  function SweepTime(x: Floor): int {
    (FLOOR_NUM - 1 - x + FLOOR_NUM - 1) * TRAVEL_TIME + (FLOOR_NUM - x) * DOOR_OPEN_TIME
  }

  lemma SweepTimeStep(x: Floor)
    ensures SweepTime(x) == TRAVEL_TIME + DOOR_OPEN_TIME
                            + if x < FLOOR_NUM - 1 then SweepTime(x + 1) else (FLOOR_NUM - 2) * TRAVEL_TIME
  {
    Distribute(1, FLOOR_NUM - 1 - x, DOOR_OPEN_TIME);
    Distribute(1, FLOOR_NUM - 2 - x + FLOOR_NUM - 1, TRAVEL_TIME);
  }

  /** Cab orders from this floor to the top, and a hall order at the bottom: every floor is a stop. */
  lemma {:induction false} SweepUp(e: ElevatorState, o: Order)
    requires e.movement == MOVE_UP && e.floor >= 1
    requires o.floor == 0 && o.btn != CAB && o in e.orders
    requires forall p :: p in e.orders <==> p == o || (p.btn == CAB && p.floor >= e.floor)
    ensures LoopCost(e, o) == SweepTime(e.floor)
    decreases FLOOR_NUM - e.floor
  {
    SweepUpStops(e, o);
    LoopTurn(e, o);
    SweepTimeStep(e.floor);
    var d := Depart(e, o);
    if e.floor < FLOOR_NUM - 1 {
      SweepUp(d, o);
    } else {
      LoneOrder(d, o);
    }
  }

  /** Cab orders on every floor but the lowest. */
  function AllCabsAbove(): set<Order> {
    set g: int | 1 <= g < FLOOR_NUM :: Order(g, CAB)
  }

  lemma LeavesForTheSweep(e: ElevatorState, o: Order)
    requires e.movement == MOVE_UP && e.floor == 0 && o == Order(0, HALL_DOWN)
    requires forall p :: p in e.orders <==> p == o || (p.btn == CAB && p.floor >= 1)
    ensures LoopCost(e, o) == 2 * (FLOOR_NUM - 1) * TRAVEL_TIME + (FLOOR_NUM - 1) * DOOR_OPEN_TIME
  {
    assert Order(1, CAB) in e.orders && !ShouldStop(e);
    LoopTurn(e, o);
    SweepUp(Depart(e, o), o);
    Distribute(1, 2 * (FLOOR_NUM - 1) - 1, TRAVEL_TIME);
  }

  /** MaxCost is the cost itself for a car on its way up, and for one with its door open at the bottom. */
  lemma BoundAttained(state: ElevatorState, o: Order)
    requires state.floor == 0 && state.movement == MOVE_UP && state.orders == AllCabsAbove()
    requires || (state.behaviour == Moving && o == Order(0, HALL_UP))
             || (state.behaviour == DoorOpen && o == Order(0, HALL_DOWN))
    ensures WeakInvariant(state) && Cost(state, o) == MaxCost(state)
  {
    var e := Start(AddOrder(state, o));
    assert forall p :: p in e.orders <==> p == o || (p.btn == CAB && p.floor >= 1);
    assert Cost(state, o) == StartOffset(state) + LoopCost(e, o);
    if state.behaviour == Moving {
      SweepUp(e, o);
    } else {
      LeavesForTheSweep(e, o);
    }
  }

  // ---------------------------------------------------------------- where the car starts from

  /** An idle car without orders costs its way to the order, and nothing on its own floor. */
  lemma IdleCost(state: ElevatorState, o: Order)
    requires WeakInvariant(state) && state.behaviour == Idle && state.orders == {}
    ensures Cost(state, o) == Distance(state.floor, o.floor) * TRAVEL_TIME
  {
    var e := AddOrder(state, o);
    assert e.orders == {o};
    if o.floor != state.floor {
      assert Above(e) || Below(e);
      CostFromStart(state, o);
      LoneOrder(Start(e), o);
    }
  }

  /** A cab order for the floor of a standing car: the lower bound is the cost itself with the door open. */
  lemma OwnFloorCost(state: ElevatorState)
    requires WeakInvariant(state) && (state.behaviour == DoorOpen || state.behaviour == Obstructed)
    ensures Cost(state, Order(state.floor, CAB))
            == if state.behaviour == DoorOpen then -(DOOR_OPEN_TIME / 2) else 0
  {
    var o := Order(state.floor, CAB);
    CostFromStart(state, o);
    LoopTurn(Start(AddOrder(state, o)), o);
    assert o in VisitOf(Start(AddOrder(state, o))).cleared;
  }

  /** A door that is open, and not obstructed, has been so for half its time. */
  lemma OpenDoorCost(state: ElevatorState, o: Order)
    requires WeakInvariant(state) && state.behaviour == DoorOpen
    ensures var obstructed := state.(behaviour := Obstructed);
            WeakInvariant(obstructed) && Cost(state, o) == Cost(obstructed, o) - DOOR_OPEN_TIME / 2
  {
    var obstructed := state.(behaviour := Obstructed);
    CostFromStart(state, o);
    CostFromStart(obstructed, o);
    SameCourseSameTrajectory(Start(AddOrder(state, o)), Start(AddOrder(obstructed, o)), o);
  }

  /** A moving car is half way to its next floor. */
  lemma MovingCost(state: ElevatorState, o: Order)
    requires WeakInvariant(state) && state.behaviour == Moving
    ensures var next := state.(floor := state.floor + state.movement, behaviour := Obstructed);
            WeakInvariant(next) && Cost(state, o) == TRAVEL_TIME / 2 + Cost(next, o)
  {
    var next := state.(floor := state.floor + state.movement, behaviour := Obstructed);
    CostFromStart(state, o);
    CostFromStart(next, o);
    SameCourseSameTrajectory(Start(AddOrder(state, o)), Start(AddOrder(next, o)), o);
  }
}
