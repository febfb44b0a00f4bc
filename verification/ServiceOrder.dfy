/**
 The number of floors the simulated car passes before it serves an order, in closed form:
 up to the highest request, down to the lowest, and up again for what was skipped.
 It replaces the simulation of elevator/controller_costFunction.go by one look at the orders.
 */
module ServiceOrder {
  import opened Settings
  import opened Requests
  import opened CostFunction
  import CostProperties

  predicate Requested(s: set<Order>, f: int) {
    exists o :: o in s && o.floor == f
  }

  /** The highest requested floor, if that is above f; otherwise f. */
  ghost function TurnUp(s: set<Order>, f: Floor): (h: Floor)
    ensures h >= f && (h == f || Requested(s, h))
    ensures forall o :: o in s ==> o.floor <= h
    decreases FLOOR_NUM - f
  {
    if AnyAbove(s, f) then TurnUp(s, f + 1) else f
  }

  /** The lowest requested floor, if that is below f; otherwise f. */
  ghost function TurnDown(s: set<Order>, f: Floor): (l: Floor)
    ensures l <= f && (l == f || Requested(s, l))
    ensures forall o :: o in s ==> o.floor >= l
    decreases f
  {
    if AnyBelow(s, f) then TurnDown(s, f - 1) else f
  }

  /** A car going up stops at f: for the cab, for the upward button, or to turn. */
  predicate StopsGoingUp(s: set<Order>, f: Floor) {
    Order(f, HALL_UP) in s || Order(f, CAB) in s || !AnyAbove(s, f)
  }

  predicate StopsGoingDown(s: set<Order>, f: Floor) {
    Order(f, HALL_DOWN) in s || Order(f, CAB) in s || !AnyBelow(s, f)
  }

  ghost function WaitUp(s: set<Order>, x: Floor, f: Floor): int {
    var h, l := TurnUp(s, x), TurnDown(s, x);
    if f >= x && StopsGoingUp(s, f) then f - x
    else if StopsGoingDown(s, f) then (h - x) + (h - f)
    else (h - x) + (h - l) + (f - l)
  }

  ghost function WaitDown(s: set<Order>, x: Floor, f: Floor): int {
    var h, l := TurnUp(s, x), TurnDown(s, x);
    if f <= x && StopsGoingDown(s, f) then x - f
    else if StopsGoingUp(s, f) then (x - l) + (f - l)
    else (x - l) + (h - l) + (h - f)
  }

  /** Floors passed from arrival in state e until the stop that serves floor f. */
  ghost function Wait(e: ElevatorState, f: Floor): int {
    if e.movement == MOVE_UP then WaitUp(e.orders, e.floor, f)
    else if e.movement == MOVE_DOWN then WaitDown(e.orders, e.floor, f)
    else if f == e.floor then 0
    else WaitDown(ClearHere(e).orders, e.floor, f)
  }

  lemma WaitServed(e: ElevatorState, o: Order)
    requires o in e.orders
    ensures Wait(e, o.floor) >= 0
    ensures Serves(e, o) <==> Wait(e, o.floor) == 0
  {
  }

  /** s without the requests of floor x. */
  ghost predicate Cleared(s: set<Order>, x: Floor, r: set<Order>) {
    forall o :: o in r <==> o in s && o.floor != x
  }

  /** What is left of e when one turn of the loop has led to d. */
  ghost predicate Follows(e: ElevatorState, d: ElevatorState) {
    && d.floor == e.floor + d.movement
    && (e.movement == MOVE_UP ==> d.movement == if Above(e) then MOVE_UP else MOVE_DOWN)
    && (e.movement != MOVE_UP ==> d.movement == if Below(e) then MOVE_DOWN else MOVE_UP)
    && (Cleared(e.orders, e.floor, d.orders) || (d.orders == e.orders && Ahead(e)))
  }

  lemma DepartFollows(e: ElevatorState, o: Order)
    requires o in e.orders && !Serves(e, o)
    ensures Follows(e, Depart(e, o))
  {
    var c := ClearHere(e);
    assert Above(c) == Above(e) && Below(c) == Below(e);
  }

  /** The turning points stay while the car goes towards them. */
  lemma {:induction false} TurnUpStays(s: set<Order>, x: Floor, r: set<Order>)
    requires AnyAbove(s, x) && (Cleared(s, x, r) || r == s)
    ensures x + 1 < FLOOR_NUM && TurnUp(s, x) == TurnUp(r, x + 1)
  {
  }

  lemma {:induction false} TurnDownStays(s: set<Order>, x: Floor, r: set<Order>)
    requires AnyBelow(s, x) && (Cleared(s, x, r) || r == s)
    ensures 0 <= x - 1 && TurnDown(s, x) == TurnDown(r, x - 1)
  {
  }

  /** The other turning point matters only for orders behind the car, and stays for those. */
  lemma {:induction false} TurnDownBehind(s: set<Order>, x: Floor, r: set<Order>, f: Floor)
    requires Requested(s, f) && f < x < FLOOR_NUM - 1 && (Cleared(s, x, r) || r == s)
    ensures TurnDown(s, x) == TurnDown(r, x + 1)
  {
  }

  lemma {:induction false} TurnUpBehind(s: set<Order>, x: Floor, r: set<Order>, f: Floor)
    requires Requested(s, f) && 0 < x < f && (Cleared(s, x, r) || r == s)
    ensures TurnUp(s, x) == TurnUp(r, x - 1)
  {
  }

  lemma BehindGoingUp(e: ElevatorState, d: ElevatorState, p: Order)
    requires e.movement == d.movement == MOVE_UP && Follows(e, d)
    requires p in e.orders && p in d.orders && p.floor < e.floor
    requires TurnUp(e.orders, e.floor) == TurnUp(d.orders, d.floor)
    requires TurnDown(e.orders, e.floor) == TurnDown(d.orders, d.floor)
    ensures Wait(e, p.floor) == 1 + Wait(d, p.floor)
  {
    assert StopsGoingDown(e.orders, p.floor) == StopsGoingDown(d.orders, p.floor);
  }

  lemma AheadGoingUp(e: ElevatorState, d: ElevatorState, p: Order)
    requires e.movement == d.movement == MOVE_UP && Follows(e, d)
    requires p in e.orders && p in d.orders && p.floor > e.floor
    requires TurnUp(e.orders, e.floor) == TurnUp(d.orders, d.floor)
    ensures Wait(e, p.floor) == 1 + Wait(d, p.floor)
  {
    assert StopsGoingUp(e.orders, p.floor) == StopsGoingUp(d.orders, p.floor);
    assert StopsGoingUp(e.orders, p.floor) || p.btn == HALL_DOWN;
  }

  lemma KeepsGoingUp(e: ElevatorState, d: ElevatorState, p: Order)
    requires e.movement == MOVE_UP && Follows(e, d) && Above(e)
    requires p in e.orders && p in d.orders && (p.floor == e.floor ==> !StopsGoingUp(e.orders, e.floor))
    ensures Wait(e, p.floor) == 1 + Wait(d, p.floor)
  {
    var s, x, r, f := e.orders, e.floor, d.orders, p.floor;
    TurnUpStays(s, x, r);
    if f < x {
      TurnDownBehind(s, x, r, f);
      BehindGoingUp(e, d, p);
    } else if f > x {
      AheadGoingUp(e, d, p);
    }
  }

  lemma BehindGoingDown(e: ElevatorState, d: ElevatorState, p: Order)
    requires e.movement == d.movement == MOVE_DOWN && Follows(e, d)
    requires p in e.orders && p in d.orders && p.floor > e.floor
    requires TurnUp(e.orders, e.floor) == TurnUp(d.orders, d.floor)
    requires TurnDown(e.orders, e.floor) == TurnDown(d.orders, d.floor)
    ensures Wait(e, p.floor) == 1 + Wait(d, p.floor)
  {
    assert StopsGoingUp(e.orders, p.floor) == StopsGoingUp(d.orders, p.floor);
  }

  lemma AheadGoingDown(e: ElevatorState, d: ElevatorState, p: Order)
    requires e.movement == d.movement == MOVE_DOWN && Follows(e, d)
    requires p in e.orders && p in d.orders && p.floor < e.floor
    requires TurnDown(e.orders, e.floor) == TurnDown(d.orders, d.floor)
    ensures Wait(e, p.floor) == 1 + Wait(d, p.floor)
  {
    assert StopsGoingDown(e.orders, p.floor) == StopsGoingDown(d.orders, p.floor);
    assert StopsGoingDown(e.orders, p.floor) || p.btn == HALL_UP;
  }

  lemma KeepsGoingDown(e: ElevatorState, d: ElevatorState, p: Order)
    requires e.movement == MOVE_DOWN && Follows(e, d) && Below(e)
    requires p in e.orders && p in d.orders && (p.floor == e.floor ==> !StopsGoingDown(e.orders, e.floor))
    ensures Wait(e, p.floor) == 1 + Wait(d, p.floor)
  {
    var s, x, r, f := e.orders, e.floor, d.orders, p.floor;
    TurnDownStays(s, x, r);
    if f > x {
      TurnUpBehind(s, x, r, f);
      BehindGoingDown(e, d, p);
    } else if f < x {
      AheadGoingDown(e, d, p);
    }
  }

  lemma TurnsDown(e: ElevatorState, d: ElevatorState, p: Order)
    requires e.movement == MOVE_UP && Follows(e, d) && !Above(e)
    requires p in e.orders && p in d.orders
    ensures Wait(e, p.floor) == 1 + Wait(d, p.floor)
  {
    var s, x, r, f := e.orders, e.floor, d.orders, p.floor;
    assert f < x && TurnUp(s, x) == x && TurnDown(s, x) == TurnDown(r, x - 1);
    assert StopsGoingDown(s, f) == StopsGoingDown(r, f);
  }

  lemma TurnsUp(e: ElevatorState, d: ElevatorState, p: Order)
    requires e.movement == MOVE_DOWN && Follows(e, d) && !Below(e)
    requires p in e.orders && p in d.orders
    ensures Wait(e, p.floor) == 1 + Wait(d, p.floor)
  {
    var s, x, r, f := e.orders, e.floor, d.orders, p.floor;
    assert f > x && TurnDown(s, x) == x && TurnUp(s, x) == TurnUp(r, x + 1);
    assert StopsGoingUp(s, f) == StopsGoingUp(r, f);
  }

  /** Clearing the floor of a standing car leaves it as a car going down. */
  lemma LeavesStandstill(e: ElevatorState, d: ElevatorState, p: Order)
    requires e.movement == MOVE_STOP && Follows(e, d)
    requires p in e.orders && p in d.orders && p.floor != e.floor
    ensures var c := ClearHere(e).(movement := MOVE_DOWN);
            Follows(c, d) && p in c.orders && Wait(c, p.floor) == Wait(e, p.floor)
  {
    var c := ClearHere(e).(movement := MOVE_DOWN);
    assert c.orders == d.orders && Below(c) == Below(e) && Above(c) == Above(e);
  }

  lemma WaitStepMoving(e: ElevatorState, d: ElevatorState, p: Order)
    requires e.movement != MOVE_STOP && Follows(e, d)
    requires p in e.orders && p in d.orders
    requires p.floor == e.floor ==> !ShouldStop(e)
    ensures Wait(e, p.floor) == 1 + Wait(d, p.floor)
  {
    if e.movement == MOVE_UP {
      if Above(e) { KeepsGoingUp(e, d, p); } else { TurnsDown(e, d, p); }
    } else {
      if Below(e) { KeepsGoingDown(e, d, p); } else { TurnsUp(e, d, p); }
    }
  }

  lemma WaitStep(e: ElevatorState, o: Order, p: Order)
    requires o in e.orders && !Serves(e, o)
    requires p in e.orders && !Serves(e, p)
    ensures Wait(e, p.floor) == 1 + Wait(Depart(e, o), p.floor)
  {
    DepartFollows(e, o);
    var d := Depart(e, o);
    assert p in d.orders;
    if e.movement == MOVE_STOP {
      LeavesStandstill(e, d, p);
      WaitStepMoving(ClearHere(e).(movement := MOVE_DOWN), d, p);
    } else {
      WaitStepMoving(e, d, p);
    }
  }

  lemma {:induction false} LaterVisit(e: ElevatorState, o: Order, k: nat)
    requires o in e.orders && 0 < k < |Trajectory(e, o)|
    ensures !Serves(e, o) && k - 1 < |Trajectory(Depart(e, o), o)|
    ensures Trajectory(e, o)[k] == Trajectory(Depart(e, o), o)[k - 1]
  {
  }

  lemma {:induction false} ClearedWereRequested(e: ElevatorState, o: Order, k: nat)
    requires o in e.orders && k < |Trajectory(e, o)|
    ensures Trajectory(e, o)[k].cleared <= e.orders
    decreases k
  {
    if k > 0 {
      LaterVisit(e, o, k);
      ClearedWereRequested(Depart(e, o), o, k - 1);
    }
  }

  /** The simulated car clears an order on the visit that Wait names, and on no other. */
  lemma {:induction false} ClearedAtWait(e: ElevatorState, o: Order, p: Order, k: nat)
    requires o in e.orders && p in e.orders && k < |Trajectory(e, o)|
    ensures p in Trajectory(e, o)[k].cleared <==> k == Wait(e, p.floor)
    decreases k
  {
    WaitServed(e, p);
    if k > 0 {
      LaterVisit(e, o, k);
      var d := Depart(e, o);
      if Serves(e, p) {
        ClearedWereRequested(d, o, k - 1);
      } else {
        WaitStep(e, o, p);
        ClearedAtWait(d, o, p, k - 1);
      }
    }
  }

  /** The simulation, as far as o itself, makes exactly Wait moves. */
  lemma {:induction false} TrajectoryLength(e: ElevatorState, o: Order)
    requires o in e.orders
    ensures |Trajectory(e, o)| - 1 == Wait(e, o.floor)
  {
    ClearedAtWait(e, o, o, |Trajectory(e, o)| - 1);
  }

  ghost predicate NearerOfType(e: ElevatorState, o: Order) {
    exists p :: p in e.orders && p.btn == o.btn && Wait(e, p.floor) < Wait(e, o.floor)
  }

  /** An order of o's type is nearer on the car's way than o: told from the orders alone. */
  ghost predicate TypeServedBefore(state: ElevatorState, o: Order)
    requires WeakInvariant(state)
  {
    !ServedAtOnce(AddOrder(state, o)) && NearerOfType(Start(AddOrder(state, o)), o)
  }

  lemma NearerIsClearedEarlier(s: ElevatorState, o: Order)
    requires o in s.orders
    ensures NearerOfType(s, o) <==> CostProperties.ClearsEarly(Trajectory(s, o), o.btn)
  {
    var t := Trajectory(s, o);
    TrajectoryLength(s, o);
    if NearerOfType(s, o) {
      var p :| p in s.orders && p.btn == o.btn && Wait(s, p.floor) < Wait(s, o.floor);
      WaitServed(s, p);
      var k := Wait(s, p.floor);
      ClearedAtWait(s, o, p, k);
      assert 0 <= k < |t| - 1 && Clears(t[k], o.btn);
    }
    if k: nat :| k < |t| - 1 && Clears(t[k], o.btn) {
      var p :| p in t[k].cleared && p.btn == o.btn;
      ClearedWereRequested(s, o, k);
      ClearedAtWait(s, o, p, k);
    }
  }

  lemma ServedBeforeIsClearedEarlier(state: ElevatorState, o: Order)
    requires WeakInvariant(state)
    ensures TypeServedBefore(state, o) <==> CostProperties.TypeClearedEarlier(state, o)
  {
    var e := AddOrder(state, o);
    if !ServedAtOnce(e) {
      NearerIsClearedEarlier(Start(e), o);
    }
  }

  /**
   The source's cost is the intended one exactly when no order of the same type lies nearer on
   the car's way; otherwise it is strictly lower.
   */
  lemma CostIsIntendedIff(state: ElevatorState, o: Order)
    requires WeakInvariant(state) && TRAVEL_TIME + DOOR_OPEN_TIME > 0
    ensures Cost(state, o) == ReferenceCost(state, o) <==> !TypeServedBefore(state, o)
    ensures Cost(state, o) < ReferenceCost(state, o) <==> TypeServedBefore(state, o)
  {
    CostProperties.CostAgainstReference(state, o);
    ServedBeforeIsClearedEarlier(state, o);
  }

  /** The simulated moves are the least Wait among the orders of o's type. */
  lemma {:induction false} MovesAreLeastWait(e: ElevatorState, o: Order)
    requires o in e.orders
    ensures var k := FirstClearing(Trajectory(e, o), o.btn);
            && (forall p :: p in e.orders && p.btn == o.btn ==> k <= Wait(e, p.floor))
            && exists p :: p in e.orders && p.btn == o.btn && k == Wait(e, p.floor)
  {
    var t := Trajectory(e, o);
    var k := FirstClearing(t, o.btn);
    FirstClearingExists(e, o);
    var q :| q in t[k].cleared && q.btn == o.btn;
    ClearedWereRequested(e, o, k);
    ClearedAtWait(e, o, q, k);
    forall p | p in e.orders && p.btn == o.btn ensures k <= Wait(e, p.floor) {
      WaitServed(e, p);
      if Wait(e, p.floor) < k {
        ClearedAtWait(e, o, p, Wait(e, p.floor));
      }
    }
  }
}
