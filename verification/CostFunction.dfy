/**
 TimeToServeOrder of elevator/controller_costFunction.go. The loop has no bound in the source;
 here it is proved equal to a time read off the trajectory of the simulated car, and bounded.
 */
module CostFunction {
  import opened Settings
  import opened Requests

  // ---------------------------------------------------------------- how far an order can still be

  /**
   The largest number of floor arrivals before a car leaving its floor in direction m can have
   served o, whatever other orders there are. A standing car counts as moving down, as it does
   in ChooseDirection.
   */
  function Rank(m: Movement, x: Floor, o: Order): nat {
    var top := FLOOR_NUM - 1;
    if m == MOVE_UP then
      if o.floor > x && o.btn != HALL_DOWN then o.floor - x
      else if o.btn != HALL_UP || o.floor > x then (top - x) + (top - o.floor)
      else (top - x) + top + o.floor
    else
      if o.floor < x && o.btn != HALL_UP then x - o.floor
      else if o.btn != HALL_DOWN || o.floor < x then x + o.floor
      else x + top + (top - o.floor)
  }

  /** The car stops here and the stop serves o. */
  predicate Serves(e: ElevatorState, o: Order) {
    ShouldStop(e) && o.floor == e.floor
  }

  /** Arrivals left once the car has arrived in state e: none when it serves o right here. */
  function ArrivalRank(e: ElevatorState, o: Order): nat
    requires o in e.orders
  {
    if Serves(e, o) then 0 else Rank(e.movement, e.floor, o)
  }

  /** The car after the stop, if there is one: floor cleared and a direction chosen. */
  function AfterStop(e: ElevatorState): ElevatorState {
    if ShouldStop(e) then
      var c := ClearHere(e);
      c.(movement := ChooseDirection(c))
    else e
  }

  /** One turn of the simulation loop that does not return: stop if needed, then move one floor. */
  function Depart(e: ElevatorState, o: Order): (r: ElevatorState)
    requires o in e.orders && !Serves(e, o)
    ensures o in r.orders
    ensures ArrivalRank(r, o) < ArrivalRank(e, o)
    ensures r.movement != MOVE_STOP
  {
    var d := AfterStop(e);
    assert o in d.orders && Ahead(d);
    d.(floor := d.floor + d.movement)
  }

  lemma RankBound(m: Movement, x: Floor, o: Order)
    ensures Rank(m, x, o) <= 2 * (FLOOR_NUM - 1)
    ensures o.floor != x ==> 1 <= Rank(m, x, o) <= 2 * (FLOOR_NUM - 1) - 1
  {
  }

  // ---------------------------------------------------------------- the trajectory

  /** What the car does at one floor it reaches. */
  datatype Visit = Visit(floor: Floor, stopped: bool, cleared: set<Order>)

  function VisitOf(e: ElevatorState): Visit {
    Visit(e.floor, ShouldStop(e), if ShouldStop(e) then OrdersHere(e) else {})
  }

  /** Every floor reached from e up to and including the stop that serves o. */
  function Trajectory(e: ElevatorState, o: Order): (t: seq<Visit>)
    requires o in e.orders
    ensures 1 <= |t| <= ArrivalRank(e, o) + 1
    ensures forall k :: 0 <= k < |t| ==> (o in t[k].cleared <==> k == |t| - 1)
    ensures forall k :: 0 <= k < |t| ==> (t[k].cleared != {} ==> t[k].stopped)
    decreases ArrivalRank(e, o)
  {
    if Serves(e, o) then [VisitOf(e)] else [VisitOf(e)] + Trajectory(Depart(e, o), o)
  }

  predicate Clears(v: Visit, b: OrderType) {
    exists o :: o in v.cleared && o.btn == b
  }

  /** The first visit that clears an order of type b; |t| if there is none. */
  function FirstClearing(t: seq<Visit>, b: OrderType): (k: nat)
    ensures k <= |t|
    ensures k < |t| ==> Clears(t[k], b)
    ensures forall j :: 0 <= j < k ==> !Clears(t[j], b)
  {
    if t == [] || Clears(t[0], b) then 0 else 1 + FirstClearing(t[1..], b)
  }

  function Stops(t: seq<Visit>): (n: nat)
    ensures n <= |t|
  {
    if t == [] then 0 else (if t[0].stopped then 1 else 0) + Stops(t[1..])
  }

  /** The time the visits t take: a floor of travel for each, and an open door for each stop. */
  function Elapsed(t: seq<Visit>): int {
    if t == [] then 0 else TRAVEL_TIME + (if t[0].stopped then DOOR_OPEN_TIME else 0) + Elapsed(t[1..])
  }

  // ---------------------------------------------------------------- the cost

  /** The simulation answers at once: an idle car with requests on its own floor only. */
  predicate ServedAtOnce(e: ElevatorState) {
    e.behaviour == Idle && ChooseDirection(e) == MOVE_STOP
  }

  /** The state in which the simulation enters its loop. */
  function Start(e: ElevatorState): ElevatorState
    requires WeakInvariant(e)
  {
    match e.behaviour
    case Idle => e.(movement := ChooseDirection(e))
    case Moving => e.(floor := e.floor + e.movement)
    case _ => e
  }

  function StartOffset(e: ElevatorState): int {
    match e.behaviour
    case Moving => TRAVEL_TIME / 2
    case DoorOpen => -(DOOR_OPEN_TIME / 2)
    case _ => 0
  }

  /** The trajectory simulated for a new order o. */
  function Simulated(state: ElevatorState, o: Order): seq<Visit>
    requires WeakInvariant(state)
  {
    Trajectory(Start(AddOrder(state, o)), o)
  }

  /** The time at which the first order of o's type is cleared: what the source computes. */
  function Cost(state: ElevatorState, o: Order): int
    requires WeakInvariant(state)
  {
    if ServedAtOnce(AddOrder(state, o)) then 0
    else
      var t := Simulated(state, o);
      StartOffset(state) + Elapsed(t[..FirstClearing(t, o.btn)])
  }

  /** The time at which o itself is cleared: what the callback was meant to detect. */
  function ReferenceCost(state: ElevatorState, o: Order): int
    requires WeakInvariant(state)
  {
    if ServedAtOnce(AddOrder(state, o)) then 0
    else
      var t := Simulated(state, o);
      StartOffset(state) + Elapsed(t[..|t| - 1])
  }

  lemma {:induction false} FirstClearingExists(e: ElevatorState, o: Order)
    requires o in e.orders
    ensures var t := Trajectory(e, o); FirstClearing(t, o.btn) < |t|
  {
    var t := Trajectory(e, o);
    assert Clears(t[|t| - 1], o.btn);
  }

  lemma {:induction false} ElapsedStep(v: Visit, t: seq<Visit>)
    ensures Elapsed([v] + t) == TRAVEL_TIME + (if v.stopped then DOOR_OPEN_TIME else 0) + Elapsed(t)
  {
    assert ([v] + t)[1..] == t;
  }

  /** The time the loop still takes from e. */
  ghost function LoopCost(e: ElevatorState, o: Order): int
    requires o in e.orders
  {
    var t := Trajectory(e, o);
    Elapsed(t[..FirstClearing(t, o.btn)])
  }

  lemma DepartMoves(e: ElevatorState, o: Order)
    requires o in e.orders && !Serves(e, o)
    ensures var d := AfterStop(e);
            0 <= d.floor + d.movement < FLOOR_NUM && Depart(e, o) == d.(floor := d.floor + d.movement)
  {
  }

  predicate SameCourse(e: ElevatorState, d: ElevatorState) {
    e.floor == d.floor && e.movement == d.movement && e.orders == d.orders
  }

  /** The trajectory does not depend on what the car calls its behaviour. */
  lemma {:induction false} SameCourseSameTrajectory(e: ElevatorState, d: ElevatorState, o: Order)
    requires SameCourse(e, d) && o in e.orders
    ensures Trajectory(e, o) == Trajectory(d, o)
    decreases ArrivalRank(e, o)
  {
    assert VisitOf(e) == VisitOf(d);
    if !Serves(e, o) {
      DepartMoves(e, o);
      DepartMoves(d, o);
      SameCourseSameTrajectory(Depart(e, o), Depart(d, o), o);
    }
  }

  /** One turn of the loop: return at the first stop that clears a type-b order, else go on. */
  lemma LoopTurn(e: ElevatorState, o: Order)
    requires o in e.orders
    ensures Clears(VisitOf(e), o.btn) ==> LoopCost(e, o) == 0
    ensures !Clears(VisitOf(e), o.btn) ==>
              && !Serves(e, o)
              && LoopCost(e, o)
                 == TRAVEL_TIME + (if ShouldStop(e) then DOOR_OPEN_TIME else 0) + LoopCost(Depart(e, o), o)
  {
    var t := Trajectory(e, o);
    FirstClearingExists(e, o);
    if Clears(t[0], o.btn) {
      assert t[..0] == [];
    } else {
      assert !Serves(e, o) by { assert Serves(e, o) ==> o in VisitOf(e).cleared; }
      var rest := Trajectory(Depart(e, o), o);
      var k := FirstClearing(rest, o.btn);
      assert t[1..] == rest && t[..1 + k] == [t[0]] + rest[..k];
      ElapsedStep(t[0], rest[..k]);
    }
  }

  lemma CostFromStart(state: ElevatorState, o: Order)
    requires WeakInvariant(state) && !ServedAtOnce(AddOrder(state, o))
    ensures Cost(state, o) == StartOffset(state) + LoopCost(Start(AddOrder(state, o)), o)
  {
  }

  /** The switch before the loop: the state in which it is entered, unless the order is served at once. */
  method EnterSimulation(state: ElevatorState, o: Order) returns (atOnce: bool, e: ElevatorState, duration: int)
    requires WeakInvariant(state)
    ensures atOnce <==> ServedAtOnce(AddOrder(state, o))
    ensures atOnce ==> duration == 0
    ensures !atOnce ==> e == Start(AddOrder(state, o)) && duration == StartOffset(state)
  {
    e := AddOrder(state, o);
    atOnce, duration := false, 0;
    match e.behaviour {
      case Idle =>
        var m := RequestsChooseDirection(e);
        e := e.(movement := m);
        atOnce := e.movement == MOVE_STOP;
      case Moving =>
        duration := duration + TRAVEL_TIME / 2;
        e := e.(floor := e.floor + e.movement);
      case DoorOpen =>
        duration := duration - DOOR_OPEN_TIME / 2;
      case Obstructed =>
    }
  }

  /** One turn of the loop: it arrives, or the car stops if it has to and moves on by a floor. */
  method SimulateFloor(head: ElevatorState, b: OrderType, f: Floor) returns (arrived: bool, e: ElevatorState, time: int)
    requires Order(f, b) in head.orders
    ensures arrived <==> Clears(VisitOf(head), b)
    ensures !arrived ==> !Serves(head, Order(f, b)) && e == Depart(head, Order(f, b))
    ensures !arrived ==> time == TRAVEL_TIME + if ShouldStop(head) then DOOR_OPEN_TIME else 0
  {
    var ifEq := (inner_b: OrderType, inner_f: Floor) => inner_b == b && inner_f == f;
    LoopTurn(head, Order(f, b));
    arrived, e, time := false, head, 0;
    var stop := RequestsShouldStop(e);
    if stop {
      e, arrived := RequestClearAtCurrentFloor(e, ifEq, f);
      assert arrived == Clears(VisitOf(head), b);
      if arrived {
        return;
      }
      time := time + DOOR_OPEN_TIME;
      var m := RequestsChooseDirection(e);
      e := e.(movement := m);
    }
    DepartMoves(head, Order(f, b));
    e := e.(floor := e.floor + e.movement);
    time := time + TRAVEL_TIME;
  }

  /** The simulation, as in the source. */
  method TimeToServeOrder(state: ElevatorState, b: OrderType, f: Floor) returns (duration: int)
    requires WeakInvariant(state)
    ensures duration == Cost(state, Order(f, b))
  {
    ghost var o := Order(f, b);
    var atOnce, e;
    atOnce, e, duration := EnterSimulation(state, Order(f, b));
    if atOnce {
      return;
    }
    CostFromStart(state, o);
    while true
      invariant o in e.orders
      invariant Cost(state, o) == duration + LoopCost(e, o)
      decreases ArrivalRank(e, o)
    {
      LoopTurn(e, o);
      var arrivedAtOrder, next, time := SimulateFloor(e, b, f);
      if arrivedAtOrder {
        return;
      }
      e, duration := next, duration + time;
    }
  }
}
