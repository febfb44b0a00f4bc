/**
 The event cases of ControllerModule in elevator/controller.go as one transition per event:
 the state after it and what it publishes, in order. Timers are flags that say whether they
 are armed; the goroutine onMotorStop is split into its start, its retries and its end.
 */
module ControllerEvents {
  import opened Settings
  import opened Requests
  import CostFunction

  datatype Ctrl = Ctrl(car: ElevatorState, doorArmed: bool, obstructArmed: bool, travelArmed: bool)

  datatype Output =
    | Control(floor: Floor, behaviour: Behaviour, movement: Movement)
    | OrderComplete(floor: Floor)
    | Availability(available: bool)
    | CostResult(orderID: int, cost: int, order: Order)
    | LampsOff(floor: Floor, allButtons: bool)
    | LampOn(order: Order)

  datatype Event =
    | FloorUpt(floor: Floor)
    | OrderCompleted(own: bool, floor: Floor)
    | NewOrder(orderID: int, order: Order)
    | DoorTimeout
    | Obstruction(obstructed: bool)
    | ObstructTimeout
    | NewCabOrder(order: Order)
    | Assigned(own: bool, order: Order, singleMode: bool)
    | MotorStop
    | MotorRetry(floor: Floor, movement: Movement)
    | MotorRecovered

  type Reaction = (Ctrl, seq<Output>)

  // ---------------------------------------------------------------- helpers of the handlers

  function ChooseDirUptState(e: ElevatorState): ElevatorState {
    var m := ChooseDirection(e);
    e.(movement := m, behaviour := if m == MOVE_STOP then Idle else Moving)
  }

  function WithoutHallOrders(s: set<Order>): set<Order> {
    set o | o in s && o.btn == CAB
  }

  function ControlFor(e: ElevatorState): Output {
    Control(e.floor, e.behaviour, e.movement)
  }

  function OpenDoor(c: Ctrl): Ctrl {
    c.(car := ClearHere(c.car).(behaviour := DoorOpen), doorArmed := true)
  }

  /** elevatorCtrFromOrder: the command for a new order, and whether the car opened its door for it. */
  function ControlFromOrder(c: Ctrl, request: Floor): (Ctrl, Output, bool) {
    if (c.car.behaviour == DoorOpen || c.car.behaviour == Idle) && c.car.floor == request then
      (OpenDoor(c), Control(request, DoorOpen, MOVE_STOP), true)
    else if c.car.behaviour == Idle then
      var e := ChooseDirUptState(c.car);
      (c.(car := e), ControlFor(e), false)
    else
      (c, ControlFor(c.car), false)
  }

  function OrderServed(f: Floor): seq<Output> {
    [LampsOff(f, true), OrderComplete(f)]
  }

  /** newOrderController. */
  function AcceptOrder(c0: Ctrl, o: Order): Reaction {
    var c := c0.(car := AddOrder(c0.car, o));
    match c.car.behaviour
    case Moving =>
      var (r, cmd, served) := ControlFromOrder(c.(car := ChooseDirUptState(c.car)), o.floor);
      (r, if served then [cmd, LampsOff(o.floor, false)] else [cmd])
    case Idle =>
      var (r, cmd, served) := ControlFromOrder(c, o.floor);
      (r.(travelArmed := r.travelArmed || (r.car.available && cmd.movement != MOVE_STOP)),
       if served then [cmd] + OrderServed(o.floor) else [cmd])
    case Obstructed =>
      if o.floor == c.car.floor then (c.(car := ClearHere(c.car)), OrderServed(o.floor)) else (c, [])
    case DoorOpen =>
      if o.floor == c.car.floor then
        (c.(car := ClearHere(c.car), doorArmed := true), OrderServed(o.floor))
      else (c, [])
  }

  // ---------------------------------------------------------------- the event cases

  /** elevatorControlOnFloorUpt. */
  function ControlOnFloorUpt(c0: Ctrl, f: Floor): (Ctrl, Output) {
    var c := c0.(car := c0.car.(floor := f));
    if ShouldStop(c.car) then (OpenDoor(c), Control(f, DoorOpen, MOVE_STOP))
    else if f == FLOOR_NUM - 1 || f == 0 then (c, Control(f, Idle, MOVE_STOP))
    else (c, ControlFor(c.car))
  }

  function OnFloorUpt(c: Ctrl, f: Floor): Reaction {
    var (r, cmd) := ControlOnFloorUpt(c, f);
    if cmd.movement == MOVE_STOP then (r.(travelArmed := false), [cmd, OrderComplete(f)])
    else (r.(travelArmed := r.travelArmed || r.car.available), [cmd])
  }

  function OnOrderCompleted(c: Ctrl, own: bool, f: Floor): Reaction {
    (c.(car := c.car.(orders := set o | o in c.car.orders && (o.floor != f || o.btn == CAB))),
     [LampsOff(f, own)])
  }

  function OnNewOrder(c: Ctrl, orderID: int, o: Order): Reaction
    requires WeakInvariant(c.car)
  {
    (c, if c.car.available then [CostResult(orderID, CostFunction.Cost(c.car, o), o)] else [])
  }

  function OnDoorTimeout(c0: Ctrl): Reaction {
    var c := c0.(doorArmed := false);
    if c.car.behaviour == Obstructed then (c, [Control(c.car.floor, DoorOpen, MOVE_STOP)])
    else
      var e := ChooseDirUptState(c.car);
      (c.(car := e, travelArmed := c.travelArmed || (e.movement != MOVE_STOP && e.available)), [ControlFor(e)])
  }

  function OnObstruction(c: Ctrl, obstructed: bool): Reaction {
    if obstructed && c.car.behaviour == DoorOpen then
      (c.(car := c.car.(behaviour := Obstructed), obstructArmed := true),
       [Control(c.car.floor, DoorOpen, MOVE_STOP)])
    else if !obstructed && c.car.behaviour == Obstructed then
      var e := ChooseDirUptState(c.car.(available := true));
      (c.(car := e, obstructArmed := false, travelArmed := c.travelArmed || e.movement != MOVE_STOP),
       (if c.car.available then [] else [Availability(true)])
       + (if e.movement == MOVE_STOP then [LampsOff(e.floor, true)] else [])
       + [ControlFor(e)])
    else (c, [])
  }

  function OnObstructTimeout(c: Ctrl): Reaction {
    (c.(car := c.car.(available := false, orders := WithoutHallOrders(c.car.orders)), obstructArmed := false),
     [Availability(false)])
  }

  function OnNewCabOrder(c: Ctrl, o: Order): Reaction {
    var (r, outs) := AcceptOrder(c, o);
    (r, outs + [LampOn(o)])
  }

  function OnAssigned(c: Ctrl, own: bool, o: Order, singleMode: bool): Reaction {
    var lamp := if singleMode then [] else [LampOn(o)];
    if own then
      var (r, outs) := AcceptOrder(c, o);
      (r, lamp + outs)
    else (c, lamp)
  }

  /** The direction in which a stalled car tries to move: the one it had, or away from the end. */
  function RetryDirection(e: ElevatorState): Movement {
    if e.movement != MOVE_STOP then e.movement else if e.floor == 0 then MOVE_UP else MOVE_DOWN
  }

  /** The watchdog fires: onMotorStop up to its first command. */
  function OnMotorStop(c: Ctrl): Reaction {
    (c.(car := c.car.(available := false, orders := WithoutHallOrders(c.car.orders)), travelArmed := false),
     [Availability(false), Control(c.car.floor, Moving, RetryDirection(c.car))])
  }

  function Step(c: Ctrl, ev: Event): Reaction
    requires WeakInvariant(c.car)
  {
    match ev
    case FloorUpt(f) => OnFloorUpt(c, f)
    case OrderCompleted(own, f) => OnOrderCompleted(c, own, f)
    case NewOrder(id, o) => OnNewOrder(c, id, o)
    case DoorTimeout => OnDoorTimeout(c)
    case Obstruction(b) => OnObstruction(c, b)
    case ObstructTimeout => OnObstructTimeout(c)
    case NewCabOrder(o) => OnNewCabOrder(c, o)
    case Assigned(own, o, single) => OnAssigned(c, own, o, single)
    case MotorStop => OnMotorStop(c)
    case MotorRetry(f, m) => (c, [Control(f, Moving, m)])
    case MotorRecovered => (c.(car := c.car.(available := true)), [Availability(true)])
  }

  /** The controller before its first event, with the cab orders of the backup file. */
  function Initial(cabs: set<Floor>): Ctrl {
    Ctrl(ElevatorState(0, Idle, MOVE_STOP, true, set f | f in cabs :: Order(f, CAB)), false, false, false)
  }

  /** StartElevator: the motor is switched on upwards to find a floor. */
  function StartElevator(c: Ctrl): Ctrl {
    c.(car := c.car.(behaviour := Moving, movement := MOVE_UP))
  }

  /** Starting keeps the invariant exactly when the car is not at the top; it holds in the initial state. */
  lemma StartKeepsInvariantIff(c: Ctrl, cabs: set<Floor>)
    ensures WeakInvariant(StartElevator(c).car) <==> c.car.floor < FLOOR_NUM - 1
    ensures WeakInvariant(Initial(cabs).car) && WeakInvariant(StartElevator(Initial(cabs)).car)
  {
  }

  /** A floor update of the top floor before StartElevator is enough to break it. */
  lemma StartAtTopBreaksInvariant()
    ensures var c := Step(Initial({}), FloorUpt(FLOOR_NUM - 1)).0;
            WeakInvariant(c.car) && !WeakInvariant(StartElevator(c).car)
  {
  }

  // ---------------------------------------------------------------- runs of arbitrary events

  lemma ChosenStateIsWeak(e: ElevatorState)
    ensures WeakInvariant(ChooseDirUptState(e))
  {
  }

  lemma AcceptKeepsWeakInvariant(c: Ctrl, o: Order)
    requires WeakInvariant(c.car)
    ensures WeakInvariant(AcceptOrder(c, o).0.car)
  {
    ChosenStateIsWeak(AddOrder(c.car, o));
  }

  /** Whatever happens, in whatever order, the car keeps to its shaft. */
  lemma StepKeepsWeakInvariant(c: Ctrl, ev: Event)
    requires WeakInvariant(c.car)
    ensures WeakInvariant(Step(c, ev).0.car)
  {
    match ev
    case NewCabOrder(o) => AcceptKeepsWeakInvariant(c, o);
    case Assigned(own, o, single) => AcceptKeepsWeakInvariant(c, o);
    case DoorTimeout => ChosenStateIsWeak(c.car);
    case Obstruction(b) => ChosenStateIsWeak(c.car.(available := true));
    case _ =>
  }

  /** The states of a run: the first, and the one after each event. */
  ghost function Run(c: Ctrl, evs: seq<Event>): (cs: seq<Ctrl>)
    requires WeakInvariant(c.car)
    ensures |cs| == |evs| + 1 && cs[0] == c
    ensures forall k :: 0 <= k < |cs| ==> WeakInvariant(cs[k].car)
    ensures forall k :: 0 <= k < |evs| ==> cs[k + 1] == Step(cs[k], evs[k]).0
    decreases |evs|
  {
    if evs == [] then [c]
    else
      StepKeepsWeakInvariant(c, evs[0]);
      [c] + Run(Step(c, evs[0]).0, evs[1..])
  }

  predicate DoorIsOpenAt(e: ElevatorState, f: Floor) {
    e.floor == f && (e.behaviour == DoorOpen || e.behaviour == Obstructed)
  }

  lemma ControlServes(c: Ctrl, f: Floor)
    ensures var (d, cmd, served) := ControlFromOrder(c, f);
            && d.car.floor == c.car.floor && cmd.Control? && (served ==> c.car.floor == f)
            && (if served then DoorIsOpenAt(d.car, c.car.floor) && d.car.orders == ClearHere(c.car).orders
                else d.car.orders == c.car.orders)
  {
  }

  /** Accepting an order adds it, or serves the floor of the car with the door open. */
  lemma AcceptAddsOrServes(c: Ctrl, o: Order)
    ensures var d := AcceptOrder(c, o).0.car;
            && d.floor == c.car.floor
            && (d.orders == c.car.orders + {o}
                || (DoorIsOpenAt(d, c.car.floor) && d.orders == ClearHere(AddOrder(c.car, o)).orders))
  {
    var a := c.(car := AddOrder(c.car, o));
    ControlServes(a, o.floor);
    ControlServes(a.(car := ChooseDirUptState(a.car)), o.floor);
  }

  /** A cab order leaves only while the car stands at its floor with the door open. */
  lemma CabOrderSurvivesStep(c: Ctrl, ev: Event, f: Floor)
    requires WeakInvariant(c.car) && Order(f, CAB) in c.car.orders
    ensures var d := Step(c, ev).0.car; Order(f, CAB) in d.orders || DoorIsOpenAt(d, f)
  {
    match ev
    case NewCabOrder(o) => AcceptAddsOrServes(c, o);
    case Assigned(own, o, single) => AcceptAddsOrServes(c, o);
    case _ =>
  }

  /** Over any run, a cab order that is gone has been served with the door open at its floor. */
  lemma {:induction false} CabOrdersSurvive(c: Ctrl, evs: seq<Event>, i: nat, j: nat, f: Floor)
    requires WeakInvariant(c.car) && i <= j <= |evs|
    requires Order(f, CAB) in Run(c, evs)[i].car.orders
    requires Order(f, CAB) !in Run(c, evs)[j].car.orders
    ensures exists k :: i < k <= j && DoorIsOpenAt(Run(c, evs)[k].car, f)
    decreases j - i
  {
    ghost var before, after := Run(c, evs)[i], Run(c, evs)[i + 1];
    CabOrderSurvivesStep(before, evs[i], f);
    if Order(f, CAB) in after.car.orders {
      CabOrdersSurvive(c, evs, i + 1, j, f);
    }
  }

  // ---------------------------------------------------------------- completions

  lemma AcceptReportsStops(c: Ctrl, o: Order, f: Floor)
    ensures OrderComplete(f) in AcceptOrder(c, o).1 ==> DoorIsOpenAt(AcceptOrder(c, o).0.car, f)
  {
    var a := c.(car := AddOrder(c.car, o));
    ControlServes(a, o.floor);
    ControlServes(a.(car := ChooseDirUptState(a.car)), o.floor);
  }

  /**
   A completion is reported without the door being open there exactly when a floor update at an end
   of the shaft is not a stop, as can happen at start-up.
   */
  lemma ReportedWithoutStopIff(c: Ctrl, ev: Event, f: Floor)
    requires WeakInvariant(c.car)
    ensures var (d, outs) := Step(c, ev);
            OrderComplete(f) in outs && !DoorIsOpenAt(d.car, f)
            <==> ev == FloorUpt(f) && !DoorIsOpenAt(c.car, c.car.floor) &&
                 !ShouldStop(c.car.(floor := f)) && (f == 0 || f == FLOOR_NUM - 1)
  {
    match ev
    case NewCabOrder(o) => AcceptReportsStops(c, o, f);
    case Assigned(own, o, single) => AcceptReportsStops(c, o, f);
    case FloorUpt(g) => assert OnFloorUpt(c, g).1[0] == ControlOnFloorUpt(c, g).1;
    case _ =>
  }

  /**
   It happens at start-up, when the first floor update is that of the lowest floor: floor 0 is
   reported as completed and the motor stops, while the car stays Moving and no watchdog is armed.
   */
  lemma ReportedAtStartUp()
    ensures var c := StartElevator(Initial({1}));
            var (d, outs) := Step(c, FloorUpt(0));
            && WeakInvariant(c.car)
            && outs == [Control(0, Idle, MOVE_STOP), OrderComplete(0)]
            && d.car.behaviour == Moving && !d.travelArmed && d.car.orders == {Order(1, CAB)}
  {
    assert Order(1, CAB) in StartElevator(Initial({1})).car.orders;
  }

  // ---------------------------------------------------------------- the driver

  /** What the driver shows: the floor indicator, the door lamp and the motor. */
  datatype Driver = Driver(indicator: Floor, lamp: bool, motor: Movement)

  /** setElevatorControl of elevator/driver.go. */
  function SetElevatorControl(cmd: Output): Driver
    requires cmd.Control?
  {
    Driver(cmd.floor, cmd.behaviour == DoorOpen, cmd.movement)
  }

  /** No command shows the door open while it runs the motor. */
  predicate Safe(outs: seq<Output>) {
    forall x :: x in outs && x.Control? && x.behaviour == DoorOpen ==> x.movement == MOVE_STOP
  }

  /** A floor update that reaches an open door, is not a stop, and is not at an end of the shaft. */
  predicate DrivesWithDoorOpen(c: Ctrl, ev: Event) {
    && ev.FloorUpt? && c.car.behaviour == DoorOpen
    && !ShouldStop(c.car.(floor := ev.floor)) && 0 < ev.floor < FLOOR_NUM - 1
  }

  lemma AcceptIsSafe(c: Ctrl, o: Order)
    ensures Safe(AcceptOrder(c, o).1)
  {
  }

  /** The only unsafe commands come from floor updates that arrive with the door open. */
  lemma StepIsSafeIff(c: Ctrl, ev: Event)
    requires WeakInvariant(c.car)
    ensures Safe(Step(c, ev).1) <==> !DrivesWithDoorOpen(c, ev)
  {
    match ev
    case NewCabOrder(o) => AcceptIsSafe(c, o);
    case Assigned(own, o, single) => AcceptIsSafe(c, o);
    case FloorUpt(f) => assert Step(c, ev).1[0] == ControlOnFloorUpt(c, f).1;
    case _ =>
  }

  /** The event at position k of the run publishes x. */
  ghost predicate Publishes(c: Ctrl, evs: seq<Event>, k: int, x: Output)
    requires WeakInvariant(c.car)
  {
    0 <= k < |evs| && x in Step(Run(c, evs)[k], evs[k]).1
  }

  /** The driver after the commands among outs have reached it one by one. */
  function Drive(d: Driver, outs: seq<Output>): Driver
    decreases |outs|
  {
    if outs == [] then d else Drive(if outs[0].Control? then SetElevatorControl(outs[0]) else d, outs[1..])
  }

  lemma {:induction false} PublishedIsSafe(c: Ctrl, evs: seq<Event>, k: int, x: Output)
    requires WeakInvariant(c.car) && Publishes(c, evs, k, x)
    requires evs[k].FloorUpt? ==> Run(c, evs)[k].car.behaviour != DoorOpen
    ensures Safe([x])
  {
    StepIsSafeIff(Run(c, evs)[k], evs[k]);
  }

  /**
   If no floor update finds the door open, the driver never shows an open door with the motor running,
   in whatever order, with whatever losses and repetitions, the outputs reach it.
   */
  lemma {:induction false} DoorLampSafety(c: Ctrl, evs: seq<Event>, d: Driver, outs: seq<Output>)
    requires WeakInvariant(c.car)
    requires forall k :: 0 <= k < |evs| && evs[k].FloorUpt? ==> Run(c, evs)[k].car.behaviour != DoorOpen
    requires forall x :: x in outs ==> exists k :: Publishes(c, evs, k, x)
    requires d.lamp ==> d.motor == MOVE_STOP
    ensures var r := Drive(d, outs); r.lamp ==> r.motor == MOVE_STOP
    decreases |outs|
  {
    if outs != [] {
      var x := outs[0];
      assert x in outs;
      var k :| Publishes(c, evs, k, x);
      PublishedIsSafe(c, evs, k, x);
      assert x in [x];
      assert forall y :: y in outs[1..] ==> y in outs;
      DoorLampSafety(c, evs, if x.Control? then SetElevatorControl(x) else d, outs[1..]);
    }
  }
}
