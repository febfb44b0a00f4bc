/**
 The controller in a closed system, after its first stop: the floor sensor fires only for the next
 floor of a moving car, timers fire only when armed, a completion is the car's own and is handled
 while its door is open, and the motor does not fail. New orders and obstructions come at any time.
 */
module ClosedSystem {
  import opened Settings
  import opened Requests
  import CostFunction
  import opened ControllerEvents

  predicate DoorStands(e: ElevatorState) {
    e.behaviour == DoorOpen || e.behaviour == Obstructed
  }

  predicate Enabled(c: Ctrl, ev: Event) {
    match ev
    case FloorUpt(f) => c.car.behaviour == Moving && f == c.car.floor + c.car.movement
    case OrderCompleted(own, f) => own && DoorStands(c.car) && f == c.car.floor
    case DoorTimeout => c.doorArmed
    case ObstructTimeout => c.obstructArmed
    case MotorStop => false
    case MotorRetry(_, _) => false
    case MotorRecovered => false
    case _ => true
  }

  /** No order is forgotten: a moving car has one ahead, an open door none left here, an idle car none at all. */
  predicate StrongInvariant(c: Ctrl) {
    && WeakInvariant(c.car)
    && (c.car.behaviour == Moving ==> Ahead(c.car))
    && (DoorStands(c.car) ==> OrdersHere(c.car) == {})
    && (c.car.behaviour == Idle ==> c.car.orders == {})
    && (c.car.behaviour == DoorOpen ==> c.doorArmed)
    && (if c.car.behaviour == Obstructed then c.car.available <==> c.obstructArmed
        else c.car.available && !c.obstructArmed)
    && (c.travelArmed <==> c.car.behaviour == Moving)
  }

  /** A moving car with a request ahead notes a new order and goes on. */
  lemma MovingCarOnlyNotes(c: Ctrl, o: Order)
    requires c.car.behaviour == Moving && Ahead(c.car)
    ensures AcceptOrder(c, o) == (c.(car := AddOrder(c.car, o)), [ControlFor(c.car)])
    ensures Ahead(AddOrder(c.car, o))
  {
    var e := AddOrder(c.car, o);
    assert Ahead(e) && ChooseDirUptState(e) == e;
  }

  /** The car's own completion finds nothing left to clear. */
  lemma OwnCompletionClearsNothing(c: Ctrl, f: Floor)
    requires StrongInvariant(c) && Enabled(c, OrderCompleted(true, f))
    ensures Step(c, OrderCompleted(true, f)).0 == c
  {
    var d := Step(c, OrderCompleted(true, f)).0;
    assert forall o :: o in c.car.orders && o.floor == f ==> o in OrdersHere(c.car);
    assert d.car.orders == c.car.orders;
  }

  lemma AcceptKeepsStrongInvariant(c: Ctrl, o: Order)
    requires StrongInvariant(c)
    ensures StrongInvariant(AcceptOrder(c, o).0)
  {
    assert o in AddOrder(c.car, o).orders;
    if c.car.behaviour == Moving {
      MovingCarOnlyNotes(c, o);
    }
  }

  /** The car leaves a floor on which nothing is requested: it moves towards a request, or there is none. */
  lemma LeavingIsStrong(e: ElevatorState)
    requires OrdersHere(e) == {}
    ensures var d := ChooseDirUptState(e);
            && (d.behaviour == Moving ==> Ahead(d))
            && (d.behaviour == Idle ==> d.orders == {} && d.movement == MOVE_STOP)
            && (d.behaviour == Moving || d.behaviour == Idle)
  {
  }

  lemma StepKeepsStrongInvariant(c: Ctrl, ev: Event)
    requires StrongInvariant(c) && Enabled(c, ev)
    ensures StrongInvariant(Step(c, ev).0)
  {
    StepKeepsWeakInvariant(c, ev);
    match ev
    case NewCabOrder(o) => AcceptKeepsStrongInvariant(c, o);
    case Assigned(own, o, single) => AcceptKeepsStrongInvariant(c, o);
    case DoorTimeout =>
      if c.car.behaviour == DoorOpen { LeavingIsStrong(c.car); }
    case Obstruction(b) =>
      if c.car.behaviour == Obstructed { LeavingIsStrong(c.car.(available := true)); }
    case _ =>
  }

  /** The first stop after start-up, with no obstruction pending, opens the closed system. */
  lemma FirstStopEstablishesStrongInvariant(c: Ctrl, f: Floor)
    requires WeakInvariant(c.car) && c.car.available && !c.obstructArmed
    requires ShouldStop(c.car.(floor := f))
    ensures StrongInvariant(Step(c, FloorUpt(f)).0)
  {
  }

  // ---------------------------------------------------------------- why the system must be closed

  /** o lies strictly ahead of the moving car and outlives a completion of floor f. */
  predicate StaysAhead(e: ElevatorState, f: Floor, o: Order) {
    && o in e.orders && (o.floor != f || o.btn == CAB)
    && (if e.movement == MOVE_UP then o.floor > e.floor else o.floor < e.floor)
  }

  /**
   A completion by another elevator keeps the invariant exactly if the car does not move, or has an
   order ahead that is on another floor or a cab order.
   */
  lemma RemoteCompletionKeepsInvariantIff(c: Ctrl, f: Floor)
    requires StrongInvariant(c)
    ensures StrongInvariant(Step(c, OrderCompleted(false, f)).0) <==>
            c.car.behaviour != Moving || exists o :: StaysAhead(c.car, f, o)
  {
    var d := Step(c, OrderCompleted(false, f)).0;
    assert forall o :: o in OrdersHere(d.car) ==> o in OrdersHere(c.car);
    assert forall o :: StaysAhead(c.car, f, o) <==>
                       o in d.car.orders &&
                       (if c.car.movement == MOVE_UP then o.floor > c.car.floor else o.floor < c.car.floor);
  }

  /** If it does not, the next arrival is a stop, and restores it. */
  lemma NextArrivalRestoresInvariant(c: Ctrl, f: Floor)
    requires StrongInvariant(c) && c.car.behaviour == Moving
    ensures var d := Step(c, OrderCompleted(false, f)).0;
            StrongInvariant(Step(d, FloorUpt(c.car.floor + c.car.movement)).0)
  {
    var d := Step(c, OrderCompleted(false, f)).0;
    var e := d.car.(floor := c.car.floor + c.car.movement);
    if !ShouldStop(e) {
      assert Ahead(e);
    }
  }

  /**
   Until then the car depends on the next order: it keeps its direction exactly if something is
   requested ahead again, and opens its door between floors exactly if only its last floor is requested.
   */
  lemma MovingCarAndNewOrder(c: Ctrl, o: Order)
    requires WeakInvariant(c.car) && c.car.behaviour == Moving
    ensures var e := AddOrder(c.car, o);
            var d := AcceptOrder(c, o).0.car;
            && (d.behaviour == Moving && d.movement == c.car.movement <==> Ahead(e))
            && (d.behaviour == DoorOpen <==> o.floor == c.car.floor && !Above(e) && !Below(e))
  {
  }

  lemma CarLeavesForHallOrder()
    requires FLOOR_NUM >= 3
    ensures var s := StartElevator(Initial({}));
            var evs := [FloorUpt(0), DoorTimeout, Assigned(true, Order(2, HALL_UP), false)];
            && WeakInvariant(s.car)
            && Run(s, evs)[3] == Ctrl(ElevatorState(0, Moving, MOVE_UP, true, {Order(2, HALL_UP)}), false, false, true)
  {
    var s := StartElevator(Initial({}));
    var evs := [FloorUpt(0), DoorTimeout, Assigned(true, Order(2, HALL_UP), false)];
    var a := Step(s, evs[0]).0;
    assert a == Ctrl(ElevatorState(0, DoorOpen, MOVE_UP, true, {}), true, false, false);
    var b := Step(a, evs[1]).0;
    assert b == Ctrl(ElevatorState(0, Idle, MOVE_STOP, true, {}), false, false, false);
    var c := Step(b, evs[2]).0;
    assert Order(2, HALL_UP) in AddOrder(b.car, Order(2, HALL_UP)).orders;
    assert c == Ctrl(ElevatorState(0, Moving, MOVE_UP, true, {Order(2, HALL_UP)}), false, false, true);
    var cs := Run(s, evs);
    assert cs[1] == a && cs[2] == b && cs[3] == c;
  }

  /**
   Such a door is reached: after start-up the car leaves floor 0 for a hall order, another elevator serves
   that order, and a cab order for floor 0 opens the door of the car between the floors. The order is
   then gone, and its completion is never reported.
   */
  lemma DoorOpensBetweenFloors()
    requires FLOOR_NUM >= 3
    ensures var c := Ctrl(ElevatorState(0, Moving, MOVE_UP, true, {Order(2, HALL_UP)}), false, false, true);
            var d := Step(c, OrderCompleted(false, 2)).0;
            && WeakInvariant(StartElevator(Initial({})).car)
            && Run(StartElevator(Initial({})), [FloorUpt(0), DoorTimeout, Assigned(true, Order(2, HALL_UP), false)])[3] == c
            && StrongInvariant(c)
            && WeakInvariant(d.car) && d.car.behaviour == Moving
            && Step(d, NewCabOrder(Order(0, CAB))).0.car.behaviour == DoorOpen
            && Step(d, NewCabOrder(Order(0, CAB))).1
               == [Control(0, DoorOpen, MOVE_STOP), LampsOff(0, false), LampOn(Order(0, CAB))]
  {
    var c := Ctrl(ElevatorState(0, Moving, MOVE_UP, true, {Order(2, HALL_UP)}), false, false, true);
    assert Order(2, HALL_UP) in c.car.orders;
    StepKeepsWeakInvariant(c, OrderCompleted(false, 2));
    assert Step(c, OrderCompleted(false, 2)).0.car.orders == {};
    CarLeavesForHallOrder();
  }

  // ---------------------------------------------------------------- closed runs

  ghost predicate ClosedRun(c: Ctrl, evs: seq<Event>)
    requires WeakInvariant(c.car)
  {
    forall k :: 0 <= k < |evs| ==> Enabled(Run(c, evs)[k], evs[k])
  }

  lemma {:induction false} RunTail(c: Ctrl, evs: seq<Event>)
    requires WeakInvariant(c.car) && evs != []
    ensures WeakInvariant(Step(c, evs[0]).0.car)
    ensures Run(c, evs) == [c] + Run(Step(c, evs[0]).0, evs[1..])
    ensures ClosedRun(c, evs) ==> Enabled(c, evs[0]) && ClosedRun(Step(c, evs[0]).0, evs[1..])
  {
    StepKeepsWeakInvariant(c, evs[0]);
    var d := Step(c, evs[0]).0;
    assert Run(c, evs)[0] == c;
    if ClosedRun(c, evs) {
      forall k | 0 <= k < |evs[1..]| ensures Enabled(Run(d, evs[1..])[k], evs[1..][k]) {
        assert Run(d, evs[1..])[k] == Run(c, evs)[k + 1];
      }
    }
  }

  lemma {:induction false} StrongInvariantHolds(c: Ctrl, evs: seq<Event>)
    requires StrongInvariant(c) && ClosedRun(c, evs)
    ensures forall k :: 0 <= k < |Run(c, evs)| ==> StrongInvariant(Run(c, evs)[k])
    decreases |evs|
  {
    if evs != [] {
      RunTail(c, evs);
      StepKeepsStrongInvariant(c, evs[0]);
      StrongInvariantHolds(Step(c, evs[0]).0, evs[1..]);
    }
  }

  lemma AcceptReversesOnlyWhenDone(c: Ctrl, o: Order)
    requires StrongInvariant(c)
    ensures var d := AcceptOrder(c, o).0.car;
            && (c.car.movement == MOVE_UP && d.movement != MOVE_UP ==> !Above(d))
            && (c.car.movement == MOVE_DOWN && d.movement != MOVE_DOWN ==> !Below(d))
  {
  }

  /** The car turns round only when nothing is requested in its old direction. */
  lemma ReversesOnlyWhenDone(c: Ctrl, ev: Event)
    requires StrongInvariant(c) && Enabled(c, ev)
    ensures var d := Step(c, ev).0.car;
            && (c.car.movement == MOVE_UP && d.movement != MOVE_UP ==> !Above(d))
            && (c.car.movement == MOVE_DOWN && d.movement != MOVE_DOWN ==> !Below(d))
  {
    match ev
    case NewCabOrder(o) => AcceptReversesOnlyWhenDone(c, o);
    case Assigned(own, o, single) => AcceptReversesOnlyWhenDone(c, o);
    case _ =>
  }

  /** A car with orders is on its way, or will be as soon as its door closes or is freed. */
  lemma NeverStuck(c: Ctrl)
    requires StrongInvariant(c) && c.car.orders != {}
    ensures match c.car.behaviour
            case Moving => Enabled(c, FloorUpt(c.car.floor + c.car.movement))
            case DoorOpen => Enabled(c, DoorTimeout) && Step(c, DoorTimeout).0.car.behaviour == Moving
            case Obstructed => Step(c, Obstruction(false)).0.car.behaviour == Moving
            case Idle => false
  {
    match c.car.behaviour
    case DoorOpen => LeavingIsStrong(c.car);
    case Obstructed => LeavingIsStrong(c.car.(available := true));
    case _ =>
  }

  // ---------------------------------------------------------------- starvation freedom

  lemma AcceptLeaves(c: Ctrl, p: Order, o: Order)
    requires o in c.car.orders && o !in AcceptOrder(c, p).0.car.orders
    ensures DoorIsOpenAt(AcceptOrder(c, p).0.car, o.floor)
  {
    AcceptAddsOrServes(c, p);
  }

  /** An order leaves by being served with the door open at its floor, or, a hall order, by the obstruction timeout. */
  lemma OrderLeaves(c: Ctrl, ev: Event, o: Order)
    requires StrongInvariant(c) && Enabled(c, ev)
    requires o in c.car.orders && o !in Step(c, ev).0.car.orders
    ensures DoorIsOpenAt(Step(c, ev).0.car, o.floor) || (ev == ObstructTimeout && o.btn != CAB)
  {
    match ev
    case NewCabOrder(p) => AcceptLeaves(c, p, o);
    case Assigned(own, p, single) => if own { AcceptLeaves(c, p, o); }
    case _ =>
  }

  lemma AcceptReportsService(c: Ctrl, p: Order, o: Order)
    requires StrongInvariant(c)
    requires o in c.car.orders + {p} && o !in AcceptOrder(c, p).0.car.orders
    ensures OrderComplete(o.floor) in AcceptOrder(c, p).1 && DoorIsOpenAt(AcceptOrder(c, p).0.car, o.floor)
  {
    AcceptAddsOrServes(c, p);
    AcceptKeepsStrongInvariant(c, p);
    if c.car.behaviour == Moving {
      MovingCarOnlyNotes(c, p);
    } else {
      assert OrderComplete(p.floor) in OrderServed(p.floor) by {
        assert OrderServed(p.floor)[1] == OrderComplete(p.floor);
      }
    }
  }

  /** An order that is served is reported: the completion of its floor is published by the same event. */
  lemma ServiceIsReported(c: Ctrl, ev: Event, o: Order)
    requires StrongInvariant(c) && Enabled(c, ev) && ev != ObstructTimeout
    requires o !in Step(c, ev).0.car.orders
    requires o in c.car.orders || ev == NewCabOrder(o) || (ev.Assigned? && ev.own && ev.order == o)
    ensures OrderComplete(o.floor) in Step(c, ev).1
    ensures DoorIsOpenAt(Step(c, ev).0.car, o.floor)
  {
    match ev
    case NewCabOrder(p) => AcceptReportsService(c, p, o);
    case Assigned(own, p, single) => if own { AcceptReportsService(c, p, o); }
    case OrderCompleted(own, f) => OwnCompletionClearsNothing(c, f);
    case FloorUpt(f) => assert OnFloorUpt(c, f).1 == [ControlOnFloorUpt(c, f).1, OrderComplete(f)];
    case _ =>
  }

  /** In the closed system every completion that is published is that of a floor with the door open. */
  lemma CompletionsAreStops(c: Ctrl, ev: Event, f: Floor)
    requires StrongInvariant(c) && Enabled(c, ev)
    requires OrderComplete(f) in Step(c, ev).1
    ensures DoorIsOpenAt(Step(c, ev).0.car, f)
  {
    ReportedWithoutStopIff(c, ev, f);
  }

  function CarRank(c: Ctrl, o: Order): nat {
    CostFunction.Rank(c.car.movement, c.car.floor, o)
  }

  lemma LeavingKeepsRank(e: ElevatorState, o: Order)
    requires o in e.orders && (OrdersHere(e) == {} || Ahead(e))
    ensures CostFunction.Rank(ChooseDirUptState(e).movement, e.floor, o) <= CostFunction.Rank(e.movement, e.floor, o)
  {
    assert o.floor == e.floor ==> o in OrdersHere(e);
  }

  lemma AcceptKeepsRank(c: Ctrl, p: Order, o: Order)
    requires StrongInvariant(c)
    requires o in c.car.orders && o in AcceptOrder(c, p).0.car.orders
    ensures CarRank(AcceptOrder(c, p).0, o) == CarRank(c, o)
  {
    if c.car.behaviour == Moving {
      MovingCarOnlyNotes(c, p);
    }
  }

  /** No event raises the rank of a waiting order, new orders included; every floor arrival lowers it. */
  lemma RankFalls(c: Ctrl, ev: Event, o: Order)
    requires StrongInvariant(c) && Enabled(c, ev)
    requires o in c.car.orders && o in Step(c, ev).0.car.orders
    ensures CarRank(Step(c, ev).0, o) <= CarRank(c, o) - (if ev.FloorUpt? then 1 else 0)
  {
    match ev
    case NewCabOrder(p) => AcceptKeepsRank(c, p, o);
    case Assigned(own, p, single) => if own { AcceptKeepsRank(c, p, o); }
    case DoorTimeout => LeavingKeepsRank(c.car, o);
    case Obstruction(b) => LeavingKeepsRank(c.car.(available := true), o);
    case _ =>
  }

  function Arrivals(evs: seq<Event>): nat {
    if evs == [] then 0 else (if evs[0].FloorUpt? then 1 else 0) + Arrivals(evs[1..])
  }

  /** The k-th event of the run removes o: it is served, or withdrawn by the obstruction timeout. */
  ghost predicate GoneAt(c: Ctrl, evs: seq<Event>, o: Order, k: int)
    requires WeakInvariant(c.car)
  {
    && 0 < k <= |evs|
    && o in Run(c, evs)[k - 1].car.orders && o !in Run(c, evs)[k].car.orders
    && (DoorIsOpenAt(Run(c, evs)[k].car, o.floor) || (evs[k - 1] == ObstructTimeout && o.btn != CAB))
  }

  lemma WaitingHasRank(c: Ctrl, o: Order)
    requires StrongInvariant(c) && o in c.car.orders
    ensures CarRank(c, o) >= 1
  {
    assert o.floor == c.car.floor ==> o in OrdersHere(c.car);
  }

  lemma GoneAtOnce(c: Ctrl, evs: seq<Event>, o: Order)
    requires StrongInvariant(c) && evs != [] && Enabled(c, evs[0])
    requires o in c.car.orders && o !in Step(c, evs[0]).0.car.orders
    ensures GoneAt(c, evs, o, 1) && Arrivals(evs[..1]) <= 1
  {
    OrderLeaves(c, evs[0], o);
    assert evs[..1][1..] == [];
  }

  lemma GoneLater(c: Ctrl, evs: seq<Event>, o: Order, k: nat)
    requires WeakInvariant(c.car) && evs != [] && WeakInvariant(Step(c, evs[0]).0.car)
    requires GoneAt(Step(c, evs[0]).0, evs[1..], o, k)
    ensures GoneAt(c, evs, o, k + 1)
    ensures Arrivals(evs[..k + 1]) == (if evs[0].FloorUpt? then 1 else 0) + Arrivals(evs[1..][..k])
  {
    RunTail(c, evs);
    assert evs[..k + 1][1..] == evs[1..][..k];
  }

  lemma {:induction false} GoneWithinRank(c: Ctrl, evs: seq<Event>, o: Order) returns (k: nat)
    requires StrongInvariant(c) && ClosedRun(c, evs)
    requires o in c.car.orders && CarRank(c, o) <= Arrivals(evs)
    ensures GoneAt(c, evs, o, k) && Arrivals(evs[..k]) <= CarRank(c, o)
    decreases |evs|
  {
    WaitingHasRank(c, o);
    RunTail(c, evs);
    var d := Step(c, evs[0]).0;
    StepKeepsStrongInvariant(c, evs[0]);
    if o in d.car.orders {
      RankFalls(c, evs[0], o);
      k := GoneWithinRank(d, evs[1..], o);
      GoneLater(c, evs, o, k);
      k := k + 1;
    } else {
      GoneAtOnce(c, evs, o);
      k := 1;
    }
  }

  /**
   Starvation freedom. Whatever orders and obstructions arrive, an accepted order is gone within
   2(N-1) floor arrivals.
   */
  lemma {:induction false} StarvationFreedom(c: Ctrl, evs: seq<Event>, o: Order)
    requires StrongInvariant(c) && ClosedRun(c, evs)
    requires o in c.car.orders && Arrivals(evs) >= 2 * (FLOOR_NUM - 1)
    ensures exists k :: GoneAt(c, evs, o, k) && Arrivals(evs[..k]) <= 2 * (FLOOR_NUM - 1)
  {
    CostFunction.RankBound(c.car.movement, c.car.floor, o);
    var k := GoneWithinRank(c, evs, o);
  }
}
