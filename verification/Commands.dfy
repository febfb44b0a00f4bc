/**
 What the controller of elevator/controller.go tells the rest of the elevator: the commands to the
 driver, the button lamps, its availability, and the timers it sets.
 */
module Commands {
  import opened Settings
  import opened Requests
  import opened ControllerEvents
  import opened ClosedSystem

  // ---------------------------------------------------------------- the driver shows the car

  /** The door lamp and the motor as the state of the car has them. */
  function DriverOf(e: ElevatorState): Driver {
    Driver(e.floor, DoorStands(e), if e.behaviour == Moving then e.movement else MOVE_STOP)
  }

  predicate ShowsCar(outs: seq<Output>, e: ElevatorState) {
    forall x :: x in outs && x.Control? ==> SetElevatorControl(x) == DriverOf(e)
  }

  predicate HasCommand(outs: seq<Output>) {
    exists x :: x in outs && x.Control?
  }

  lemma AcceptShowsCar(c: Ctrl, o: Order)
    requires StrongInvariant(c)
    ensures var (d, outs) := AcceptOrder(c, o);
            ShowsCar(outs, d.car) && (DriverOf(d.car) != DriverOf(c.car) ==> HasCommand(outs))
  {
    AcceptKeepsStrongInvariant(c, o);
    if c.car.behaviour == Moving {
      MovingCarOnlyNotes(c, o);
    } else {
      var outs := AcceptOrder(c, o).1;
      assert c.car.behaviour == Idle ==> outs[0] in outs && outs[0].Control?;
    }
  }

  /** Every command shows the car as it is then, and every change that the driver must see is commanded. */
  lemma StepShowsCar(c: Ctrl, ev: Event)
    requires StrongInvariant(c) && Enabled(c, ev)
    ensures var (d, outs) := Step(c, ev);
            ShowsCar(outs, d.car) && (DriverOf(d.car) != DriverOf(c.car) ==> HasCommand(outs))
  {
    StepKeepsStrongInvariant(c, ev);
    match ev
    case NewCabOrder(o) =>
      AcceptShowsCar(c, o);
      assert forall x :: x in AcceptOrder(c, o).1 ==> x in Step(c, ev).1;
    case Assigned(own, o, single) =>
      AcceptShowsCar(c, o);
      assert own ==> forall x :: x in AcceptOrder(c, o).1 ==> x in Step(c, ev).1;
    case FloorUpt(f) => assert Step(c, ev).1[0].Control?;
    case DoorTimeout => assert Step(c, ev).1[0].Control?;
    case Obstruction(b) =>
      var outs := Step(c, ev).1;
      assert outs != [] ==> outs[|outs| - 1].Control?;
    case _ =>
  }

  lemma {:induction false} DriveToLast(d: Driver, outs: seq<Output>, e: ElevatorState)
    requires ShowsCar(outs, e)
    ensures Drive(d, outs) == if HasCommand(outs) then DriverOf(e) else d
    decreases |outs|
  {
    if outs != [] {
      var x, rest := outs[0], outs[1..];
      assert x in outs && forall y :: y in rest ==> y in outs;
      assert forall y :: y in outs ==> y == x || y in rest;
      DriveToLast(if x.Control? then SetElevatorControl(x) else d, rest, e);
    }
  }

  lemma {:induction false} DriveConcat(d: Driver, a: seq<Output>, b: seq<Output>)
    ensures Drive(d, a + b) == Drive(Drive(d, a), b)
    decreases |a|
  {
    if a == [] {
      assert a + b == b;
    } else {
      assert (a + b)[1..] == a[1..] + b;
      DriveConcat(if a[0].Control? then SetElevatorControl(a[0]) else d, a[1..], b);
    }
  }

  /** All that a run publishes, in order. */
  ghost function Outputs(c: Ctrl, evs: seq<Event>): seq<Output>
    requires WeakInvariant(c.car)
    decreases |evs|
  {
    if evs == [] then []
    else
      StepKeepsWeakInvariant(c, evs[0]);
      Step(c, evs[0]).1 + Outputs(Step(c, evs[0]).0, evs[1..])
  }

  lemma {:induction false} OutputsTail(c: Ctrl, evs: seq<Event>)
    requires WeakInvariant(c.car) && evs != []
    ensures var (d, outs) := Step(c, evs[0]);
            && WeakInvariant(d.car)
            && Outputs(c, evs) == outs + Outputs(d, evs[1..])
            && Run(c, evs)[|evs|] == Run(d, evs[1..])[|evs| - 1]
  {
    RunTail(c, evs);
  }

  /**
   The driver shows the car. When the commands of a closed run are handled in order, floor indicator,
   door lamp and motor are what the state of the car says.
   */
  lemma {:induction false} DriverShowsCar(c: Ctrl, evs: seq<Event>)
    requires StrongInvariant(c) && ClosedRun(c, evs)
    ensures Drive(DriverOf(c.car), Outputs(c, evs)) == DriverOf(Run(c, evs)[|evs|].car)
    decreases |evs|
  {
    if evs != [] {
      RunTail(c, evs);
      OutputsTail(c, evs);
      var (d, outs) := Step(c, evs[0]);
      StepKeepsStrongInvariant(c, evs[0]);
      StepShowsCar(c, evs[0]);
      DriveToLast(DriverOf(c.car), outs, d.car);
      DriveConcat(DriverOf(c.car), outs, Outputs(d, evs[1..]));
      DriverShowsCar(d, evs[1..]);
    }
  }

  /** The motor stops at the ends of the shaft, whatever the state: no floor update leaves it running there. */
  lemma ShaftEndsStopMotor(c: Ctrl, f: Floor, d: Driver)
    requires f == 0 || f == FLOOR_NUM - 1
    ensures Drive(d, OnFloorUpt(c, f).1).motor == MOVE_STOP
  {
    var outs := OnFloorUpt(c, f).1;
    assert |outs| == 2 && outs[0].Control? && outs[0].movement == MOVE_STOP && outs[1] == OrderComplete(f);
    var e := SetElevatorControl(outs[0]);
    assert Drive(d, outs) == Drive(e, outs[1..]) && Drive(e, outs[1..]) == Drive(e, outs[1..][1..]);
    assert outs[1..][1..] == [];
  }

  // ---------------------------------------------------------------- the button lamps

  /** SetButtonLamp and TurnOffButtonLamps of elevator/driver.go, on the set of the lamps that are lit. */
  function PanelAfter(lit: set<Order>, x: Output): set<Order> {
    match x
    case LampOn(o) => lit + {o}
    case LampsOff(f, all) => set o | o in lit && !(o.floor == f && (all || o.btn != CAB))
    case _ => lit
  }

  function Panel(lit: set<Order>, outs: seq<Output>): set<Order>
    decreases |outs|
  {
    if outs == [] then lit else Panel(PanelAfter(lit, outs[0]), outs[1..])
  }

  predicate PutsOut(x: Output, o: Order) {
    x.LampsOff? && x.floor == o.floor && (x.allButtons || o.btn != CAB)
  }

  lemma {:induction false} PanelKeeps(lit: set<Order>, outs: seq<Output>, o: Order)
    requires forall x :: x in outs ==> !PutsOut(x, o)
    ensures o in Panel(lit, outs) <==> o in lit || LampOn(o) in outs
    decreases |outs|
  {
    if outs != [] {
      assert outs[0] in outs && forall y :: y in outs[1..] ==> y in outs;
      assert forall y :: y in outs ==> y == outs[0] || y in outs[1..];
      PanelKeeps(PanelAfter(lit, outs[0]), outs[1..], o);
    }
  }

  lemma {:induction false} PanelConcat(lit: set<Order>, a: seq<Output>, b: seq<Output>)
    ensures Panel(lit, a + b) == Panel(Panel(lit, a), b)
    decreases |a|
  {
    if a == [] {
      assert a + b == b;
    } else {
      assert (a + b)[1..] == a[1..] + b;
      PanelConcat(PanelAfter(lit, a[0]), a[1..], b);
    }
  }

  lemma AcceptSparesWaiting(c: Ctrl, p: Order, o: Order)
    requires StrongInvariant(c) && o in AcceptOrder(c, p).0.car.orders
    ensures forall x :: x in AcceptOrder(c, p).1 ==> !PutsOut(x, o)
    ensures o in c.car.orders || o == p
  {
    AcceptAddsOrServes(c, p);
    if c.car.behaviour == Moving {
      MovingCarOnlyNotes(c, p);
    } else if p.floor == c.car.floor {
      assert o.floor != c.car.floor by { assert o in c.car.orders + {p}; }
    }
  }

  lemma AcceptedStaysLit(c: Ctrl, p: Order, o: Order, lit: set<Order>, outs: seq<Output>)
    requires StrongInvariant(c) && o in AcceptOrder(c, p).0.car.orders
    requires forall x :: x in outs ==> x == LampOn(p) || x in AcceptOrder(c, p).1
    requires o in c.car.orders ==> o in lit
    requires o == p && o !in c.car.orders ==> LampOn(p) in outs
    ensures o in Panel(lit, outs)
  {
    AcceptSparesWaiting(c, p, o);
    PanelKeeps(lit, outs, o);
  }

  /** No event puts out the lamp of an order that still waits, and one that is new is lit, except in single mode. */
  lemma WaitingStaysLit(c: Ctrl, ev: Event, lit: set<Order>, o: Order)
    requires StrongInvariant(c) && Enabled(c, ev) && ev != Assigned(true, o, true)
    requires o in c.car.orders ==> o in lit
    requires o in Step(c, ev).0.car.orders
    ensures o in Panel(lit, Step(c, ev).1)
  {
    var outs := Step(c, ev).1;
    match ev
    case NewCabOrder(p) =>
      assert outs == AcceptOrder(c, p).1 + [LampOn(p)];
      AcceptedStaysLit(c, p, o, lit, outs);
    case Assigned(own, p, single) =>
      if own {
        assert outs == (if single then [] else [LampOn(p)]) + AcceptOrder(c, p).1;
        AcceptedStaysLit(c, p, o, lit, outs);
      } else {
        PanelKeeps(lit, outs, o);
      }
    case OrderCompleted(own, f) =>
      OwnCompletionClearsNothing(c, f);
      assert o.floor == f ==> o in OrdersHere(c.car);
      PanelKeeps(lit, outs, o);
    case Obstruction(b) =>
      if c.car.behaviour == Obstructed { LeavingIsStrong(c.car.(available := true)); }
      PanelKeeps(lit, outs, o);
    case _ =>
      PanelKeeps(lit, outs, o);
  }

  /**
   The lamp of a waiting order stays lit. Over every closed run, an order that waits at the end has its
   lamp lit, if it had at the start in case it waited then, and if it was not accepted in single mode.
   */
  lemma {:induction false} WaitingOrdersAreLit(c: Ctrl, evs: seq<Event>, lit: set<Order>, o: Order)
    requires StrongInvariant(c) && ClosedRun(c, evs)
    requires o in c.car.orders ==> o in lit
    requires forall ev :: ev in evs ==> ev != Assigned(true, o, true)
    requires o in Run(c, evs)[|evs|].car.orders
    ensures o in Panel(lit, Outputs(c, evs))
    decreases |evs|
  {
    if evs != [] {
      RunTail(c, evs);
      OutputsTail(c, evs);
      var (d, outs) := Step(c, evs[0]);
      StepKeepsStrongInvariant(c, evs[0]);
      assert evs[0] in evs && forall ev :: ev in evs[1..] ==> ev in evs;
      if o in d.car.orders { WaitingStaysLit(c, evs[0], lit, o); }
      PanelConcat(lit, outs, Outputs(d, evs[1..]));
      WaitingOrdersAreLit(d, evs[1..], Panel(lit, outs), o);
    }
  }

  /** A completion puts out the lamps of its floor: all of them if it is the car's own, else the hall lamps. */
  lemma CompletionPutsOut(c: Ctrl, own: bool, f: Floor, lit: set<Order>)
    ensures forall o :: o in Panel(lit, OnOrderCompleted(c, own, f).1) <==>
                        o in lit && !(o.floor == f && (own || o.btn != CAB))
  {
    var outs := OnOrderCompleted(c, own, f).1;
    assert outs[1..] == [];
  }

  /** Another elevator's assignment lights the hall lamp here too, unless the elevator is alone. */
  lemma AssignmentLights(c: Ctrl, o: Order, single: bool, lit: set<Order>)
    ensures Panel(lit, OnAssigned(c, false, o, single).1) == if single then lit else lit + {o}
    ensures OnAssigned(c, false, o, single).0 == c
  {
    var outs := OnAssigned(c, false, o, single).1;
    assert outs != [] ==> outs[1..] == [];
  }

  /** Nothing is lit on floor f. */
  predicate Dark(lit: set<Order>, f: Floor) {
    forall o :: o in lit ==> o.floor != f
  }

  /** LampsOff as the k-th output, and no lamp lit after it, leaves the floor dark. */
  lemma {:induction false} DarkAfter(lit: set<Order>, outs: seq<Output>, f: Floor, k: int)
    requires k < |outs| && forall j :: 0 <= j < |outs| && k < j ==> !outs[j].LampOn?
    requires if k >= 0 then outs[k] == LampsOff(f, true) else Dark(lit, f)
    ensures Dark(Panel(lit, outs), f)
    decreases |outs|
  {
    if outs != [] {
      DarkAfter(PanelAfter(lit, outs[0]), outs[1..], f, k - 1);
    }
  }

  lemma AcceptPutsOutFloor(c: Ctrl, p: Order, lit: set<Order>)
    requires c.car.behaviour != Moving && p.floor == c.car.floor
    ensures Dark(Panel(lit, AcceptOrder(c, p).1), p.floor)
  {
    DarkAfter(lit, AcceptOrder(c, p).1, p.floor, if c.car.behaviour == Idle then 1 else 0);
  }

  /**
   When a standing car serves a new order at once, the lamps of its floor go out. Only the lamp of a cab
   order is lit after that, until its completion is handled.
   */
  lemma ServedLampsGoOut(c: Ctrl, p: Order, single: bool, lit: set<Order>)
    requires c.car.behaviour != Moving && p.floor == c.car.floor
    ensures Dark(Panel(lit, OnAssigned(c, true, p, single).1), p.floor)
    ensures Dark(Panel(lit, OnNewCabOrder(c, p).1) - {p}, p.floor)
  {
    var lamp := if single then [] else [LampOn(p)];
    AcceptPutsOutFloor(c, p, Panel(lit, lamp));
    PanelConcat(lit, lamp, AcceptOrder(c, p).1);
    AcceptPutsOutFloor(c, p, lit);
    PanelConcat(lit, AcceptOrder(c, p).1, [LampOn(p)]);
    assert [LampOn(p)][1..] == [];
  }

  /** They also go out when a freed car has nothing left to do. */
  lemma FreedLampsGoOut(c: Ctrl, lit: set<Order>)
    requires c.car.behaviour == Obstructed && c.car.orders == {}
    ensures Dark(Panel(lit, OnObstruction(c, false).1), c.car.floor)
  {
    DarkAfter(lit, OnObstruction(c, false).1, c.car.floor, if c.car.available then 0 else 1);
  }

  // ---------------------------------------------------------------- availability

  /** The availability that is known after outs, if it was b before. */
  function Known(b: bool, outs: seq<Output>): bool
    decreases |outs|
  {
    if outs == [] then b else Known(if outs[0].Availability? then outs[0].available else b, outs[1..])
  }

  lemma {:induction false} KnownOtherwise(b: bool, outs: seq<Output>)
    requires forall x :: x in outs ==> !x.Availability?
    ensures Known(b, outs) == b
    decreases |outs|
  {
    if outs != [] {
      assert outs[0] in outs && forall y :: y in outs[1..] ==> y in outs;
      KnownOtherwise(b, outs[1..]);
    }
  }

  lemma AcceptIsSilent(c: Ctrl, o: Order)
    ensures forall x :: x in AcceptOrder(c, o).1 ==> !x.Availability?
    ensures AcceptOrder(c, o).0.car.available == c.car.available
  {
    var a := c.(car := AddOrder(c.car, o));
    ControlServes(a, o.floor);
    ControlServes(a.(car := ChooseDirUptState(a.car)), o.floor);
  }

  /** Every change of availability is published, and nothing that is not true, over any events whatever. */
  lemma {:induction false} AvailabilityIsKnown(c: Ctrl, ev: Event)
    requires WeakInvariant(c.car)
    ensures Known(c.car.available, Step(c, ev).1) == Step(c, ev).0.car.available
  {
    var outs := Step(c, ev).1;
    var published := outs != [] && outs[0].Availability?;
    if ev.NewCabOrder? || ev.Assigned? { AcceptIsSilent(c, ev.order); }
    if published {
      KnownOtherwise(outs[0].available, outs[1..]);
    } else {
      KnownOtherwise(c.car.available, outs);
    }
  }

  lemma {:induction false} KnownConcat(b: bool, xs: seq<Output>, ys: seq<Output>)
    ensures Known(b, xs + ys) == Known(Known(b, xs), ys)
    decreases |xs|
  {
    if xs == [] {
      assert xs + ys == ys;
    } else {
      assert (xs + ys)[1..] == xs[1..] + ys;
      KnownConcat(if xs[0].Availability? then xs[0].available else b, xs[1..], ys);
    }
  }

  /** Over every run of every event, the other nodes know from what is published whether the car is available. */
  lemma {:induction false} AvailabilityStaysKnown(c: Ctrl, evs: seq<Event>)
    requires WeakInvariant(c.car)
    ensures Known(c.car.available, Outputs(c, evs)) == Run(c, evs)[|evs|].car.available
    decreases |evs|
  {
    if evs != [] {
      OutputsTail(c, evs);
      var (d, outs) := Step(c, evs[0]);
      AvailabilityIsKnown(c, evs[0]);
      KnownConcat(c.car.available, outs, Outputs(d, evs[1..]));
      AvailabilityStaysKnown(d, evs[1..]);
    }
  }

  /** A car that is out of service gives up exactly its hall orders, and says so before anything else. */
  lemma GivesUpHallOrders(c: Ctrl, ev: Event)
    requires WeakInvariant(c.car) && (ev == ObstructTimeout || ev == MotorStop)
    ensures var (d, outs) := Step(c, ev);
            && outs != [] && outs[0] == Availability(false) && !d.car.available
            && forall o :: o in d.car.orders <==> o in c.car.orders && o.btn == CAB
  {
  }

  /** A stalled car is driven on in its direction, a standing one away from the lowest floor or down. */
  lemma MotorRetries(c: Ctrl)
    requires WeakInvariant(c.car)
    ensures exists m: Movement ::
              && OnMotorStop(c).1 == [Availability(false), Control(c.car.floor, Moving, m)] && m != MOVE_STOP
              && (c.car.movement != MOVE_STOP ==> m == c.car.movement)
              && (c.car.behaviour == Moving || c.car.movement == MOVE_STOP ==> 0 <= c.car.floor + m < FLOOR_NUM)
              && (c.car.movement == MOVE_STOP ==> (m == MOVE_UP <==> c.car.floor == 0))
  {
    var m := RetryDirection(c.car);
    assert OnMotorStop(c).1 == [Availability(false), Control(c.car.floor, Moving, m)];
  }

  // ---------------------------------------------------------------- timers

  /** A timer that has fired is off, and the watchdog is set for available cars only, whatever the event. */
  lemma TimersAreUsedUp(c: Ctrl, ev: Event)
    requires WeakInvariant(c.car)
    ensures var d := Step(c, ev).0;
            && (ev == DoorTimeout ==> !d.doorArmed)
            && (ev == ObstructTimeout ==> !d.obstructArmed)
            && (ev == MotorStop ==> !d.travelArmed)
            && (d.travelArmed && !c.travelArmed ==> d.car.available)
  {
  }

  /** A car cannot be obstructed for good: while it is, its timer runs or its hall orders have been given up. */
  lemma {:induction false} ObstructionIsTimed(c: Ctrl, evs: seq<Event>, k: nat)
    requires StrongInvariant(c) && ClosedRun(c, evs) && k <= |evs|
    ensures var d := Run(c, evs)[k];
            d.car.behaviour == Obstructed ==> d.obstructArmed || !d.car.available
  {
    StrongInvariantHolds(c, evs);
  }
}
