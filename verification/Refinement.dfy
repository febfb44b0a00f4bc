/**
 The controller of elevator/controller.go, left without further orders, drives the trajectory that
 elevator/controller_costFunction.go simulates: the same floors, the same stops, the same orders
 cleared at each, whatever obstructions, completions and late door timeouts come in between.
 */
module Refinement {
  import opened Settings
  import opened Requests
  import opened CostFunction
  import opened ControllerEvents
  import opened ClosedSystem

  /** An event that neither brings the car an order nor withdraws one. */
  predicate Quiet(ev: Event) {
    !ev.NewCabOrder? && !(ev.Assigned? && ev.own) && !ev.ObstructTimeout?
  }

  /** What an arrival was, told from the controller's state before and after. */
  function Observed(c: Ctrl, d: Ctrl): Visit {
    Visit(d.car.floor, d.car.behaviour == DoorOpen, c.car.orders - d.car.orders)
  }

  /** What is observed at the floor updates of a run. */
  ghost function Visits(c: Ctrl, evs: seq<Event>): (vs: seq<Visit>)
    requires WeakInvariant(c.car)
    ensures |vs| == Arrivals(evs)
    decreases |evs|
  {
    if evs == [] then []
    else
      StepKeepsWeakInvariant(c, evs[0]);
      var d := Step(c, evs[0]).0;
      (if evs[0].FloorUpt? then [Observed(c, d)] else []) + Visits(d, evs[1..])
  }

  lemma NextIsAhead(c: Ctrl)
    requires StrongInvariant(c) && c.car.orders != {}
    ensures var m := ChooseDirection(c.car); m != MOVE_STOP && 0 <= c.car.floor + m < FLOOR_NUM
    ensures c.car.behaviour == Moving ==> ChooseDirection(c.car) == c.car.movement
  {
    var o :| o in c.car.orders;
    assert o.floor == c.car.floor ==> o in OrdersHere(c.car);
    ChosenDirectionHasRequestAhead(c.car);
  }

  /** The state in which the simulation sees the car's next arrival, after the door has closed. */
  function NextHead(c: Ctrl): ElevatorState
    requires StrongInvariant(c) && c.car.orders != {}
  {
    NextIsAhead(c);
    var m := ChooseDirection(c.car);
    c.car.(movement := m, floor := c.car.floor + m)
  }

  /** The next arrival is the visit that the simulation makes there, and leads to its next one. */
  lemma ArrivalIsVisit(c: Ctrl, f: Floor, o: Order)
    requires StrongInvariant(c) && Enabled(c, FloorUpt(f)) && o in c.car.orders
    ensures var h := NextHead(c);
            var d := Step(c, FloorUpt(f)).0;
            && StrongInvariant(d)
            && Observed(c, d) == VisitOf(h)
            && (o in d.car.orders <==> !Serves(h, o))
            && (!Serves(h, o) ==> SameCourse(NextHead(d), Depart(h, o)))
  {
    NextIsAhead(c);
    StepKeepsStrongInvariant(c, FloorUpt(f));
    var h, d := NextHead(c), Step(c, FloorUpt(f)).0;
    assert h.orders - (h.orders - OrdersHere(h)) == OrdersHere(h);
    assert c.car.orders - c.car.orders == {};
    if !Serves(h, o) {
      NextIsAhead(d);
      DepartMoves(h, o);
    }
  }

  /** Every other event leaves the orders and the next arrival as they are. */
  lemma QuietEventKeepsCourse(c: Ctrl, ev: Event, o: Order)
    requires StrongInvariant(c) && Enabled(c, ev) && o in c.car.orders
    requires Quiet(ev) && !ev.FloorUpt?
    ensures var d := Step(c, ev).0;
            StrongInvariant(d) && o in d.car.orders && SameCourse(NextHead(d), NextHead(c))
  {
    StepKeepsStrongInvariant(c, ev);
    NextIsAhead(c);
    match ev
    case OrderCompleted(own, f) => OwnCompletionClearsNothing(c, f);
    case DoorTimeout => ChosenDirectionHasRequestAhead(c.car);
    case Obstruction(b) => ChosenDirectionHasRequestAhead(c.car);
    case _ =>
  }

  /** What is gone stays gone. */
  lemma QuietEventBringsNothing(c: Ctrl, ev: Event)
    requires WeakInvariant(c.car) && Quiet(ev)
    ensures Step(c, ev).0.car.orders <= c.car.orders
  {
  }

  lemma {:induction false} QuietRunBringsNothing(c: Ctrl, evs: seq<Event>)
    requires WeakInvariant(c.car) && forall ev :: ev in evs ==> Quiet(ev)
    ensures Run(c, evs)[|evs|].car.orders <= c.car.orders
    decreases |evs|
  {
    if evs != [] {
      RunTail(c, evs);
      QuietEventBringsNothing(c, evs[0]);
      QuietRunBringsNothing(Step(c, evs[0]).0, evs[1..]);
    }
  }

  /** vs and t agree as far as both go. */
  predicate Agree(vs: seq<Visit>, t: seq<Visit>) {
    forall k :: 0 <= k < |vs| && k < |t| ==> vs[k] == t[k]
  }

  lemma AgreeAfterFirst(x: Visit, vs: seq<Visit>, t: seq<Visit>)
    requires Agree(vs, t)
    ensures Agree([x] + vs, [x] + t)
  {
    forall k | 0 <= k < |[x] + vs| && k < |[x] + t| ensures ([x] + vs)[k] == ([x] + t)[k] {
      assert k > 0 ==> vs[k - 1] == t[k - 1];
    }
  }

  /** The visits of the run are those of the trajectory t, and o waits exactly until the last of them. */
  ghost predicate Realises(c: Ctrl, evs: seq<Event>, o: Order, t: seq<Visit>)
    requires WeakInvariant(c.car)
  {
    Agree(Visits(c, evs), t) && (o in Run(c, evs)[|evs|].car.orders <==> Arrivals(evs) < |t|)
  }

  lemma RealisesAfterArrival(c: Ctrl, evs: seq<Event>, o: Order, t: seq<Visit>)
    requires WeakInvariant(c.car) && evs != [] && evs[0].FloorUpt?
    requires WeakInvariant(Step(c, evs[0]).0.car) && Realises(Step(c, evs[0]).0, evs[1..], o, t)
    ensures Realises(c, evs, o, [Observed(c, Step(c, evs[0]).0)] + t)
  {
    RunTail(c, evs);
    var d := Step(c, evs[0]).0;
    AgreeAfterFirst(Observed(c, d), Visits(d, evs[1..]), t);
  }

  lemma RealisesAfterQuiet(c: Ctrl, evs: seq<Event>, o: Order, t: seq<Visit>)
    requires WeakInvariant(c.car) && evs != [] && !evs[0].FloorUpt?
    requires WeakInvariant(Step(c, evs[0]).0.car) && Realises(Step(c, evs[0]).0, evs[1..], o, t)
    ensures Realises(c, evs, o, t)
  {
    RunTail(c, evs);
  }

  /**
   The controller refines the simulation. Over every closed run without further orders, the car makes
   the visits of the simulated trajectory one by one, and o waits exactly until the last of them.
   */
  lemma {:induction false} ControllerRefinesSimulation(c: Ctrl, evs: seq<Event>, o: Order)
    requires StrongInvariant(c) && o in c.car.orders
    requires ClosedRun(c, evs) && forall ev :: ev in evs ==> Quiet(ev)
    ensures Realises(c, evs, o, Trajectory(NextHead(c), o))
    decreases |evs|
  {
    if evs != [] {
      RunTail(c, evs);
      var ev, rest, d, h := evs[0], evs[1..], Step(c, evs[0]).0, NextHead(c);
      if !ev.FloorUpt? {
        QuietEventKeepsCourse(c, ev, o);
        ControllerRefinesSimulation(d, rest, o);
        SameCourseSameTrajectory(NextHead(d), h, o);
        RealisesAfterQuiet(c, evs, o, Trajectory(h, o));
      } else {
        ArrivalIsVisit(c, ev.floor, o);
        if Serves(h, o) {
          QuietRunBringsNothing(d, rest);
          RealisesAfterArrival(c, evs, o, []);
        } else {
          ControllerRefinesSimulation(d, rest, o);
          SameCourseSameTrajectory(NextHead(d), Depart(h, o), o);
          RealisesAfterArrival(c, evs, o, Trajectory(Depart(h, o), o));
        }
      }
    }
  }

  // ---------------------------------------------------------------- from the acceptance of the order

  /** The car has to travel to o: it is between floors, or o is on another floor than the car. */
  predicate MustTravel(e: ElevatorState, o: Order) {
    e.behaviour == Moving || e.floor != o.floor
  }

  /** The visits simulated for o that the car still has to make. */
  function Predicted(state: ElevatorState, o: Order): seq<Visit>
    requires WeakInvariant(state)
  {
    if state.behaviour == Moving then Simulated(state, o) else Simulated(state, o)[1..]
  }

  lemma AcceptedIsAhead(c: Ctrl, o: Order)
    requires StrongInvariant(c) && MustTravel(c.car, o)
    ensures var a := AcceptOrder(c, o).0;
            && StrongInvariant(a) && a.car.orders == c.car.orders + {o}
            && NextHead(a).floor == c.car.floor + NextHead(a).movement
            && NextHead(a).movement == ChooseDirection(AddOrder(c.car, o))
            && NextHead(a).orders == c.car.orders + {o}
  {
    AcceptKeepsStrongInvariant(c, o);
    NextIsAhead(AcceptOrder(c, o).0);
    ChosenDirectionHasRequestAhead(AddOrder(c.car, o));
    if c.car.behaviour == Moving {
      MovingCarOnlyNotes(c, o);
    }
  }

  lemma StandingVisit(c: Ctrl, o: Order)
    requires StrongInvariant(c) && c.car.floor != o.floor && c.car.behaviour != Moving
    ensures var e := Start(AddOrder(c.car, o));
            && !Serves(e, o)
            && VisitOf(e).floor == c.car.floor && VisitOf(e).cleared == {}
            && Depart(e, o).floor == c.car.floor + Depart(e, o).movement
            && Depart(e, o).movement == ChooseDirection(AddOrder(c.car, o))
            && Depart(e, o).orders == c.car.orders + {o}
  {
    var e := Start(AddOrder(c.car, o));
    assert OrdersHere(c.car) == {};
    assert forall p :: p in OrdersHere(e) ==> p in OrdersHere(c.car);
    assert ClearHere(e) == e;
    assert o in e.orders;
    DepartMoves(e, o);
  }

  /** What was simulated when o was announced is the trajectory from the accepted order. */
  lemma {:induction false} PredictedFromAcceptance(c: Ctrl, o: Order)
    requires StrongInvariant(c) && MustTravel(c.car, o)
    ensures var a := AcceptOrder(c, o).0;
            && StrongInvariant(a) && o in a.car.orders
            && Predicted(c.car, o) == Trajectory(NextHead(a), o)
    ensures c.car.behaviour != Moving ==>
              Simulated(c.car, o)[0].floor == c.car.floor && Simulated(c.car, o)[0].cleared == {}
  {
    AcceptedIsAhead(c, o);
    var a := AcceptOrder(c, o).0;
    var e := Start(AddOrder(c.car, o));
    if c.car.behaviour == Moving {
      MovingCarOnlyNotes(c, o);
      ChosenDirectionHasRequestAhead(AddOrder(c.car, o));
      SameCourseSameTrajectory(NextHead(a), e, o);
    } else {
      StandingVisit(c, o);
      SameCourseSameTrajectory(NextHead(a), Depart(e, o), o);
    }
  }

  /**
   The prediction comes true. Over every closed run after the acceptance of o, without further orders,
   the car makes the visits that were simulated when o was announced: all of them if it was on its
   way, all but the one to the floor it stood on otherwise, where nothing is cleared. It has served o
   exactly when it has made them all.
   */
  lemma {:induction false} SimulationPredictsController(c: Ctrl, o: Order, evs: seq<Event>)
    requires StrongInvariant(c) && MustTravel(c.car, o)
    requires WeakInvariant(AcceptOrder(c, o).0.car) && ClosedRun(AcceptOrder(c, o).0, evs)
    requires forall ev :: ev in evs ==> Quiet(ev)
    ensures Realises(AcceptOrder(c, o).0, evs, o, Predicted(c.car, o))
    ensures c.car.behaviour != Moving ==>
              Simulated(c.car, o)[0].floor == c.car.floor && Simulated(c.car, o)[0].cleared == {}
  {
    PredictedFromAcceptance(c, o);
    ControllerRefinesSimulation(AcceptOrder(c, o).0, evs, o);
  }

  // ---------------------------------------------------------------- an order for the floor of a standing car

  /** An idle car on the floor of the order opens its door at once, and the cost is nothing. */
  lemma ServedWhereItStands(c: Ctrl, o: Order)
    requires StrongInvariant(c) && c.car.behaviour == Idle && c.car.floor == o.floor
    ensures DoorIsOpenAt(AcceptOrder(c, o).0.car, o.floor) && AcceptOrder(c, o).0.car.orders == {}
    ensures Cost(c.car, o) == 0
  {
  }

  /**
   With the door open the order is served at once as well. The simulation knows this only if the
   order, or the lack of others, makes the floor a stop in the direction of travel.
   */
  lemma ServedAtOpenDoor(c: Ctrl, o: Order)
    requires StrongInvariant(c) && DoorStands(c.car) && c.car.floor == o.floor
    ensures DoorIsOpenAt(AcceptOrder(c, o).0.car, o.floor) && o !in AcceptOrder(c, o).0.car.orders
    ensures |Simulated(c.car, o)| == 1 <==> ShouldStop(AddOrder(c.car, o))
    ensures ShouldStop(AddOrder(c.car, o)) <==>
            || o.btn == CAB || !Ahead(c.car)
            || o.btn == (if c.car.movement == MOVE_UP then HALL_UP else HALL_DOWN)
  {
    assert forall p :: p in c.car.orders && p.floor == c.car.floor ==> p in OrdersHere(c.car);
  }

  /** A downward call on the floor where the door stands open: served at once, simulated as up and back. */
  lemma SimulationMissesOpenDoor()
    requires FLOOR_NUM >= 3
    ensures var c := Ctrl(ElevatorState(1, DoorOpen, MOVE_UP, true, {Order(2, CAB)}), true, false, false);
            var o := Order(1, HALL_DOWN);
            && StrongInvariant(c)
            && AcceptOrder(c, o).0.car.orders == {Order(2, CAB)}
            && Simulated(c.car, o)
               == [Visit(1, false, {}), Visit(2, true, {Order(2, CAB)}), Visit(1, true, {o})]
  {
    var c := Ctrl(ElevatorState(1, DoorOpen, MOVE_UP, true, {Order(2, CAB)}), true, false, false);
    var o := Order(1, HALL_DOWN);
    var e := Start(AddOrder(c.car, o));
    assert Order(2, CAB) in e.orders;
    var d := Depart(e, o);
    assert d.floor == 2 && d.orders == {Order(2, CAB), o} && OrdersHere(d) == {Order(2, CAB)};
    var b := Depart(d, o);
    assert b.floor == 1 && b.orders == {o} && OrdersHere(b) == {o};
    assert Trajectory(b, o) == [VisitOf(b)];
    assert Trajectory(d, o) == [VisitOf(d), VisitOf(b)];
    var a := AddOrder(c.car, o);
    assert ClearHere(a).orders == {Order(2, CAB)};
  }
}
