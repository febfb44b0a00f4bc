/**
 What the controller answers when an order is announced: the cost that it publishes, in numbers, and as
 the time of the visits that the car then really makes.
 */
module Answers {
  import opened Settings
  import opened Requests
  import opened CostFunction
  import opened ControllerEvents
  import opened ClosedSystem
  import opened Refinement

  /** An available car answers with the cost of the order, in every behaviour; one that is not is silent. */
  lemma AnswerInNumbers(c: Ctrl, id: int, o: Order)
    requires WeakInvariant(c.car)
    ensures var outs, t := Step(c, NewOrder(id, o)).1, Simulated(c.car, o);
            var time := Elapsed(t[..FirstClearing(t, o.btn)]);
            if !c.car.available then outs == []
            else
              match c.car.behaviour
              case Moving => outs == [CostResult(id, TRAVEL_TIME / 2 + time, o)]
              case DoorOpen => outs == [CostResult(id, time - DOOR_OPEN_TIME / 2, o)]
              case Obstructed => outs == [CostResult(id, time, o)]
              case Idle =>
                outs == [CostResult(id, if Above(AddOrder(c.car, o)) || Below(AddOrder(c.car, o)) then time else 0, o)]
    ensures Step(c, NewOrder(id, o)).0 == c
  {
  }

  /**
   The time from the announcement to the car's next arrival, as the simulation counts it: a standing car
   waits for its door again when it has to turn round.
   */
  function TimeToNextArrival(e: ElevatorState): int {
    match e.behaviour
    case Moving => TRAVEL_TIME / 2
    case Idle => TRAVEL_TIME
    case Obstructed => TRAVEL_TIME + if Ahead(e) then 0 else DOOR_OPEN_TIME
    case DoorOpen => TRAVEL_TIME - DOOR_OPEN_TIME / 2 + if Ahead(e) then 0 else DOOR_OPEN_TIME
  }

  /** cost is the time from the announcement to the first of the visits vs that clears an order of type b. */
  predicate IsTimeOf(cost: int, e: ElevatorState, b: OrderType, vs: seq<Visit>) {
    var k := FirstClearing(vs, b);
    k < |vs| && Clears(vs[k], b) && cost == TimeToNextArrival(e) + Elapsed(vs[..k])
  }

  lemma {:induction false} FirstClearingOfLonger(t: seq<Visit>, vs: seq<Visit>, b: OrderType)
    requires |t| <= |vs| && Agree(vs, t) && FirstClearing(t, b) < |t|
    ensures FirstClearing(vs, b) == FirstClearing(t, b)
    ensures vs[..FirstClearing(t, b)] == t[..FirstClearing(t, b)]
  {
    var k := FirstClearing(t, b);
    assert vs[k] == t[k] && Clears(vs[k], b);
    assert forall j :: 0 <= j < k ==> vs[j] == t[j] && !Clears(vs[j], b);
  }

  lemma {:induction false} FirstClearingAfterIdle(v: Visit, t: seq<Visit>, b: OrderType)
    requires v.cleared == {}
    ensures FirstClearing([v] + t, b) == 1 + FirstClearing(t, b)
    ensures Elapsed(([v] + t)[..1 + FirstClearing(t, b)])
            == TRAVEL_TIME + (if v.stopped then DOOR_OPEN_TIME else 0) + Elapsed(t[..FirstClearing(t, b)])
  {
    var k := FirstClearing(t, b);
    assert ([v] + t)[1..] == t && !Clears(v, b);
    assert ([v] + t)[..1 + k] == [v] + t[..k];
    ElapsedStep(v, t[..k]);
  }

  /** A standing car's first simulated visit is to its own floor: a stop if nothing is ahead. */
  lemma StandingStart(c: Ctrl, o: Order)
    requires StrongInvariant(c) && c.car.behaviour != Moving && c.car.floor != o.floor
    ensures var e, t := AddOrder(c.car, o), Simulated(c.car, o);
            && !ServedAtOnce(e)
            && t != [] && t[0].cleared == {}
            && (t[0].stopped <==> c.car.behaviour != Idle && !Ahead(e))
  {
    StandingVisit(c, o);
    var e := AddOrder(c.car, o);
    assert Above(e) || Below(e) by { assert o in e.orders; }
    ChosenDirectionHasRequestAhead(e);
    assert OrdersHere(e) == {} by { assert forall p :: p in OrdersHere(e) ==> p in OrdersHere(c.car); }
    assert forall b: OrderType :: Order(e.floor, b) in e.orders ==> Order(e.floor, b) in OrdersHere(e);
  }

  /** The cost of an order that the car has to travel for, from its next arrival on. */
  lemma CostFromNextArrival(c: Ctrl, o: Order)
    requires StrongInvariant(c) && MustTravel(c.car, o)
    ensures var p := Predicted(c.car, o);
            && FirstClearing(p, o.btn) < |p|
            && Cost(c.car, o) == TimeToNextArrival(AddOrder(c.car, o)) + Elapsed(p[..FirstClearing(p, o.btn)])
  {
    PredictedFromAcceptance(c, o);
    FirstClearingExists(NextHead(AcceptOrder(c, o).0), o);
    var e, t := AddOrder(c.car, o), Simulated(c.car, o);
    if c.car.behaviour != Moving {
      StandingStart(c, o);
      assert t == [t[0]] + t[1..];
      FirstClearingAfterIdle(t[0], t[1..], o.btn);
    }
  }

  /** A run after the acceptance makes every visit that was simulated for the order, once it has served it. */
  lemma ServedRunCoversPrediction(c: Ctrl, o: Order, evs: seq<Event>)
    requires StrongInvariant(c) && MustTravel(c.car, o)
    requires WeakInvariant(AcceptOrder(c, o).0.car) && ClosedRun(AcceptOrder(c, o).0, evs)
    requires forall ev :: ev in evs ==> Quiet(ev)
    requires o !in Run(AcceptOrder(c, o).0, evs)[|evs|].car.orders
    ensures var p, vs := Predicted(c.car, o), Visits(AcceptOrder(c, o).0, evs);
            |p| <= |vs| && Agree(vs, p)
  {
    SimulationPredictsController(c, o, evs);
  }

  lemma TimeOfVisits(c: Ctrl, o: Order, vs: seq<Visit>)
    requires StrongInvariant(c) && MustTravel(c.car, o)
    requires |Predicted(c.car, o)| <= |vs| && Agree(vs, Predicted(c.car, o))
    ensures IsTimeOf(Cost(c.car, o), AddOrder(c.car, o), o.btn, vs)
  {
    CostFromNextArrival(c, o);
    FirstClearingOfLonger(Predicted(c.car, o), vs, o.btn);
  }

  lemma AnswerIsCost(c: Ctrl, id: int, o: Order)
    requires WeakInvariant(c.car) && c.car.available
    ensures Step(c, NewOrder(id, o)).1 == [CostResult(id, Cost(c.car, o), o)]
  {
  }

  /**
   The answer comes true. The cost that an available car publishes for an order it must travel for is the
   time to its next arrival and of the visits that it really makes, once it has accepted the order and is
   left without others, until it first clears an order of the type.
   */
  lemma {:induction false} AnswerComesTrue(c: Ctrl, id: int, o: Order, evs: seq<Event>) returns (cost: int)
    requires StrongInvariant(c) && c.car.available && MustTravel(c.car, o)
    requires WeakInvariant(AcceptOrder(c, o).0.car) && ClosedRun(AcceptOrder(c, o).0, evs)
    requires forall ev :: ev in evs ==> Quiet(ev)
    requires o !in Run(AcceptOrder(c, o).0, evs)[|evs|].car.orders
    ensures Step(c, NewOrder(id, o)).1 == [CostResult(id, cost, o)]
    ensures IsTimeOf(cost, AddOrder(c.car, o), o.btn, Visits(AcceptOrder(c, o).0, evs))
  {
    cost := Cost(c.car, o);
    AnswerIsCost(c, id, o);
    ServedRunCoversPrediction(c, o, evs);
    TimeOfVisits(c, o, Visits(AcceptOrder(c, o).0, evs));
  }
}
