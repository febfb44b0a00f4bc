/**
 The elevator state and the request policy of elevator/controller_costFunction.go:
 keep going while something is requested ahead, and stop for the cab, for the hall
 button of the travel direction, or when nothing is left ahead.
 */
module Requests {
  import opened Settings

  type Movement = m: int | -1 <= m <= 1

  const MOVE_DOWN: Movement := -1
  const MOVE_STOP: Movement := 0
  const MOVE_UP: Movement := 1

  datatype Behaviour = Idle | DoorOpen | Moving | Obstructed

  /** The matrix ActiveOrders is the set of its cells that hold 1. */
  datatype ElevatorState = ElevatorState(
    floor: Floor, behaviour: Behaviour, movement: Movement, available: bool, orders: set<Order>)

  predicate AnyAbove(s: set<Order>, f: Floor) {
    exists o :: o in s && o.floor > f
  }

  predicate AnyBelow(s: set<Order>, f: Floor) {
    exists o :: o in s && o.floor < f
  }

  predicate Above(e: ElevatorState) {
    AnyAbove(e.orders, e.floor)
  }

  predicate Below(e: ElevatorState) {
    AnyBelow(e.orders, e.floor)
  }

  /** Something is requested strictly ahead in the direction of travel. */
  predicate Ahead(e: ElevatorState) {
    if e.movement == MOVE_UP then Above(e) else e.movement == MOVE_DOWN && Below(e)
  }

  predicate ShouldStop(e: ElevatorState) {
    if e.movement == MOVE_DOWN then
      Order(e.floor, HALL_DOWN) in e.orders || Order(e.floor, CAB) in e.orders || !Below(e)
    else if e.movement == MOVE_UP then
      Order(e.floor, HALL_UP) in e.orders || Order(e.floor, CAB) in e.orders || !Above(e)
    else
      true
  }

  function ChooseDirection(e: ElevatorState): Movement {
    if e.movement == MOVE_UP then
      if Above(e) then MOVE_UP else if Below(e) then MOVE_DOWN else MOVE_STOP
    else
      if Below(e) then MOVE_DOWN else if Above(e) then MOVE_UP else MOVE_STOP
  }

  function OrdersHere(e: ElevatorState): set<Order> {
    set o | o in e.orders && o.floor == e.floor
  }

  function ClearHere(e: ElevatorState): ElevatorState {
    e.(orders := e.orders - OrdersHere(e))
  }

  function AddOrder(e: ElevatorState, o: Order): ElevatorState {
    e.(orders := e.orders + {o})
  }

  /** What every event keeps: a moving car has a direction and does not leave the shaft. */
  predicate WeakInvariant(e: ElevatorState) {
    && (e.behaviour == Idle ==> e.movement == MOVE_STOP)
    && (e.behaviour == Moving ==> e.movement != MOVE_STOP && 0 <= e.floor + e.movement < FLOOR_NUM)
  }

  /** The direction that is chosen always has a request ahead; it reverses only when the old one has none. */
  lemma ChosenDirectionHasRequestAhead(e: ElevatorState)
    ensures var m := ChooseDirection(e);
            && (m != MOVE_STOP <==> Above(e) || Below(e))
            && (m != MOVE_STOP ==> Ahead(e.(movement := m)))
            && (Ahead(e) <==> m == e.movement != MOVE_STOP)
  {
  }

  method RequestsAbove(e: ElevatorState) returns (r: bool)
    ensures r == Above(e)
  {
    var f: int := e.floor + 1;
    while f < FLOOR_NUM
      invariant e.floor < f <= FLOOR_NUM
      invariant forall o :: o in e.orders ==> !(e.floor < o.floor < f)
    {
      var btn := 0;
      while btn < ORDER_TYPE_NUM
        invariant 0 <= btn <= ORDER_TYPE_NUM
        invariant forall o :: o in e.orders && o.floor == f ==> o.btn >= btn
      {
        if Order(f, btn) in e.orders {
          return true;
        }
        btn := btn + 1;
      }
      f := f + 1;
    }
    return false;
  }

  method RequestsBelow(e: ElevatorState) returns (r: bool)
    ensures r == Below(e)
  {
    var f: int := 0;
    while f < e.floor
      invariant 0 <= f <= e.floor
      invariant forall o :: o in e.orders ==> o.floor >= f
    {
      var btn := 0;
      while btn < ORDER_TYPE_NUM
        invariant 0 <= btn <= ORDER_TYPE_NUM
        invariant forall o :: o in e.orders && o.floor == f ==> o.btn >= btn
      {
        if Order(f, btn) in e.orders {
          return true;
        }
        btn := btn + 1;
      }
      f := f + 1;
    }
    return false;
  }

  method RequestsShouldStop(e: ElevatorState) returns (stop: bool)
    ensures stop == ShouldStop(e)
  {
    stop := true;
    if e.movement == MOVE_DOWN {
      if Order(e.floor, HALL_DOWN) !in e.orders && Order(e.floor, CAB) !in e.orders {
        var below := RequestsBelow(e);
        stop := !below;
      }
    } else if e.movement == MOVE_UP {
      if Order(e.floor, HALL_UP) !in e.orders && Order(e.floor, CAB) !in e.orders {
        var above := RequestsAbove(e);
        stop := !above;
      }
    }
  }

  method RequestsChooseDirection(e: ElevatorState) returns (m: Movement)
    ensures m == ChooseDirection(e)
  {
    m := MOVE_STOP;
    var above := RequestsAbove(e);
    var below := RequestsBelow(e);
    if e.movement == MOVE_UP {
      if above {
        m := MOVE_UP;
      } else if below {
        m := MOVE_DOWN;
      }
    } else {
      if below {
        m := MOVE_DOWN;
      } else if above {
        m := MOVE_UP;
      }
    }
  }

  /**
   Clears the current floor button by button and calls back for each. As in the source,
   the callback gets the parameter floor, not the floor of the car.
   */
  method RequestClearAtCurrentFloor(e_old: ElevatorState, onClearedOrder: (OrderType, Floor) -> bool, floor: Floor)
    returns (e: ElevatorState, arrived: bool)
    ensures e == ClearHere(e_old)
    ensures arrived == exists o :: o in OrdersHere(e_old) && onClearedOrder(o.btn, floor)
  {
    e := e_old;
    arrived := false;
    var btn := 0;
    while btn < ORDER_TYPE_NUM
      invariant 0 <= btn <= ORDER_TYPE_NUM
      invariant e == e_old.(orders := e.orders)
      invariant forall o :: o in e.orders <==> o in e_old.orders && (o.floor == e.floor ==> o.btn >= btn)
      invariant arrived == exists o :: o in OrdersHere(e_old) && o.btn < btn && onClearedOrder(o.btn, floor)
    {
      if Order(e.floor, btn) in e.orders {
        assert Order(e.floor, btn) in OrdersHere(e_old);
        e := e.(orders := e.orders - {Order(e.floor, btn)});
        if onClearedOrder(btn, floor) {
          arrived := true;
        }
      }
      btn := btn + 1;
    }
    assert e.orders == ClearHere(e_old).orders;
  }
}
