/**
 ControllerModule of elevator/controller.go with its state updated in place: one method per
 event case, each proved to be the transition of ControllerEvents. Published events are returned
 in the order in which the source sends them.
 */
module Controller {
  import opened Settings
  import opened Requests
  import CostFunction
  import opened ControllerEvents

  class ControllerModule {
    var floor: Floor
    var behaviour: Behaviour
    var movement: Movement
    var available: bool
    const activeOrders: array2<int>
    var doorArmed: bool
    var obstructArmed: bool
    var travelArmed: bool

    ghost predicate HasShape() {
      activeOrders.Length0 == FLOOR_NUM && activeOrders.Length1 == ORDER_TYPE_NUM
    }

    ghost predicate Valid()
      reads this, activeOrders
    {
      HasShape() && WeakInvariant(Snapshot())
    }

    function Orders(): (s: set<Order>)
      requires HasShape()
      reads activeOrders
      ensures forall o :: o in s <==> activeOrders[o.floor, o.btn] == 1
    {
      set f: int, b: int | 0 <= f < FLOOR_NUM && 0 <= b < ORDER_TYPE_NUM && activeOrders[f, b] == 1 :: Order(f, b)
    }

    /** The by-value copy of the state that the source passes to the request functions. */
    function Snapshot(): ElevatorState
      requires HasShape()
      reads this, activeOrders
    {
      ElevatorState(floor, behaviour, movement, available, Orders())
    }

    function State(): Ctrl
      requires HasShape()
      reads this, activeOrders
    {
      Ctrl(Snapshot(), doorArmed, obstructArmed, travelArmed)
    }

    /** The state after start-up: no order but those of the cab backup, and the motor on upwards. */
    constructor (cabs: set<Floor>)
      ensures Valid() && State() == StartElevator(Initial(cabs))
      ensures fresh(activeOrders)
    {
      floor, behaviour, movement, available := 0, Moving, MOVE_UP, true;
      activeOrders := new int[FLOOR_NUM, ORDER_TYPE_NUM]((f: nat, b: nat) =>
        if b == CAB && f < FLOOR_NUM && f in cabs then 1 else 0);
      doorArmed, obstructArmed, travelArmed := false, false, false;
      new;
      assert Orders() == Initial(cabs).car.orders;
    }

    method SetOrder(o: Order)
      requires HasShape()
      modifies activeOrders
      ensures State() == old(State().(car := AddOrder(Snapshot(), o)))
    {
      activeOrders[o.floor, o.btn] := 1;
      assert Orders() == old(AddOrder(Snapshot(), o).orders);
    }

    method ClearOrderOnCurrentFloor()
      requires HasShape()
      modifies activeOrders
      ensures State() == old(State().(car := ClearHere(Snapshot())))
    {
      var i := 0;
      while i < ORDER_TYPE_NUM
        invariant 0 <= i <= ORDER_TYPE_NUM
        invariant forall f, b :: 0 <= f < FLOOR_NUM && 0 <= b < ORDER_TYPE_NUM ==>
                                   activeOrders[f, b] == if f == floor && b < i then 0 else old(activeOrders[f, b])
      {
        activeOrders[floor, i] := 0;
        i := i + 1;
      }
      assert Orders() == old(ClearHere(Snapshot()).orders);
    }

    method DeleteHallOrders()
      requires HasShape()
      modifies activeOrders
      ensures State() == old(State().(car := Snapshot().(orders := WithoutHallOrders(Orders()))))
    {
      var f := 0;
      while f < FLOOR_NUM
        invariant 0 <= f <= FLOOR_NUM
        invariant forall g, b :: 0 <= g < FLOOR_NUM && 0 <= b < ORDER_TYPE_NUM ==>
                                   activeOrders[g, b] == if g < f && b < CAB then 0 else old(activeOrders[g, b])
      {
        var t := 0;
        while t < ORDER_TYPE_NUM - 1
          invariant 0 <= t <= ORDER_TYPE_NUM - 1
          invariant forall g, b :: 0 <= g < FLOOR_NUM && 0 <= b < ORDER_TYPE_NUM ==>
                                     activeOrders[g, b] ==
                                     if (g < f && b < CAB) || (g == f && b < t) then 0 else old(activeOrders[g, b])
        {
          activeOrders[f, t] := 0;
          t := t + 1;
        }
        f := f + 1;
      }
      assert Orders() == old(WithoutHallOrders(Orders()));
    }

    method ChooseDirUptState()
      requires HasShape()
      modifies this`movement, this`behaviour
      ensures State() == old(State().(car := ControllerEvents.ChooseDirUptState(Snapshot())))
    {
      movement := RequestsChooseDirection(Snapshot());
      if movement == MOVE_STOP {
        behaviour := Idle;
      } else {
        behaviour := Moving;
      }
    }

    method ElevatorCtrFromOrder(request: Floor) returns (cmd: Output, lampsOff: bool)
      requires HasShape()
      modifies this, activeOrders
      ensures (State(), cmd, lampsOff) == ControlFromOrder(old(State()), request)
    {
      lampsOff := false;
      if (behaviour == DoorOpen || behaviour == Idle) && floor == request {
        behaviour := DoorOpen;
        ClearOrderOnCurrentFloor();
        cmd := Control(request, DoorOpen, MOVE_STOP);
        doorArmed := true;
        lampsOff := true;
      } else if behaviour == Idle {
        ChooseDirUptState();
        cmd := Control(floor, behaviour, movement);
      } else {
        cmd := Control(floor, behaviour, movement);
      }
    }

    method NewOrderController(o: Order) returns (outs: seq<Output>)
      requires Valid()
      modifies this, activeOrders
      ensures Valid() && var r := AcceptOrder(old(State()), o); State() == r.0 && outs == r.1
    {
      AcceptKeepsWeakInvariant(State(), o);
      SetOrder(o);
      outs := [];
      match behaviour {
        case Moving =>
          ChooseDirUptState();
          var d, lampsOff := ElevatorCtrFromOrder(o.floor);
          outs := [d];
          if lampsOff {
            outs := outs + [LampsOff(o.floor, false)];
          }
        case Idle =>
          var d, lampsOff := ElevatorCtrFromOrder(o.floor);
          outs := [d];
          if available && d.movement != MOVE_STOP {
            travelArmed := true;
          }
          if lampsOff {
            outs := outs + [LampsOff(o.floor, true), OrderComplete(o.floor)];
          }
        case Obstructed =>
          if o.floor == floor {
            ClearOrderOnCurrentFloor();
            outs := [LampsOff(o.floor, true), OrderComplete(o.floor)];
          }
        case DoorOpen =>
          if o.floor == floor {
            doorArmed := true;
            ClearOrderOnCurrentFloor();
            outs := [LampsOff(o.floor, true), OrderComplete(o.floor)];
          }
      }
    }

    method ElevatorControlOnFloorUpt(newFloor: Floor) returns (cmd: Output)
      requires HasShape()
      modifies this, activeOrders
      ensures (State(), cmd) == ControlOnFloorUpt(old(State()), newFloor)
    {
      floor := newFloor;
      var stop := RequestsShouldStop(Snapshot());
      if stop {
        behaviour := DoorOpen;
        ClearOrderOnCurrentFloor();
        cmd := Control(newFloor, DoorOpen, MOVE_STOP);
        doorArmed := true;
      } else if newFloor == FLOOR_NUM - 1 || newFloor == 0 {
        cmd := Control(newFloor, Idle, MOVE_STOP);
      } else {
        cmd := Control(newFloor, behaviour, movement);
      }
    }

    method OnFloorUpt(newFloor: Floor) returns (outs: seq<Output>)
      requires Valid()
      modifies this, activeOrders
      ensures Valid() && var r := ControllerEvents.OnFloorUpt(old(State()), newFloor); State() == r.0 && outs == r.1
    {
      StepKeepsWeakInvariant(State(), FloorUpt(newFloor));
      var d := ElevatorControlOnFloorUpt(newFloor);
      outs := [d];
      if d.movement == MOVE_STOP {
        travelArmed := false;
        outs := outs + [OrderComplete(newFloor)];
      } else if available {
        travelArmed := true;
      }
    }

    method OnOrderComplete(own: bool, completed: Floor) returns (outs: seq<Output>)
      requires Valid()
      modifies activeOrders
      ensures Valid() && var r := OnOrderCompleted(old(State()), own, completed); State() == r.0 && outs == r.1
    {
      outs := [LampsOff(completed, own)];
      var i := 0;
      while i < ORDER_TYPE_NUM - 1
        invariant 0 <= i <= ORDER_TYPE_NUM - 1
        invariant forall f, b :: 0 <= f < FLOOR_NUM && 0 <= b < ORDER_TYPE_NUM ==>
                                   activeOrders[f, b] == if f == completed && b < i then 0 else old(activeOrders[f, b])
      {
        activeOrders[completed, i] := 0;
        i := i + 1;
      }
      assert Orders() == old(OnOrderCompleted(State(), own, completed).0.car.orders);
    }

    method OnNewOrder(orderID: int, o: Order) returns (outs: seq<Output>)
      requires Valid()
      ensures var r := ControllerEvents.OnNewOrder(State(), orderID, o); State() == r.0 && outs == r.1
    {
      var cost := CostFunction.TimeToServeOrder(Snapshot(), o.btn, o.floor);
      outs := [];
      if available {
        outs := [CostResult(orderID, cost, o)];
      }
    }

    method OnDoorTimer() returns (outs: seq<Output>)
      requires Valid()
      modifies this
      ensures Valid() && var r := OnDoorTimeout(old(State())); State() == r.0 && outs == r.1
    {
      doorArmed := false;
      if behaviour == Obstructed {
        outs := [Control(floor, DoorOpen, MOVE_STOP)];
      } else {
        ChooseDirUptState();
        if movement != MOVE_STOP && available {
          travelArmed := true;
        }
        outs := [Control(floor, behaviour, movement)];
      }
    }

    method OnObstructed(obstructed: bool) returns (outs: seq<Output>)
      requires Valid()
      modifies this
      ensures Valid() && var r := OnObstruction(old(State()), obstructed); State() == r.0 && outs == r.1
    {
      outs := [];
      if obstructed && behaviour == DoorOpen {
        obstructArmed := true;
        behaviour := Obstructed;
        outs := [Control(floor, DoorOpen, MOVE_STOP)];
      } else if !obstructed && behaviour == Obstructed {
        obstructArmed := false;
        if !available {
          available := true;
          outs := [Availability(true)];
        }
        available := true;
        ChooseDirUptState();
        if movement != MOVE_STOP {
          travelArmed := true;
        } else {
          outs := outs + [LampsOff(floor, true)];
        }
        outs := outs + [Control(floor, behaviour, movement)];
      }
    }

    method OnObstructTimer() returns (outs: seq<Output>)
      requires Valid()
      modifies this, activeOrders
      ensures Valid() && var r := OnObstructTimeout(old(State())); State() == r.0 && outs == r.1
    {
      available := false;
      obstructArmed := false;
      outs := [Availability(available)];
      DeleteHallOrders();
    }

    method OnNewCabOrder(o: Order) returns (outs: seq<Output>)
      requires Valid()
      modifies this, activeOrders
      ensures Valid() && var r := ControllerEvents.OnNewCabOrder(old(State()), o); State() == r.0 && outs == r.1
    {
      outs := NewOrderController(o);
      outs := outs + [LampOn(o)];
    }

    method OnAssigned(own: bool, o: Order, singleMode: bool) returns (outs: seq<Output>)
      requires Valid()
      modifies this, activeOrders
      ensures Valid() && var r := ControllerEvents.OnAssigned(old(State()), own, o, singleMode); State() == r.0 && outs == r.1
    {
      outs := [];
      if !singleMode {
        outs := [LampOn(o)];
      }
      if own {
        var more := NewOrderController(o);
        outs := outs + more;
      }
    }

    method OnMotorStop() returns (outs: seq<Output>)
      requires Valid()
      modifies this, activeOrders
      ensures Valid() && var r := ControllerEvents.OnMotorStop(old(State())); State() == r.0 && outs == r.1
    {
      travelArmed := false;
      available := false;
      outs := [Availability(available)];
      DeleteHallOrders();
      var dir: Movement;
      if movement == MOVE_STOP {
        if floor == 0 {
          dir := MOVE_UP;
        } else {
          dir := MOVE_DOWN;
        }
      } else {
        dir := movement;
      }
      outs := outs + [Control(floor, Moving, dir)];
    }
  }
}
