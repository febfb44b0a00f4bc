/**
 The map of assigned hall orders kept by elevator/activeOrders.go on every node. It is proved to
 hold exactly the orders whose last assignment no completion of the floor and no deletion of the
 elevator has followed, whatever the interleaving of events.
 */
module ActiveOrders {
  import opened Settings
  import Assigner

  /** orderHallUp or orderHallDown. */
  type HallType = t: int | 0 <= t < ORDER_TYPE_NUM - 1

  /** One cell of HallOrdersMap. */
  datatype Cell = Cell(elev: ElevatorID, floor: Floor, hall: HallType)

  const NO_ORDERS: seq<seq<int>> := Assigner.Fill(FLOOR_NUM, [0, 0])

  /** The array HallOrders.Orders, a value in the source. */
  type HallOrders = s: seq<seq<int>> | |s| == FLOOR_NUM && forall f :: 0 <= f < FLOOR_NUM ==> |s[f]| == ORDER_TYPE_NUM - 1
    witness NO_ORDERS

  function Set(s: HallOrders, f: Floor, t: HallType, v: int): (r: HallOrders)
    ensures forall g: Floor, u: HallType :: r[g][u] == if g == f && u == t then v else s[g][u]
  {
    s[f := s[f][t := v]]
  }

  // ---------------------------------------------------------------- the history of the map

  datatype HallEvent = Assign(cell: Cell) | Complete(floor: Floor) | Delete(elev: ElevatorID)

  predicate Removes(ev: HallEvent, c: Cell) {
    ev == Complete(c.floor) || ev == Delete(c.elev)
  }

  /** The order c is pending: it was assigned, and nothing after that removed it. */
  ghost predicate Pending(h: seq<HallEvent>, c: Cell) {
    exists i :: 0 <= i < |h| && h[i] == Assign(c) && forall j :: i < j < |h| ==> !Removes(h[j], c)
  }

  lemma PendingStep(h: seq<HallEvent>, ev: HallEvent, c: Cell)
    ensures Pending(h + [ev], c) <==> ev == Assign(c) || (Pending(h, c) && !Removes(ev, c))
  {
    var g := h + [ev];
    if Pending(g, c) {
      var i :| 0 <= i < |g| && g[i] == Assign(c) && forall j :: i < j < |g| ==> !Removes(g[j], c);
      if i < |h| {
        assert h[i] == Assign(c) && !Removes(g[|h|], c);
        assert forall j :: i < j < |h| ==> g[j] == h[j];
      }
    }
    if Pending(h, c) && !Removes(ev, c) {
      var i :| 0 <= i < |h| && h[i] == Assign(c) && forall j :: i < j < |h| ==> !Removes(h[j], c);
      assert g[i] == Assign(c);
    }
    if ev == Assign(c) {
      assert g[|h|] == Assign(c);
    }
  }

  /** An order pending after more events was pending before them or is assigned among them. */
  lemma {:induction false} PendingSplit(h: seq<HallEvent>, m: seq<HallEvent>, c: Cell)
    ensures Pending(h + m, c) <==> Pending(m, c) || (Pending(h, c) && forall j :: 0 <= j < |m| ==> !Removes(m[j], c))
    decreases |m|
  {
    if m == [] {
      assert h + m == h;
    } else {
      var k := |m| - 1;
      assert h + m == (h + m[..k]) + [m[k]] && m == m[..k] + [m[k]];
      PendingStep(h + m[..k], m[k], c);
      PendingStep(m[..k], m[k], c);
      PendingSplit(h, m[..k], c);
      assert (forall j :: 0 <= j < |m| ==> !Removes(m[j], c))
        <==> (forall j :: 0 <= j < k ==> !Removes(m[..k][j], c)) && !Removes(m[k], c);
    }
  }

  // ---------------------------------------------------------------- the module

  class ActiveOrdersModule {
    const self: ElevatorID
    var hallOrdersMap: map<ElevatorID, HallOrders>
    ghost var history: seq<HallEvent>

    /** A missing entry reads as the zero array. */
    function Entry(elev: ElevatorID): HallOrders
      reads this
    {
      if elev in hallOrdersMap then hallOrdersMap[elev] else NO_ORDERS
    }

    function IsSet(c: Cell): bool
      reads this
    {
      Entry(c.elev)[c.floor][c.hall] == 1
    }

    ghost predicate Valid()
      reads this
    {
      forall c: Cell :: IsSet(c) <==> Pending(history, c)
    }

    constructor (id: ElevatorID)
      ensures Valid() && self == id && history == []
    {
      self := id;
      hallOrdersMap := map[];
      history := [];
    }

    ghost method Record(ev: HallEvent)
      requires forall c: Cell :: IsSet(c) <==> ev == Assign(c) || (Pending(history, c) && !Removes(ev, c))
      modifies this`history
      ensures Valid() && history == old(history) + [ev]
    {
      forall c: Cell { PendingStep(history, ev, c); }
      history := history + [ev];
    }

    method AddHallOrders(c: Cell)
      requires Valid()
      modifies this
      ensures Valid() && history == old(history) + [Assign(c)]
    {
      var activeOrders := Entry(c.elev);
      activeOrders := Set(activeOrders, c.floor, c.hall, 1);
      hallOrdersMap := hallOrdersMap[c.elev := activeOrders];
      Record(Assign(c));
    }

    method RemoveHallOrders(elev: ElevatorID, floor: Floor)
      modifies this`hallOrdersMap
      ensures forall c: Cell :: IsSet(c) <==> old(IsSet(c)) && !(c.elev == elev && c.floor == floor)
    {
      var activeOrders := Entry(elev);
      var i := 0;
      while i < ORDER_TYPE_NUM - 1
        invariant 0 <= i <= ORDER_TYPE_NUM - 1
        invariant forall g: Floor, u: HallType :: activeOrders[g][u] == if g == floor && u < i then 0 else Entry(elev)[g][u]
      {
        activeOrders := Set(activeOrders, floor, i, 0);
        i := i + 1;
      }
      hallOrdersMap := hallOrdersMap[elev := activeOrders];
    }

    method RemoveFloorHallOrders(floor: Floor)
      requires Valid()
      modifies this
      ensures Valid() && history == old(history) + [Complete(floor)]
    {
      var i := 0;
      while i < ELEVATOR_MAX_NUM
        invariant 0 <= i <= ELEVATOR_MAX_NUM
        invariant history == old(history)
        invariant forall c: Cell :: IsSet(c) <==> old(IsSet(c)) && !(c.elev < i && c.floor == floor)
      {
        RemoveHallOrders(i, floor);
        i := i + 1;
      }
      Record(Complete(floor));
    }

    method DeleteAllHallOrders(elev: ElevatorID)
      requires Valid()
      modifies this
      ensures Valid() && history == old(history) + [Delete(elev)]
    {
      var floor := 0;
      while floor < FLOOR_NUM
        invariant 0 <= floor <= FLOOR_NUM
        invariant history == old(history)
        invariant forall c: Cell :: IsSet(c) <==> old(IsSet(c)) && !(c.elev == elev && c.floor < floor)
      {
        var t := 0;
        while t < ORDER_TYPE_NUM - 1
          invariant 0 <= t <= ORDER_TYPE_NUM - 1
          invariant history == old(history)
          invariant forall c: Cell :: IsSet(c) <==>
                      old(IsSet(c)) && !(c.elev == elev && (c.floor < floor || (c.floor == floor && c.hall < t)))
        {
          var elevatorOrders := Entry(elev);
          elevatorOrders := Set(elevatorOrders, floor, t, 0);
          hallOrdersMap := hallOrdersMap[elev := elevatorOrders];
          t := t + 1;
        }
        floor := floor + 1;
      }
      Record(Delete(elev));
    }

    /** ActiveOrdersReqEvent: the answer carries what is pending for the elevator. */
    method OnRequest(elev: ElevatorID) returns (orders: HallOrders)
      requires Valid()
      ensures forall f: Floor, t: HallType :: orders[f][t] == 1 <==> Pending(history, Cell(elev, f, t))
    {
      orders := Entry(elev);
      assert forall f: Floor, t: HallType :: orders[f][t] == 1 <==> IsSet(Cell(elev, f, t));
    }

    /** AvailabilityEvent: an elevator that becomes unavailable forgets its own orders, unless it is alone. */
    method OnAvailability(elev: ElevatorID, availability: bool, singleElevator: bool)
      requires Valid()
      modifies this
      ensures Valid()
      ensures history == old(history) + if !singleElevator && !availability && elev == self then [Delete(elev)] else []
    {
      if !singleElevator {
        if !availability && elev == self {
          DeleteAllHallOrders(elev);
        }
      }
    }

    /** UnavailableOrdersHandledEvent. */
    method OnHandled(elev: ElevatorID, handled: bool)
      requires Valid()
      modifies this
      ensures Valid() && history == old(history) + if handled then [Delete(elev)] else []
    {
      if handled {
        DeleteAllHallOrders(elev);
      }
    }
  }
}
