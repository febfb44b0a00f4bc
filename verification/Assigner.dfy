/**
 AssignerModule of elevator/assigner.go: who serves an order is decided by collecting every
 active elevator's cost, announcing the cheapest, and comparing the announcements.
 */
module Assigner {
  import opened Settings
  import opened Wrappers

  function Fill<T>(n: nat, v: T): (s: seq<T>)
    ensures |s| == n && forall i :: 0 <= i < n ==> s[i] == v
  {
    if n == 0 then [] else Fill(n - 1, v) + [v]
  }

  /** One flag, or one number, per elevator. */
  type Flags = s: seq<bool> | |s| == ELEVATOR_MAX_NUM witness Fill(ELEVATOR_MAX_NUM, false)

  type Numbers = s: seq<int> | |s| == ELEVATOR_MAX_NUM witness Fill(ELEVATOR_MAX_NUM, 0)

  const NO_FLAGS: Flags := Fill(ELEVATOR_MAX_NUM, false)
  const ZEROS: Numbers := Fill(ELEVATOR_MAX_NUM, 0)

  /** An entry of orderMap. */
  datatype Registration = Registration(elevsReg: Flags, costs: Numbers)

  /** An entry of AssignedElevators. */
  datatype Ballot = Ballot(elevsReg: Flags, choices: Numbers)

  /** CheckAssignedElevEvent: sender announces choice. */
  datatype Check = Check(sender: ElevatorID, choice: ElevatorID, orderID: int, order: Order)

  /** The outcome of checkForSameResult. */
  datatype Verdict = Undecided | Agreed(elev: ElevatorID) | Fallback

  datatype AssignedEvent = AssignedEvent(elev: ElevatorID, orderID: int, order: Order, singleMode: bool)

  // ---------------------------------------------------------------- specification

  function RegisterCost(entry: Option<Registration>, elev: ElevatorID, cost: int): Registration {
    var r := if entry.Some? then entry.value else Registration(NO_FLAGS, ZEROS);
    Registration(r.elevsReg[elev := true], r.costs[elev := cost])
  }

  function RegisterCheck(entry: Option<Ballot>, sender: ElevatorID, choice: ElevatorID): Ballot {
    var b := if entry.Some? then entry.value else Ballot(NO_FLAGS, ZEROS);
    Ballot(b.elevsReg[sender := true], b.choices[sender := choice])
  }

  predicate AnyActive(status: Flags) {
    exists i :: 0 <= i < |status| && status[i]
  }

  /** c is the active elevator of least cost, and among those the one of least ID. */
  predicate IsCheapest(status: Flags, costs: Numbers, c: ElevatorID) {
    && status[c]
    && forall i :: 0 <= i < |status| && status[i] ==> costs[c] < costs[i] || (costs[c] == costs[i] && c <= i)
  }

  predicate AllRegistered(status: Flags, b: Ballot) {
    forall i :: 0 <= i < |status| && status[i] ==> b.elevsReg[i]
  }

  predicate SameChoices(status: Flags, b: Ballot) {
    forall i, j :: 0 <= i < |status| && 0 <= j < |status| && status[i] && status[j] ==> b.choices[i] == b.choices[j]
  }

  /** Every active elevator has announced, and all have announced the same. */
  predicate Unanimous(status: Flags, b: Ballot) {
    AnyActive(status) && AllRegistered(status, b) && SameChoices(status, b)
  }

  function Count(s: seq<bool>): (n: nat)
    ensures n <= |s|
  {
    if s == [] then 0 else Count(s[..|s| - 1]) + (if s[|s| - 1] then 1 else 0)
  }

  /** The verdict after a check whose choice is choice has been entered into b. */
  function Judge(status: Flags, b: Ballot, choice: ElevatorID): Verdict {
    if Unanimous(status, b) then Agreed(choice)
    else if Count(b.elevsReg) == Count(status) then Fallback
    else Undecided
  }

  /** The elevator self assigns the order to itself: it was agreed on, or nothing was and it is active. */
  predicate Takes(self: ElevatorID, status: Flags, v: Verdict) {
    v == Agreed(self) || (v == Fallback && status[self])
  }

  function Lookup<V>(m: map<int, V>, k: int): Option<V> {
    if k in m then Some(m[k]) else None
  }

  /** The active elevators in increasing order. */
  predicate IsActiveList(status: Flags, ids: seq<ElevatorID>) {
    && (forall i, j :: 0 <= i < j < |ids| ==> ids[i] < ids[j])
    && (forall i: ElevatorID :: i in ids <==> status[i])
  }

  lemma CheapestIsUnique(status: Flags, costs: Numbers, c: ElevatorID, d: ElevatorID)
    requires IsCheapest(status, costs, c) && IsCheapest(status, costs, d)
    ensures c == d
  {
  }

  /** The lowest active ID asks for the orders of an elevator that is gone. */
  predicate Hands(status: Flags, self: ElevatorID) {
    status[self] && forall i :: 0 <= i < self ==> !status[i]
  }

  /** This elevator is the only active one. */
  predicate SingleElevator(status: Flags, self: ElevatorID) {
    status[self] && forall i :: 0 <= i < |status| && i != self ==> !status[i]
  }

  // ---------------------------------------------------------------- the module

  lemma SingleList(status: Flags, ids: seq<ElevatorID>, self: ElevatorID)
    requires IsActiveList(status, ids)
    ensures (|ids| == 1 && ids[0] == self) <==> SingleElevator(status, self)
  {
    assert forall k :: 0 <= k < |ids| ==> ids[k] in ids;
    assert forall i: ElevatorID :: status[i] ==> i in ids;
    assert SingleElevator(status, self) ==> self in ids && forall k :: 0 <= k < |ids| ==> ids[k] == self;
    if |ids| > 1 {
      assert ids[0] != ids[1];
    }
  }

  predicate OneActive(status: Flags) {
    exists i: ElevatorID :: SingleElevator(status, i)
  }

  lemma OneActiveIff(status: Flags, ids: seq<ElevatorID>)
    requires IsActiveList(status, ids)
    ensures |ids| == 1 <==> OneActive(status)
  {
    if i: ElevatorID :| SingleElevator(status, i) {
      SingleList(status, ids, i);
    }
    if |ids| == 1 {
      SingleList(status, ids, ids[0]);
    }
  }

  lemma LowestIsFirst(status: Flags, ids: seq<ElevatorID>, self: ElevatorID)
    requires IsActiveList(status, ids)
    ensures (|ids| != 0 && ids[0] == self) <==> Hands(status, self)
  {
    if ids != [] {
      var low := ids[0];
      assert low in ids && status[low];
      forall i: ElevatorID | status[i] ensures low <= i {
        var k :| 0 <= k < |ids| && ids[k] == i;
      }
    }
    assert status[self] ==> self in ids;
  }

  lemma ListSpeaksForStatus(status: Flags, ids: seq<ElevatorID>, b: Ballot)
    requires IsActiveList(status, ids)
    ensures AnyActive(status) <==> ids != []
    ensures AllRegistered(status, b) <==> forall j :: 0 <= j < |ids| ==> b.elevsReg[ids[j]]
    ensures SameChoices(status, b) <==> forall j :: 0 <= j < |ids| ==> b.choices[ids[j]] == b.choices[ids[0]]
  {
    assert forall j :: 0 <= j < |ids| ==> ids[j] in ids && status[ids[j]];
    forall i | 0 <= i < |status| && status[i] ensures exists j :: 0 <= j < |ids| && ids[j] == i {
      assert (i as ElevatorID) in ids;
    }
    if forall j :: 0 <= j < |ids| ==> b.elevsReg[ids[j]] {
      forall i | 0 <= i < |status| && status[i] ensures b.elevsReg[i] {
        var j :| 0 <= j < |ids| && ids[j] == i;
      }
    }
    if forall j :: 0 <= j < |ids| ==> b.choices[ids[j]] == b.choices[ids[0]] {
      forall i | 0 <= i < |status| && status[i] ensures b.choices[i] == b.choices[ids[0]] {
        var j :| 0 <= j < |ids| && ids[j] == i;
      }
    }
  }

  /** The list of active elevators has as many entries as there are active elevators. */
  lemma {:induction false} CountOfActiveList(status: Flags, ids: seq<ElevatorID>, n: nat)
    requires n <= |status|
    requires forall i, j :: 0 <= i < j < |ids| ==> ids[i] < ids[j]
    requires forall i: ElevatorID :: i in ids <==> i < n && status[i]
    ensures |ids| == Count(status[..n])
    ensures n == |status| ==> status[..n] == status
    decreases n
  {
    assert forall j :: 0 <= j < |ids| ==> ids[j] in ids;
    assert ids != [] ==> ids[0] < n;
    if n > 0 {
      assert status[..n][..n - 1] == status[..n - 1];
      if status[n - 1] {
        var k := |ids| - 1;
        assert (n - 1) as ElevatorID in ids;
        assert ids[k] == n - 1;
        CountOfActiveList(status, ids[..k], n - 1);
      } else {
        CountOfActiveList(status, ids, n - 1);
      }
    }
  }

  class AssignerModule {
    const self: ElevatorID
    const elevatorStatus: array<bool>
    var orderMap: map<int, Registration>
    var assignedElevators: map<int, Ballot>

    ghost predicate Valid() {
      elevatorStatus.Length == ELEVATOR_MAX_NUM
    }

    function Status(): Flags
      requires Valid()
      reads elevatorStatus
    {
      elevatorStatus[..]
    }

    constructor (id: ElevatorID)
      ensures Valid() && self == id && fresh(elevatorStatus)
      ensures Status() == NO_FLAGS[id := true] && orderMap == map[] && assignedElevators == map[]
    {
      self := id;
      elevatorStatus := new bool[ELEVATOR_MAX_NUM](_ => false);
      orderMap, assignedElevators := map[], map[];
      new;
      elevatorStatus[id] := true;
    }

    method ReturnActiveElevatorsID() returns (ids: seq<ElevatorID>)
      requires Valid()
      ensures IsActiveList(Status(), ids)
    {
      ids := [];
      var i := 0;
      while i < elevatorStatus.Length
        invariant 0 <= i <= elevatorStatus.Length
        invariant forall j, k :: 0 <= j < k < |ids| ==> ids[j] < ids[k]
        invariant forall j :: 0 <= j < |ids| ==> ids[j] < i
        invariant forall j: ElevatorID :: j in ids <==> j < i && elevatorStatus[j]
      {
        if elevatorStatus[i] {
          ids := ids + [i];
        }
        i := i + 1;
      }
    }

    method SingleElevatorAvailable() returns (single: bool)
      requires Valid()
      ensures single == SingleElevator(Status(), self)
    {
      var activeElevs := ReturnActiveElevatorsID();
      single := |activeElevs| == 1 && activeElevs[0] == self;
      SingleList(Status(), activeElevs, self);
    }

    method RegisterOrder(elev: ElevatorID, orderID: int, cost: int) returns (readyToServe: bool)
      requires Valid()
      modifies this`orderMap
      ensures orderMap == old(orderMap)[orderID := RegisterCost(Lookup(old(orderMap), orderID), elev, cost)]
      ensures readyToServe <==> orderMap[orderID].elevsReg == Status()
    {
      var newOrder := RegisterCost(Lookup(orderMap, orderID), elev, cost);
      readyToServe := false;
      var i := 0;
      while i < |newOrder.elevsReg|
        invariant 0 <= i <= ELEVATOR_MAX_NUM
        invariant i > 0 ==> readyToServe
        invariant forall j :: 0 <= j < i ==> newOrder.elevsReg[j] == elevatorStatus[j]
      {
        if newOrder.elevsReg[i] == elevatorStatus[i] {
          readyToServe := true;
        } else {
          readyToServe := false;
          break;
        }
        i := i + 1;
      }
      orderMap := orderMap[orderID := newOrder];
    }

    method AssignElevToServeOrder(cost: Numbers) returns (elevId: ElevatorID)
      requires Valid() && AnyActive(Status())
      ensures IsCheapest(Status(), cost, elevId)
    {
      var activeElevatorsID := ReturnActiveElevatorsID();
      ghost var some: ElevatorID :| Status()[some];
      assert some in activeElevatorsID;
      elevId := activeElevatorsID[0];
      assert elevId in activeElevatorsID;
      var costVal := cost[elevId];
      var i := 0;
      while i < |activeElevatorsID|
        invariant 0 <= i <= |activeElevatorsID|
        invariant elevId in activeElevatorsID && costVal == cost[elevId]
        invariant forall j :: 0 <= j < i ==>
                                var v := activeElevatorsID[j];
                                costVal < cost[v] || (costVal == cost[v] && elevId <= v)
        invariant forall j :: i <= j < |activeElevatorsID| ==> elevId <= activeElevatorsID[j]
      {
        var v := activeElevatorsID[i];
        assert v in activeElevatorsID;
        if cost[v] < costVal {
          costVal := cost[v];
          elevId := v;
        }
        i := i + 1;
      }
      forall k: ElevatorID | Status()[k]
        ensures cost[elevId] < cost[k] || (cost[elevId] == cost[k] && elevId <= k)
      {
        assert k in activeElevatorsID;
      }
    }

    /**
     A cost arrives. When it completes the set of active elevators a check with the choice is made,
     against which the others' are compared; it is announced if this elevator is active itself.
     */
    method OnCostResult(elev: ElevatorID, orderID: int, score: int, o: Order)
      returns (check: Option<Check>, announced: bool)
      requires Valid()
      modifies this`orderMap
      ensures orderMap == old(orderMap)[orderID := RegisterCost(Lookup(old(orderMap), orderID), elev, score)]
      ensures check.Some? <==> orderMap[orderID].elevsReg == Status()
      ensures check.Some? ==>
                && check.value == Check(self, check.value.choice, orderID, o)
                && IsCheapest(Status(), orderMap[orderID].costs, check.value.choice)
      ensures announced <==> check.Some? && Status()[self]
    {
      var readyToServe := RegisterOrder(elev, orderID, score);
      check, announced := None, false;
      if readyToServe {
        assert Status()[elev];
        var elevToServe := AssignElevToServeOrder(orderMap[orderID].costs);
        check := Some(Check(self, elevToServe, orderID, o));
        if elevatorStatus[self] {
          announced := true;
        }
      }
    }

    method SameAssignedElevs(evt: Check) returns (same: bool)
      requires Valid()
      modifies this`assignedElevators
      ensures assignedElevators
              == old(assignedElevators)[evt.orderID := RegisterCheck(Lookup(old(assignedElevators), evt.orderID), evt.sender, evt.choice)]
      ensures same == Unanimous(Status(), assignedElevators[evt.orderID])
    {
      var active := ReturnActiveElevatorsID();
      var b := RegisterCheck(Lookup(assignedElevators, evt.orderID), evt.sender, evt.choice);
      var allElevsRegistered := false;
      var k := 0;
      while k < |active|
        invariant 0 <= k <= |active|
        invariant k > 0 ==> allElevsRegistered
        invariant k == 0 ==> !allElevsRegistered
        invariant forall j :: 0 <= j < k ==> b.elevsReg[active[j]]
      {
        if b.elevsReg[active[k]] {
          allElevsRegistered := true;
        } else {
          allElevsRegistered := false;
          break;
        }
        k := k + 1;
      }
      ListSpeaksForStatus(Status(), active, b);
      assert allElevsRegistered <==> AnyActive(Status()) && AllRegistered(Status(), b);
      same := false;
      if allElevsRegistered {
        same := true;
        if |active| > 1 {
          var i := 0;
          while i < |active| - 1
            invariant 0 <= i <= |active| - 1
            invariant same <==> forall j :: 0 <= j <= i ==> b.choices[active[j]] == b.choices[active[0]]
          {
            if b.choices[active[i]] != b.choices[active[i + 1]] {
              same := false;
            }
            i := i + 1;
          }
        }
      }
      assignedElevators := assignedElevators[evt.orderID := b];
    }

    /** One turn of checkForSameResult: a check arrives. */
    method OnCheck(evt: Check) returns (v: Verdict)
      requires Valid()
      modifies this`assignedElevators
      ensures var b := RegisterCheck(Lookup(old(assignedElevators), evt.orderID), evt.sender, evt.choice);
              && v == Judge(Status(), b, evt.choice)
              && assignedElevators
                 == if v == Undecided then old(assignedElevators)[evt.orderID := b]
                    else old(assignedElevators) - {evt.orderID}
    {
      var same := SameAssignedElevs(evt);
      if same {
        assignedElevators := assignedElevators - {evt.orderID};
        return Agreed(evt.choice);
      }
      var elevsReg := assignedElevators[evt.orderID].elevsReg;
      var activeElevatorsID := ReturnActiveElevatorsID();
      CountOfActiveList(Status(), activeElevatorsID, |Status()|);
      var elevsRegTrue := 0;
      var i := 0;
      while i < |elevsReg|
        invariant 0 <= i <= |elevsReg|
        invariant elevsRegTrue == Count(elevsReg[..i])
      {
        assert elevsReg[..i + 1][..i] == elevsReg[..i];
        if elevsReg[i] {
          elevsRegTrue := elevsRegTrue + 1;
        }
        i := i + 1;
      }
      assert elevsReg[..i] == elevsReg;
      v := Undecided;
      if elevsRegTrue == |activeElevatorsID| {
        v := Fallback;
        assignedElevators := assignedElevators - {evt.orderID};
      }
    }

    /** The other turn: the decision timer fires. */
    method OnDecideTimeout(orderID: int) returns (v: Verdict)
      modifies this`assignedElevators
      ensures v == Fallback && assignedElevators == old(assignedElevators) - {orderID}
    {
      assignedElevators := assignedElevators - {orderID};
      v := Fallback;
    }

    /** AssignedOKEvent: the order goes to the agreed elevator, or to every active one. */
    method OnAssignedOK(v: Verdict, orderID: int, o: Order) returns (events: seq<AssignedEvent>)
      requires Valid() && v != Undecided
      modifies this`orderMap
      ensures orderMap == if v == Fallback && !AnyActive(Status()) then old(orderMap) else old(orderMap) - {orderID}
      ensures forall i: ElevatorID ::
                (exists e :: e in events && e.elev == i) <==> if v.Agreed? then i == v.elev else Status()[i]
      ensures forall e :: e in events ==> e.orderID == orderID && e.order == o && (e.singleMode <==> OneActive(Status()))
      ensures (exists e :: e in events && e.elev == self) <==> Takes(self, Status(), v)
    {
      var active := ReturnActiveElevatorsID();
      var singleMode := |active| == 1;
      OneActiveIff(Status(), active);
      if v.Agreed? {
        events := [AssignedEvent(v.elev, orderID, o, singleMode)];
        assert events[0].elev == v.elev && events[0] in events;
        orderMap := orderMap - {orderID};
      } else {
        assert AnyActive(Status()) <==> active != [] by {
          ListSpeaksForStatus(Status(), active, Ballot(NO_FLAGS, ZEROS));
        }
        events := [];
        var k := 0;
        while k < |active|
          invariant 0 <= k <= |active| == |active|
          invariant |events| == k && forall j :: 0 <= j < k ==> events[j] == AssignedEvent(active[j], orderID, o, singleMode)
          invariant orderMap == if k == 0 then old(orderMap) else old(orderMap) - {orderID}
        {
          events := events + [AssignedEvent(active[k], orderID, o, singleMode)];
          orderMap := orderMap - {orderID};
          k := k + 1;
        }
        forall i: ElevatorID | i in active ensures exists e :: e in events && e.elev == i {
          var j :| 0 <= j < |active| && active[j] == i;
          assert events[j] in events;
        }
      }
    }

    /** AvailabilityEvent; requested is set when this elevator asks for the other's orders. */
    method OnAvailability(elev: ElevatorID, availability: bool) returns (requested: bool)
      requires Valid()
      modifies elevatorStatus
      ensures Status() == if elev == self && SingleElevator(old(Status()), self) then old(Status())
                          else old(Status())[elev := availability]
      ensures requested <==> !SingleElevator(old(Status()), self) && elev != self && !availability && Hands(Status(), self)
    {
      requested := false;
      var single := SingleElevatorAvailable();
      if !single {
        elevatorStatus[elev] := availability;
        if elev != self && !availability {
          requested := IsLowestActive();
        }
      }
      if elev != self {
        elevatorStatus[elev] := availability;
      }
    }

    /** ConnectionEvent. */
    method OnConnection(elev: ElevatorID, connect: bool) returns (requested: bool)
      requires Valid()
      modifies elevatorStatus
      ensures Status() == old(Status())[elev := connect]
      ensures requested <==> !connect && Hands(Status(), self)
    {
      requested := false;
      elevatorStatus[elev] := connect;
      if !connect {
        requested := IsLowestActive();
      }
    }

    method IsLowestActive() returns (lowest: bool)
      requires Valid()
      ensures lowest <==> Hands(Status(), self)
    {
      var activeElevatorID := ReturnActiveElevatorsID();
      LowestIsFirst(Status(), activeElevatorID, self);
      lowest := |activeElevatorID| != 0 && activeElevatorID[0] == self;
    }
  }
}
