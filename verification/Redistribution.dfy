/**
 The hall orders of an elevator that is gone are handed over: one node asks for them,
 distributeOrders of elevator/assigner.go announces each again, and only then are they deleted.
 */
module Redistribution {
  import opened Settings
  import opened Assigner
  import opened ActiveOrders

  // ---------------------------------------------------------------- who asks

  /** OnAvailability of node n asks for the orders of x, when all nodes had the view st. */
  predicate Asks(st: Flags, n: ElevatorID, x: ElevatorID) {
    !SingleElevator(st, n) && n != x && Hands(st[x := false], n)
  }

  lemma {:induction false} LowestExists(st: Flags, i: ElevatorID) returns (n: ElevatorID)
    requires st[i]
    ensures Hands(st, n)
    decreases i
  {
    if j: ElevatorID :| j < i && st[j] {
      n := LowestExists(st, j);
    } else {
      n := i;
    }
  }

  /** After a disconnection every node asks that finds itself lowest: exactly one, if any is active. */
  lemma ExactlyOneHands(st: Flags)
    ensures AnyActive(st) <==> exists n: ElevatorID :: Hands(st, n)
    ensures forall n: ElevatorID, m: ElevatorID :: Hands(st, n) && Hands(st, m) ==> n == m
    ensures forall n: ElevatorID, m: ElevatorID :: Hands(st, n) && st[m] ==> n <= m
  {
    if AnyActive(st) {
      var i: ElevatorID :| st[i];
      var n := LowestExists(st, i);
    }
  }

  /** After x has become unavailable exactly one node asks: the lowest that is still active, if any is. */
  lemma ExactlyOneAsks(st: Flags, x: ElevatorID)
    requires st[x]
    ensures AnyActive(st[x := false]) <==> exists n: ElevatorID :: Asks(st, n, x)
    ensures forall n: ElevatorID, m: ElevatorID :: Asks(st, n, x) && Asks(st, m, x) ==> n == m
  {
    var left: Flags := st[x := false];
    ExactlyOneHands(left);
    forall n: ElevatorID ensures Asks(st, n, x) <==> Hands(left, n) {}
    if n: ElevatorID :| Hands(left, n) {
      assert Asks(st, n, x);
    }
  }

  // ---------------------------------------------------------------- order IDs

  /** generateOrderID: the counter wraps within six bits. */
  function GeneratedID(elev: ElevatorID, i: nat): int {
    (ELEVATOR_MAX_NUM + elev) * 64 + i % 64
  }

  /** The ID that pollButtons of elevator/driver.go gives to a button press. */
  function ButtonID(elev: ElevatorID, i: nat): int {
    elev * 64 + i % 64
  }

  lemma WithinOneRound(i: nat, k: nat)
    requires 0 < k < 64
    ensures i % 64 != (i + k) % 64
  {
  }

  /** No ID of a redistribution is the ID of a button press, or of another elevator's redistribution. */
  lemma IDsDisjoint(e: ElevatorID, i: nat, d: ElevatorID, j: nat)
    ensures GeneratedID(e, i) != ButtonID(d, j)
    ensures e != d ==> GeneratedID(e, i) != GeneratedID(d, j) && ButtonID(e, i) != ButtonID(d, j)
  {
  }

  // ---------------------------------------------------------------- distribution

  datatype Message = NewOrder(elev: ElevatorID, floor: Floor, orderID: int, hall: HallType) | Handled(elev: ElevatorID)

  /** The cells before (f, t) in the order in which the loop reads them. */
  predicate Before(g: int, u: int, f: int, t: int) {
    g < f || (g == f && u < t)
  }

  /** out announces every set cell before (f, t) once, in reading order, with consecutive IDs from i. */
  ghost predicate Announces(self: ElevatorID, orders: HallOrders, i: nat, f: int, t: int, out: seq<Message>) {
    && (forall k :: 0 <= k < |out| ==>
          && out[k].NewOrder? && out[k].elev == self && out[k].orderID == GeneratedID(self, i + k)
          && orders[out[k].floor][out[k].hall] == 1 && Before(out[k].floor, out[k].hall, f, t))
    && (forall j, k :: 0 <= j < k < |out| ==> Before(out[j].floor, out[j].hall, out[k].floor, out[k].hall))
    && (forall g: Floor, u: HallType :: Before(g, u, f, t) && orders[g][u] == 1 ==>
          exists k :: 0 <= k < |out| && out[k].floor == g && out[k].hall == u)
  }

  lemma AnnounceNext(self: ElevatorID, orders: HallOrders, i: nat, f: Floor, t: HallType, out: seq<Message>)
    requires Announces(self, orders, i, f, t, out)
    ensures orders[f][t] == 1 ==>
              Announces(self, orders, i, f, t + 1, out + [NewOrder(self, f, GeneratedID(self, i + |out|), t)])
    ensures orders[f][t] != 1 ==> Announces(self, orders, i, f, t + 1, out)
  {
    var more := out + [NewOrder(self, f, GeneratedID(self, i + |out|), t)];
    if orders[f][t] == 1 {
      forall g: Floor, u: HallType | Before(g, u, f, t + 1) && orders[g][u] == 1
        ensures exists k :: 0 <= k < |more| && more[k].floor == g && more[k].hall == u
      {
        if Before(g, u, f, t) {
          var k :| 0 <= k < |out| && out[k].floor == g && out[k].hall == u;
          assert more[k] == out[k];
        } else {
          assert more[|out|].floor == g;
        }
      }
    }
  }

  lemma RowDone(self: ElevatorID, orders: HallOrders, i: nat, f: Floor, out: seq<Message>)
    requires Announces(self, orders, i, f, ORDER_TYPE_NUM - 1, out)
    ensures Announces(self, orders, i, f + 1, 0, out)
  {
  }

  /** One turn of distributeOrders: every set cell is announced, and then that all have been. */
  method DistributeOrders(self: ElevatorID, i: nat, elev: ElevatorID, orders: HallOrders)
    returns (out: seq<Message>, next: nat)
    ensures out != [] && out[|out| - 1] == Handled(elev)
    ensures Announces(self, orders, i, FLOOR_NUM, 0, out[..|out| - 1])
    ensures next == i + |out| - 1
  {
    out := [];
    next := i;
    var floor := 0;
    while floor < FLOOR_NUM
      invariant 0 <= floor <= FLOOR_NUM
      invariant Announces(self, orders, i, floor, 0, out) && next == i + |out|
    {
      var t := 0;
      while t < ORDER_TYPE_NUM - 1
        invariant 0 <= t <= ORDER_TYPE_NUM - 1
        invariant Announces(self, orders, i, floor, t, out) && next == i + |out|
      {
        AnnounceNext(self, orders, i, floor, t, out);
        if orders[floor][t] == 1 {
          var orderID := GeneratedID(self, next);
          next := next + 1;
          out := out + [NewOrder(self, floor, orderID, t)];
        }
        t := t + 1;
      }
      RowDone(self, orders, i, floor, out);
      floor := floor + 1;
    }
    ghost var all := out;
    out := out + [Handled(elev)];
    assert out[..|out| - 1] == all;
  }

  predicate DistinctIDs(out: seq<Message>) {
    forall j, k :: 0 <= j < k < |out| && out[j].NewOrder? && out[k].NewOrder? ==> out[j].orderID != out[k].orderID
  }

  /** The announced orders have different IDs exactly when the six bits suffice for them. */
  lemma BatchDistinctIff(self: ElevatorID, orders: HallOrders, i: nat, out: seq<Message>)
    requires Announces(self, orders, i, FLOOR_NUM, 0, out)
    ensures DistinctIDs(out) <==> |out| <= 64
  {
    if |out| > 64 {
      assert out[0].orderID == GeneratedID(self, i + 0) && out[64].orderID == GeneratedID(self, i + 64);
    } else {
      forall j, k | 0 <= j < k < |out| ensures out[j].orderID != out[k].orderID {
        WithinOneRound(i + j, k - j);
      }
    }
  }

  lemma {:induction false} PositionBound(self: ElevatorID, orders: HallOrders, i: nat, out: seq<Message>, k: nat)
    requires Announces(self, orders, i, FLOOR_NUM, 0, out) && k < |out|
    ensures k <= out[k].floor * (ORDER_TYPE_NUM - 1) + out[k].hall
  {
    if k > 0 {
      PositionBound(self, orders, i, out, k - 1);
      assert Before(out[k - 1].floor, out[k - 1].hall, out[k].floor, out[k].hall);
    }
  }

  /** There are no more announcements than cells, so their IDs are distinct for up to 32 floors. */
  lemma BatchFits(self: ElevatorID, orders: HallOrders, i: nat, out: seq<Message>)
    requires Announces(self, orders, i, FLOOR_NUM, 0, out)
    ensures |out| <= FLOOR_NUM * (ORDER_TYPE_NUM - 1)
    ensures FLOOR_NUM <= 32 ==> DistinctIDs(out)
  {
    if out != [] {
      PositionBound(self, orders, i, out, |out| - 1);
    }
    BatchDistinctIff(self, orders, i, out);
  }

  // ---------------------------------------------------------------- nothing is lost

  predicate Announced(out: seq<Message>, c: Cell) {
    exists k :: 0 <= k < |out| && out[k].NewOrder? && out[k].floor == c.floor && out[k].hall == c.hall
  }

  /**
   Conservation. The orders of an elevator were answered after the history h and announced, and the
   entry is deleted after the further events m. What the deletion removes without having been
   announced is exactly what was assigned to that elevator in between and is still pending.
   */
  lemma DeletedOrAnnounced(h: seq<HallEvent>, m: seq<HallEvent>, self: ElevatorID, i: nat, c: Cell, orders: HallOrders, out: seq<Message>)
    requires forall f: Floor, t: HallType :: orders[f][t] == 1 <==> Pending(h, Cell(c.elev, f, t))
    requires Announces(self, orders, i, FLOOR_NUM, 0, out)
    ensures Announced(out, c) <==> Pending(h, c)
    ensures Pending(h + m, c) && !Announced(out, c) <==> Pending(m, c) && !Pending(h, c)
  {
    PendingSplit(h, m, c);
    assert Cell(c.elev, c.floor, c.hall) == c;
    assert Before(c.floor, c.hall, FLOOR_NUM, 0);
  }

  /** In particular nothing is lost if nothing was assigned to the elevator in between. */
  lemma NothingLost(h: seq<HallEvent>, m: seq<HallEvent>, self: ElevatorID, i: nat, c: Cell, orders: HallOrders, out: seq<Message>)
    requires forall f: Floor, t: HallType :: orders[f][t] == 1 <==> Pending(h, Cell(c.elev, f, t))
    requires Announces(self, orders, i, FLOOR_NUM, 0, out)
    requires forall k :: 0 <= k < |m| ==> !(m[k].Assign? && m[k].cell.elev == c.elev)
    ensures Pending(h + m, c) ==> Announced(out, c)
    ensures !Pending(h + m + [Delete(c.elev)], c)
  {
    DeletedOrAnnounced(h, m, self, i, c, orders, out);
    PendingStep(h + m, Delete(c.elev), c);
  }

  // ---------------------------------------------------------------- the other nodes' maps

  /**
   The handled message is not sent over the network: only the node that asked deletes the entry of e.
   After the same further events m, its map and another node's differ in c exactly if c was pending for
   e at the hand-over and m has neither removed nor assigned it again.
   */
  lemma MapsDifferIff(h: seq<HallEvent>, e: ElevatorID, m: seq<HallEvent>, c: Cell)
    ensures Pending(h + [Delete(e)] + m, c) ==> Pending(h + m, c)
    ensures (Pending(h + m, c) <==> Pending(h + [Delete(e)] + m, c)) <==>
            !(c.elev == e && Pending(h, c) && !Pending(m, c) && forall j :: 0 <= j < |m| ==> !Removes(m[j], c))
  {
    PendingSplit(h, m, c);
    PendingStep(h, Delete(e), c);
    PendingSplit(h + [Delete(e)], m, c);
  }
}
