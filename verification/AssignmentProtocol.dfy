/**
 The decision on one order as a protocol among all elevators: costs and checks travel over a
 network that may lose, delay, reorder and repeat, decision timers fire at any time, and every
 node has its own fixed view of who is active. One step is one event at one node, as handled by
 Assigner.
 */
module AssignmentProtocol {
  import opened Settings
  import opened Wrappers
  import opened Assigner

  /**
   A node. entry is its orderMap entry, ballot its AssignedElevators entry; heard and got are the
   elevators whose cost and whose check have been delivered to it.
   */
  datatype Node = Node(
    status: Flags, entry: Option<Registration>, choice: Option<ElevatorID>,
    ballot: Option<Ballot>, verdict: Verdict, heard: set<ElevatorID>, got: set<ElevatorID>)

  const IDLE_NODE := Node(NO_FLAGS, None, None, None, Undecided, {}, {})

  type System = s: seq<Node> | |s| == ELEVATOR_MAX_NUM witness Fill(ELEVATOR_MAX_NUM, IDLE_NODE)

  datatype Step =
    | CostArrives(node: ElevatorID, from: ElevatorID, cost: int)
    | CheckArrives(node: ElevatorID, from: ElevatorID)
    | TimerFires(node: ElevatorID)

  /** The node waits for checks: it has chosen and has not decided. */
  predicate Waiting(n: Node) {
    n.choice.Some? && n.verdict == Undecided
  }

  /** Node i has announced its choice: a node that counts itself as inactive chooses silently. */
  predicate Announced(s: System, i: ElevatorID) {
    s[i].choice.Some? && s[i].status[i]
  }

  /**
   A cost reaches a node at most once. A check can reach a waiting node, any number of times, once
   its sender has announced; the timer can fire at a waiting node.
   */
  predicate Enabled(s: System, step: Step) {
    match step
    case CostArrives(n, i, _) => i !in s[n].heard
    case CheckArrives(n, i) => Waiting(s[n]) && Announced(s, i)
    case TimerFires(n) => Waiting(s[n])
  }

  /** The cheapest active elevator among the first n. */
  function CheapestBelow(status: Flags, costs: Numbers, n: nat): (c: ElevatorID)
    requires n <= ELEVATOR_MAX_NUM && exists i :: 0 <= i < n && status[i]
    ensures c < n && status[c]
    ensures forall i :: 0 <= i < n && status[i] ==> costs[c] < costs[i] || (costs[c] == costs[i] && c <= i)
  {
    if !exists i :: 0 <= i < n - 1 && status[i] then n - 1
    else
      var c := CheapestBelow(status, costs, n - 1);
      if status[n - 1] && costs[n - 1] < costs[c] then n - 1 else c
  }

  function Cheapest(status: Flags, costs: Numbers): (c: ElevatorID)
    requires AnyActive(status)
    ensures IsCheapest(status, costs, c)
  {
    CheapestBelow(status, costs, ELEVATOR_MAX_NUM)
  }

  /** OnCostResult: the cost is registered, and a complete set of costs is answered by a choice. */
  function OnCost(n: Node, i: ElevatorID, cost: int): Node {
    var r := RegisterCost(n.entry, i, cost);
    var m := n.(entry := Some(r), heard := n.heard + {i});
    if r.elevsReg == n.status then
      assert n.status[i];
      m.(choice := Some(Cheapest(n.status, r.costs)))
    else m
  }

  /** Once decided, both map entries of the order are deleted. */
  function Decide(n: Node, v: Verdict): Node {
    n.(verdict := v, ballot := None, entry := None)
  }

  /** OnCheck. */
  function OnCheck(n: Node, i: ElevatorID, choice: ElevatorID): Node {
    var b := RegisterCheck(n.ballot, i, choice);
    var v := Judge(n.status, b, choice);
    var m := n.(got := n.got + {i});
    if v == Undecided then m.(ballot := Some(b)) else Decide(m, v)
  }

  function Next(s: System, step: Step): System
    requires Enabled(s, step)
  {
    match step
    case CostArrives(n, i, cost) => s[n := OnCost(s[n], i, cost)]
    case CheckArrives(n, i) => s[n := OnCheck(s[n], i, s[i].choice.value)]
    case TimerFires(n) => s[n := Decide(s[n], Fallback)]
  }

  /** Before the first cost. Views are arbitrary; a node need not count itself as active. */
  predicate Initial(s: System) {
    forall n: ElevatorID :: s[n] == IDLE_NODE.(status := s[n].status)
  }

  predicate Reachable(s: System, steps: seq<Step>, t: System)
    decreases |steps|
  {
    if steps == [] then s == t
    else Enabled(s, steps[0]) && Reachable(Next(s, steps[0]), steps[1..], t)
  }

  // ---------------------------------------------------------------- no order is lost

  ghost predicate NodeInvariant(s: System, n: ElevatorID) {
    var x := s[n];
    && (x.entry.Some? ==> forall i: ElevatorID :: x.entry.value.elevsReg[i] ==> i in x.heard)
    && (x.verdict != Undecided ==> x.choice.Some?)
    // A choice is an active elevator, and is made when every active elevator has been heard.
    && (x.choice.Some? ==> x.status[x.choice.value] && forall i: ElevatorID :: x.status[i] ==> i in x.heard)
    // The ballot holds what was announced, and is not yet unanimous.
    && (x.ballot.Some? ==>
          && x.verdict == Undecided
          && !Unanimous(x.status, x.ballot.value)
          && forall i: ElevatorID :: x.ballot.value.elevsReg[i] ==>
               Announced(s, i) && s[i].choice.value == x.ballot.value.choices[i])
    // An agreement was announced by every active elevator.
    && (x.verdict.Agreed? ==> forall i: ElevatorID :: x.status[i] ==> Announced(s, i) && s[i].choice == Some(x.verdict.elev))
  }

  ghost predicate Invariant(s: System) {
    forall n: ElevatorID :: NodeInvariant(s, n)
  }

  /** Announcements are final. */
  lemma ChoicesAreFinal(s: System, step: Step, i: ElevatorID)
    requires Invariant(s) && Enabled(s, step)
    ensures Next(s, step)[i].status == s[i].status
    ensures s[i].choice.Some? ==> Next(s, step)[i].choice == s[i].choice
  {
    assert NodeInvariant(s, i);
  }

  /** A check that makes the ballot unanimous comes from an active elevator, and all of them agree with it. */
  lemma UnanimousAgrees(s: System, n: ElevatorID, i: ElevatorID)
    requires NodeInvariant(s, n) && Enabled(s, CheckArrives(n, i))
    requires Unanimous(s[n].status, RegisterCheck(s[n].ballot, i, s[i].choice.value))
    ensures forall j: ElevatorID :: s[n].status[j] ==> Announced(s, j) && s[j].choice == s[i].choice
  {
    var x, k := s[n], s[i].choice.value;
    var b := RegisterCheck(x.ballot, i, k);
    assert b.choices[i] == k;
    if !x.status[i] {
      assert x.ballot.Some? && Unanimous(x.status, x.ballot.value);
    }
    forall j: ElevatorID | x.status[j] ensures Announced(s, j) && s[j].choice == Some(k) {
      assert b.elevsReg[j] && b.choices[j] == b.choices[i];
    }
  }

  /** The ballot after a check holds announcements, as the one before did. */
  lemma BallotHoldsAnnouncements(s: System, n: ElevatorID, i: ElevatorID)
    requires NodeInvariant(s, n) && Enabled(s, CheckArrives(n, i))
    ensures var b := RegisterCheck(s[n].ballot, i, s[i].choice.value);
            forall j: ElevatorID :: b.elevsReg[j] ==> Announced(s, j) && s[j].choice.value == b.choices[j]
  {
  }

  lemma OnCheckKeepsInvariant(s: System, n: ElevatorID, i: ElevatorID)
    requires NodeInvariant(s, n) && Enabled(s, CheckArrives(n, i))
    ensures NodeInvariant(Next(s, CheckArrives(n, i)), n)
  {
    var t := Next(s, CheckArrives(n, i));
    assert forall j: ElevatorID :: t[j].choice == s[j].choice && t[j].status == s[j].status;
    BallotHoldsAnnouncements(s, n, i);
    if Unanimous(s[n].status, RegisterCheck(s[n].ballot, i, s[i].choice.value)) {
      UnanimousAgrees(s, n, i);
    }
  }

  lemma OnCostKeepsInvariant(s: System, n: ElevatorID, i: ElevatorID, cost: int)
    requires Invariant(s) && Enabled(s, CostArrives(n, i, cost))
    ensures NodeInvariant(Next(s, CostArrives(n, i, cost)), n)
  {
    assert NodeInvariant(s, n);
    var r := RegisterCost(s[n].entry, i, cost);
    assert r.elevsReg[i];
    assert forall j: ElevatorID :: r.elevsReg[j] ==> j in s[n].heard + {i};
  }

  lemma StepKeepsInvariant(s: System, step: Step)
    requires Invariant(s) && Enabled(s, step)
    ensures Invariant(Next(s, step))
  {
    var t := Next(s, step);
    forall m: ElevatorID ensures NodeInvariant(t, m) {
      assert NodeInvariant(s, m);
      if m == step.node {
        match step
        case CostArrives(n, i, cost) => OnCostKeepsInvariant(s, n, i, cost);
        case CheckArrives(n, i) => OnCheckKeepsInvariant(s, n, i);
        case TimerFires(n) =>
      } else {
        forall i: ElevatorID
          ensures t[i].status == s[i].status && (s[i].choice.Some? ==> t[i].choice == s[i].choice)
        {
          ChoicesAreFinal(s, step, i);
        }
      }
    }
  }

  lemma {:induction false} InvariantHolds(s: System, steps: seq<Step>, t: System)
    requires Invariant(s) && Reachable(s, steps, t)
    ensures Invariant(t)
    decreases |steps|
  {
    if steps != [] {
      StepKeepsInvariant(s, steps[0]);
      InvariantHolds(Next(s, steps[0]), steps[1..], t);
    }
  }

  /**
   No order is lost at the decision. Whatever the views, the losses and the timers: once some node
   has announced a choice and all that have done so have decided, some node has assigned the order to
   itself.
   */
  lemma {:induction false} NoOrderLost(s: System, steps: seq<Step>, t: System, n: ElevatorID)
    requires Initial(s) && Reachable(s, steps, t)
    requires Announced(t, n)
    requires forall i: ElevatorID :: Announced(t, i) ==> t[i].verdict != Undecided
    ensures exists i: ElevatorID :: Takes(i, t[i].status, t[i].verdict)
  {
    InvariantHolds(s, steps, t);
    assert NodeInvariant(t, n);
    if t[n].verdict == Fallback {
      assert Takes(n, t[n].status, t[n].verdict);
    } else {
      var k := t[n].verdict.elev;
      assert NodeInvariant(t, k) && Announced(t, k) && t[k].choice == Some(k);
      assert Takes(k, t[k].status, t[k].verdict);
    }
  }
}
