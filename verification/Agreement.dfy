/**
 The decision of elevator/assigner.go when all goes well: the active elevators share one view, and
 every cost and every check reaches each of them once, in any order, before their timers fire.
 */
module Agreement {
  import opened Settings
  import opened Wrappers
  import opened Assigner
  import opened AssignmentProtocol

  /**
   A step of the well-behaved network. The costs of the active elevators, which are costs, and their
   checks reach every node whose view is st, be it active itself or not; a timer fires at most at a
   node that is not active.
   */
  predicate Orderly(s: System, step: Step, st: Flags, costs: Numbers) {
    Enabled(s, step) && s[step.node].status == st &&
    match step
    case CostArrives(n, i, cost) => st[i] && cost == costs[i]
    case CheckArrives(n, i) => st[i] && i !in s[n].got
    case TimerFires(n) => !st[n]
  }

  predicate OrderlyRun(s: System, steps: seq<Step>, t: System, st: Flags, costs: Numbers)
    decreases |steps|
  {
    if steps == [] then s == t
    else Orderly(s, steps[0], st, costs) && OrderlyRun(Next(s, steps[0]), steps[1..], t, st, costs)
  }

  predicate SharedView(s: System, st: Flags) {
    forall n: ElevatorID :: st[n] ==> s[n].status == st
  }

  /** Every active elevator is in got. */
  predicate Complete(st: Flags, got: set<ElevatorID>) {
    forall i: ElevatorID :: st[i] ==> i in got
  }

  /** What a node of the orderly run looks like, given only what has reached it. */
  ghost predicate AsExpected(x: Node, st: Flags, costs: Numbers)
    requires AnyActive(st)
  {
    var w := Cheapest(st, costs);
    && x.status == st
    && (forall i: ElevatorID :: i in x.heard || i in x.got ==> st[i])
    && x.choice == (if Complete(st, x.heard) then Some(w) else None)
    && x.verdict == (if Complete(st, x.got) then Agreed(w) else Undecided)
    && (x.got != {} ==> Complete(st, x.heard))
    && (!Complete(st, x.got) ==>
          && (x.entry.None? ==> x.heard == {})
          && (x.ballot.None? ==> x.got == {})
          && (x.entry.Some? ==> forall i: ElevatorID ::
                (x.entry.value.elevsReg[i] <==> i in x.heard) && (i in x.heard ==> x.entry.value.costs[i] == costs[i]))
          && (x.ballot.Some? ==> forall i: ElevatorID ::
                (x.ballot.value.elevsReg[i] <==> i in x.got) && (i in x.got ==> x.ballot.value.choices[i] == w)))
  }

  lemma {:induction false} CountStrictlySmaller(a: seq<bool>, b: seq<bool>)
    requires |a| == |b| && forall i :: 0 <= i < |a| ==> (a[i] ==> b[i])
    ensures Count(a) <= Count(b)
    ensures a != b ==> Count(a) < Count(b)
  {
    if a != [] {
      var k := |a| - 1;
      CountStrictlySmaller(a[..k], b[..k]);
      assert a[..k] == b[..k] && a[k] == b[k] ==> a == b by {
        assert a == a[..k] + [a[k]] && b == b[..k] + [b[k]];
      }
    }
  }

  /** The registered costs are complete exactly when all have been heard, and then give the cheapest. */
  lemma ChoiceAsExpected(r: Registration, heard: set<ElevatorID>, st: Flags, costs: Numbers)
    requires AnyActive(st) && forall j: ElevatorID :: j in heard ==> st[j]
    requires forall j: ElevatorID :: (r.elevsReg[j] <==> j in heard) && (j in heard ==> r.costs[j] == costs[j])
    ensures r.elevsReg == st <==> Complete(st, heard)
    ensures r.elevsReg == st ==> Cheapest(st, r.costs) == Cheapest(st, costs)
  {
    if Complete(st, heard) {
      assert r.elevsReg == st;
      assert IsCheapest(st, r.costs, Cheapest(st, costs));
      CheapestIsUnique(st, r.costs, Cheapest(st, costs), Cheapest(st, r.costs));
    } else {
      var j: ElevatorID :| st[j] && j !in heard;
      assert r.elevsReg != st;
    }
  }

  lemma CostAsExpected(x: Node, i: ElevatorID, st: Flags, costs: Numbers)
    requires AnyActive(st) && AsExpected(x, st, costs)
    requires i !in x.heard && st[i]
    ensures AsExpected(OnCost(x, i, costs[i]), st, costs)
  {
    assert !Complete(st, x.heard) && x.got == {} && !Complete(st, x.got);
    ChoiceAsExpected(RegisterCost(x.entry, i, costs[i]), x.heard + {i}, st, costs);
  }

  /** The ballot after another check of the cheapest elevator. */
  lemma BallotAsExpected(x: Node, i: ElevatorID, st: Flags, costs: Numbers)
    requires AnyActive(st) && AsExpected(x, st, costs)
    requires Waiting(x) && i !in x.got && st[i]
    ensures var b := RegisterCheck(x.ballot, i, Cheapest(st, costs));
            && (forall j: ElevatorID :: b.elevsReg[j] <==> j in x.got + {i})
            && (forall j: ElevatorID :: j in x.got + {i} ==> b.choices[j] == Cheapest(st, costs))
  {
  }

  /** The verdict is reached with the last check, and not before: agreement or, at once, the fallback. */
  lemma JudgedAtLastCheck(b: Ballot, k: ElevatorID, got: set<ElevatorID>, st: Flags)
    requires AnyActive(st) && forall j: ElevatorID :: j in got ==> st[j]
    requires forall j: ElevatorID :: b.elevsReg[j] <==> j in got
    ensures Judge(st, b, k) == if !Complete(st, got) then Undecided
                               else if SameChoices(st, b) then Agreed(k) else Fallback
  {
    if Complete(st, got) {
      assert b.elevsReg == st;
    } else {
      var j: ElevatorID :| st[j] && j !in got;
      assert !b.elevsReg[j] && !AllRegistered(st, b);
      CountStrictlySmaller(b.elevsReg, st);
    }
  }

  lemma CheckAsExpected(x: Node, i: ElevatorID, st: Flags, costs: Numbers)
    requires AnyActive(st) && AsExpected(x, st, costs)
    requires Waiting(x) && i !in x.got && st[i]
    ensures AsExpected(OnCheck(x, i, Cheapest(st, costs)), st, costs)
  {
    var w := Cheapest(st, costs);
    var b := RegisterCheck(x.ballot, i, w);
    BallotAsExpected(x, i, st, costs);
    JudgedAtLastCheck(b, w, x.got + {i}, st);
    assert Complete(st, x.got + {i}) ==> SameChoices(st, b);
  }

  /** An active node is as expected, and so is an inactive one with the view st, unless its timer has fired. */
  ghost predicate NodeAsExpected(x: Node, active: bool, st: Flags, costs: Numbers)
    requires AnyActive(st)
  {
    if active then AsExpected(x, st, costs)
    else if x.status == st then x.verdict == Fallback || AsExpected(x, st, costs)
    else x.verdict == Undecided
  }

  ghost predicate AllAsExpected(s: System, st: Flags, costs: Numbers)
    requires AnyActive(st)
  {
    forall n: ElevatorID :: NodeAsExpected(s[n], st[n], st, costs)
  }

  lemma OneNodeAsExpected(s: System, n: ElevatorID, x: Node, st: Flags, costs: Numbers)
    requires AnyActive(st) && AllAsExpected(s, st, costs) && NodeAsExpected(x, st[n], st, costs)
    ensures AllAsExpected(s[n := x], st, costs)
  {
    var t: System := s[n := x];
    forall m: ElevatorID ensures NodeAsExpected(t[m], st[m], st, costs) {
      assert t[m] == if m == n then x else s[m];
    }
  }

  lemma StepAsExpected(s: System, step: Step, st: Flags, costs: Numbers)
    requires AnyActive(st) && AllAsExpected(s, st, costs) && Orderly(s, step, st, costs)
    ensures AllAsExpected(Next(s, step), st, costs)
  {
    var x := s[step.node];
    assert NodeAsExpected(x, st[step.node], st, costs);
    match step
    case CostArrives(n, i, cost) =>
      if x.verdict != Fallback { CostAsExpected(x, i, st, costs); }
      OneNodeAsExpected(s, n, OnCost(x, i, cost), st, costs);
    case CheckArrives(n, i) =>
      assert s[i].choice == Some(Cheapest(st, costs)) by { assert NodeAsExpected(s[i], true, st, costs); }
      CheckAsExpected(x, i, st, costs);
      OneNodeAsExpected(s, n, OnCheck(x, i, Cheapest(st, costs)), st, costs);
    case TimerFires(n) =>
      OneNodeAsExpected(s, n, Decide(x, Fallback), st, costs);
  }

  lemma {:induction false} RunAsExpected(s: System, steps: seq<Step>, t: System, st: Flags, costs: Numbers)
    requires AnyActive(st) && AllAsExpected(s, st, costs) && OrderlyRun(s, steps, t, st, costs)
    ensures AllAsExpected(t, st, costs)
    decreases |steps|
  {
    if steps != [] {
      StepAsExpected(s, steps[0], st, costs);
      RunAsExpected(Next(s, steps[0]), steps[1..], t, st, costs);
    }
  }

  lemma StartAsExpected(s: System, st: Flags, costs: Numbers)
    requires AnyActive(st) && Initial(s) && SharedView(s, st)
    ensures AllAsExpected(s, st, costs)
  {
    var i: ElevatorID :| st[i];
    forall n: ElevatorID ensures NodeAsExpected(s[n], st[n], st, costs) {
      assert i !in s[n].heard && i !in s[n].got;
    }
  }

  lemma TakesIff(x: Node, n: ElevatorID, st: Flags, costs: Numbers)
    requires AnyActive(st) && NodeAsExpected(x, st[n], st, costs)
    requires st[n] ==> x.verdict != Undecided
    ensures Takes(n, x.status, x.verdict) <==> n == Cheapest(st, costs)
  {
  }

  /**
   Agreement. At every moment of an orderly run each active node has announced the cheapest
   elevator exactly if all costs have reached it, has agreed on it exactly if all checks have, and
   never falls back. When they all have decided, exactly that elevator takes the order; a node that
   is not active takes nothing, although it collects costs and checks, and decides, like the others.
   */
  lemma {:induction false} ActiveElevatorsAgree(s: System, steps: seq<Step>, t: System, st: Flags, costs: Numbers)
    requires AnyActive(st) && Initial(s) && SharedView(s, st) && OrderlyRun(s, steps, t, st, costs)
    ensures var w := Cheapest(st, costs);
            && (forall n: ElevatorID :: st[n] ==>
                  && t[n].choice == (if Complete(st, t[n].heard) then Some(w) else None)
                  && t[n].verdict == (if Complete(st, t[n].got) then Agreed(w) else Undecided))
            && ((forall n: ElevatorID :: st[n] ==> t[n].verdict != Undecided) ==>
                  forall n: ElevatorID :: Takes(n, t[n].status, t[n].verdict) <==> n == w)
  {
    StartAsExpected(s, st, costs);
    RunAsExpected(s, steps, t, st, costs);
    forall n: ElevatorID | st[n]
      ensures t[n].choice == if Complete(st, t[n].heard) then Some(Cheapest(st, costs)) else None
      ensures t[n].verdict == if Complete(st, t[n].got) then Agreed(Cheapest(st, costs)) else Undecided
    {
      assert NodeAsExpected(t[n], true, st, costs);
    }
    if forall n: ElevatorID :: st[n] ==> t[n].verdict != Undecided {
      forall n: ElevatorID ensures Takes(n, t[n].status, t[n].verdict) <==> n == Cheapest(st, costs) {
        TakesIff(t[n], n, st, costs);
      }
    }
  }
}
