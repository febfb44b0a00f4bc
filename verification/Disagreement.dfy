/**
 The decision of elevator/assigner.go seen from one node that receives every active elevator's check
 once: whatever the others do, and whatever the costs were, it decides with the last check, by
 agreement or by falling back, and does not need its timer.
 */
module Disagreement {
  import opened Settings
  import opened Wrappers
  import opened Assigner
  import opened AssignmentProtocol
  import opened Agreement

  /** A step that is fair to node n: only checks of elevators active in its view, each once, and no timer. */
  predicate Fair(s: System, step: Step, n: ElevatorID) {
    && Enabled(s, step)
    && (step.node == n ==>
          match step
          case CostArrives(_, _, _) => true
          case CheckArrives(_, i) => s[n].status[i] && i !in s[n].got
          case TimerFires(_) => false)
  }

  predicate FairRun(s: System, steps: seq<Step>, t: System, n: ElevatorID)
    decreases |steps|
  {
    if steps == [] then s == t
    else Fair(s, steps[0], n) && FairRun(Next(s, steps[0]), steps[1..], t, n)
  }

  /** Every elevator active in the view st has announced k. */
  predicate AllChose(s: System, st: Flags, k: ElevatorID) {
    forall i: ElevatorID :: st[i] ==> s[i].choice == Some(k)
  }

  /** v is the verdict on the announcements of the elevators active in st: theirs if they agree, else to fall back. */
  predicate IsOutcome(s: System, st: Flags, v: Verdict) {
    match v
    case Agreed(k) => AllChose(s, st, k)
    case Fallback => !exists k: ElevatorID :: AllChose(s, st, k)
    case Undecided => false
  }

  predicate DecidedInTime(s: System, n: ElevatorID) {
    if Complete(s[n].status, s[n].got) then IsOutcome(s, s[n].status, s[n].verdict) else s[n].verdict == Undecided
  }

  /** The checks that have reached n are announcements, and its ballot holds exactly them until it decides. */
  ghost predicate BallotFollows(s: System, n: ElevatorID) {
    var x := s[n];
    && (forall i: ElevatorID :: i in x.got ==> x.status[i] && Announced(s, i))
    && (x.choice.None? ==> x.got == {} && x.verdict == Undecided)
    && (x.choice.Some? ==> DecidedInTime(s, n))
    && (x.verdict == Undecided ==>
          && (x.ballot.None? ==> x.got == {})
          && (x.ballot.Some? ==> forall i: ElevatorID ::
                && (x.ballot.value.elevsReg[i] <==> i in x.got)
                && (i in x.got ==> s[i].choice == Some(x.ballot.value.choices[i]))))
  }

  /** The ballot after one more check holds exactly the checks so far. */
  lemma BallotAfterCheck(s: System, n: ElevatorID, i: ElevatorID)
    requires BallotFollows(s, n) && Fair(s, CheckArrives(n, i), n)
    ensures var b := RegisterCheck(s[n].ballot, i, s[i].choice.value);
            forall j: ElevatorID :: (b.elevsReg[j] <==> j in s[n].got + {i})
                                    && (j in s[n].got + {i} ==> s[j].choice == Some(b.choices[j]))
  {
  }

  /** A complete ballot has the same choices exactly if all have announced the same. */
  lemma SameChoicesIff(s: System, st: Flags, b: Ballot, i: ElevatorID)
    requires st[i] && forall j: ElevatorID :: st[j] ==> s[j].choice == Some(b.choices[j])
    ensures SameChoices(st, b) ==> AllChose(s, st, s[i].choice.value)
    ensures !SameChoices(st, b) ==> !exists k: ElevatorID :: AllChose(s, st, k)
  {
  }

  lemma CheckDecidesInTime(s: System, n: ElevatorID, i: ElevatorID)
    requires Invariant(s) && BallotFollows(s, n) && Fair(s, CheckArrives(n, i), n)
    ensures BallotFollows(Next(s, CheckArrives(n, i)), n)
  {
    var t := Next(s, CheckArrives(n, i));
    var st, got, b := s[n].status, s[n].got + {i}, RegisterCheck(s[n].ballot, i, s[i].choice.value);
    assert forall j: ElevatorID :: t[j].choice == s[j].choice && t[j].status == s[j].status;
    assert t[n].got == got && forall j: ElevatorID :: j in got ==> st[j];
    BallotAfterCheck(s, n, i);
    JudgedAtLastCheck(b, s[i].choice.value, got, st);
    if Complete(st, got) {
      SameChoicesIff(s, st, b, i);
      assert forall k: ElevatorID :: AllChose(t, st, k) <==> AllChose(s, st, k);
    }
  }

  lemma StepDecidesInTime(s: System, step: Step, n: ElevatorID)
    requires Invariant(s) && BallotFollows(s, n) && Fair(s, step, n)
    ensures BallotFollows(Next(s, step), n)
  {
    var t := Next(s, step);
    assert NodeInvariant(s, n);
    forall i: ElevatorID
      ensures t[i].status == s[i].status && (s[i].choice.Some? ==> t[i].choice == s[i].choice)
    {
      ChoicesAreFinal(s, step, i);
    }
    if step.CheckArrives? && step.node == n {
      CheckDecidesInTime(s, n, step.from);
    } else if Complete(s[n].status, s[n].got) {
      assert forall k: ElevatorID :: AllChose(t, s[n].status, k) <==> AllChose(s, s[n].status, k);
    }
  }

  lemma {:induction false} RunDecidesInTime(s: System, steps: seq<Step>, t: System, n: ElevatorID)
    requires Invariant(s) && BallotFollows(s, n) && FairRun(s, steps, t, n)
    ensures Invariant(t) && BallotFollows(t, n)
    decreases |steps|
  {
    if steps != [] {
      StepKeepsInvariant(s, steps[0]);
      StepDecidesInTime(s, steps[0], n);
      RunDecidesInTime(Next(s, steps[0]), steps[1..], t, n);
    }
  }

  /**
   Whatever the views and the costs of the others: a node that has chosen, and receives every active
   elevator's check once, is undecided until the last of them, and decided with it, without its timer:
   on what all have announced, or, if they disagree, on the fallback.
   */
  lemma {:induction false} DecidedWithoutTimer(s: System, steps: seq<Step>, t: System, n: ElevatorID)
    requires Initial(s) && FairRun(s, steps, t, n) && t[n].choice.Some?
    ensures DecidedInTime(t, n)
  {
    RunDecidesInTime(s, steps, t, n);
  }

  /** Nodes with one view that both have all the checks decide the same, even when the announcements differ. */
  lemma {:induction false} SameVerdict(s: System, steps: seq<Step>, t: System, n: ElevatorID, m: ElevatorID)
    requires Initial(s) && FairRun(s, steps, t, n) && FairRun(s, steps, t, m)
    requires t[n].choice.Some? && t[m].choice.Some? && t[n].status == t[m].status
    requires Complete(t[n].status, t[n].got) && Complete(t[m].status, t[m].got)
    ensures t[n].verdict == t[m].verdict != Undecided
  {
    RunDecidesInTime(s, steps, t, n);
    RunDecidesInTime(s, steps, t, m);
    assert NodeInvariant(t, n);
    var k := t[n].choice.value;
    assert t[n].status[k];
    assert forall a: ElevatorID, b: ElevatorID :: AllChose(t, t[n].status, a) && AllChose(t, t[n].status, b) ==>
                                                    t[k].choice == Some(a) && a == b;
  }
}
