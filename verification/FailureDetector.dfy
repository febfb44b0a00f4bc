/**
 ConnectionCheck of elevator/networkCheck.go: an elevator counts as connected until too many ticks
 of its timer have passed without an awake message. The three slices of the source are proved to be
 functions of one number, the ticks since the last awake message.
 */
module FailureDetector {
  import opened Settings
  import opened Wrappers

  /** What happens to the entry of one elevator. */
  datatype Beat = Awake | Tick

  /** Ticks since the last awake message; None if there was none. */
  function SinceAwake(h: seq<Beat>): Option<nat>
    decreases |h|
  {
    if h == [] then None
    else
      var before := SinceAwake(h[..|h| - 1]);
      if h[|h| - 1] == Awake then Some(0)
      else if before.Some? then Some(before.value + 1) else None
  }

  /** Connected: heard of, and at most CONNECTION_CHECK_THRESHOLD ticks ago. */
  predicate Connected(h: seq<Beat>) {
    SinceAwake(h).Some? && SinceAwake(h).value <= CONNECTION_CHECK_THRESHOLD
  }

  /** The connection event published at the last beat of h, if any. */
  function Published(h: seq<Beat>): Option<bool>
    requires h != []
  {
    var before := h[..|h| - 1];
    if Connected(h) && !Connected(before) then Some(true)
    else if !Connected(h) && Connected(before) then Some(false)
    else None
  }

  /** The beat takes effect: an elevator that was never heard of has no running timer. */
  predicate Possible(h: seq<Beat>, b: Beat) {
    b == Awake || SinceAwake(h).Some?
  }

  lemma {:induction false} SinceAwakeStep(h: seq<Beat>, b: Beat)
    ensures SinceAwake(h + [b])
            == if b == Awake then Some(0) else if SinceAwake(h).Some? then Some(SinceAwake(h).value + 1) else None
  {
    assert (h + [b])[..|h|] == h;
  }

  // ---------------------------------------------------------------- the module

  class ConnectionCheck {
    const self: ElevatorID
    const connectionStatus: array<bool>
    const receivedFlag: array<bool>
    const consecutiveLosses: array<int>
    ghost var histories: seq<seq<Beat>>

    ghost predicate Shape()
      reads this
    {
      && connectionStatus.Length == receivedFlag.Length == consecutiveLosses.Length == |histories| == ELEVATOR_MAX_NUM
      && connectionStatus != receivedFlag
    }

    /** The entries of elevator i are what its history makes them. */
    ghost predicate Consistent(i: ElevatorID)
      requires Shape()
      reads this, connectionStatus, receivedFlag, consecutiveLosses
    {
      var k := SinceAwake(histories[i]);
      && connectionStatus[i] == Connected(histories[i])
      && receivedFlag[i] == (k == Some(0))
      && (k.Some? ==> consecutiveLosses[i] == if k.value == 0 then 0 else k.value - 1)
    }

    ghost predicate Valid()
      reads this, connectionStatus, receivedFlag, consecutiveLosses
    {
      Shape() && forall i: ElevatorID :: Consistent(i)
    }

    constructor (id: ElevatorID)
      ensures Valid() && self == id
      ensures forall i: ElevatorID :: histories[i] == []
      ensures fresh(connectionStatus) && fresh(receivedFlag) && fresh(consecutiveLosses)
    {
      self := id;
      connectionStatus := new bool[ELEVATOR_MAX_NUM](_ => false);
      receivedFlag := new bool[ELEVATOR_MAX_NUM](_ => false);
      consecutiveLosses := new int[ELEVATOR_MAX_NUM](_ => 0);
      histories := seq(ELEVATOR_MAX_NUM, _ => []);
    }

    /** An awake message; the elevator's own messages are ignored. */
    method OnAwake(elev: ElevatorID) returns (event: Option<bool>)
      requires Valid()
      modifies this`histories, connectionStatus, receivedFlag, consecutiveLosses
      ensures Valid()
      ensures histories == if elev == self then old(histories) else old(histories)[elev := old(histories)[elev] + [Awake]]
      ensures event == if elev == self then None else Published(histories[elev])
    {
      event := None;
      if elev != self {
        assert Consistent(elev);
        SinceAwakeStep(histories[elev], Awake);
        assert (histories[elev] + [Awake])[..|histories[elev]|] == histories[elev];
        histories := histories[elev := histories[elev] + [Awake]];
        receivedFlag[elev] := true;
        consecutiveLosses[elev] := 0;
        if !connectionStatus[elev] {
          connectionStatus[elev] := true;
          event := Some(true);
        }
        forall i: ElevatorID ensures Consistent(i) {
          assert old(Consistent(i));
        }
      }
    }

    /** The timer of an elevator fires. */
    method OnTick(elev: ElevatorID) returns (event: Option<bool>)
      requires Valid() && Possible(histories[elev], Tick)
      modifies this`histories, connectionStatus, receivedFlag, consecutiveLosses
      ensures Valid()
      ensures histories == old(histories)[elev := old(histories)[elev] + [Tick]]
      ensures event == Published(histories[elev])
    {
      event := None;
      assert Consistent(elev);
      SinceAwakeStep(histories[elev], Tick);
      assert (histories[elev] + [Tick])[..|histories[elev]|] == histories[elev];
      histories := histories[elev := histories[elev] + [Tick]];
      if !receivedFlag[elev] {
        consecutiveLosses[elev] := consecutiveLosses[elev] + 1;
        if consecutiveLosses[elev] == CONNECTION_CHECK_THRESHOLD {
          connectionStatus[elev] := false;
          event := Some(false);
        }
      }
      receivedFlag[elev] := false;
      forall i: ElevatorID ensures Consistent(i) {
        assert old(Consistent(i));
      }
    }
  }

  // ---------------------------------------------------------------- whole histories

  /** The connection events published over a history. */
  function Events(h: seq<Beat>): (es: seq<bool>)
    decreases |h|
  {
    if h == [] then []
    else Events(h[..|h| - 1]) + if Published(h).Some? then [Published(h).value] else []
  }

  /** Connects and disconnects alternate, beginning with a connect. */
  lemma {:induction false} EventsAlternate(h: seq<Beat>)
    ensures forall k :: 0 <= k < |Events(h)| ==> Events(h)[k] == (k % 2 == 0)
    ensures Connected(h) <==> |Events(h)| % 2 == 1
    decreases |h|
  {
    if h != [] {
      EventsAlternate(h[..|h| - 1]);
    }
  }

  /** The last n beats of h are ticks, and the one before them is an awake message. */
  predicate SilentFor(h: seq<Beat>, n: nat) {
    n < |h| && h[|h| - 1 - n] == Awake && forall j :: |h| - n <= j < |h| ==> h[j] == Tick
  }

  lemma {:induction false} SilenceCounted(h: seq<Beat>, n: nat)
    ensures SilentFor(h, n) <==> SinceAwake(h) == Some(n)
    decreases |h|
  {
    if h != [] {
      var before := h[..|h| - 1];
      if n > 0 {
        SilenceCounted(before, n - 1);
        assert h[|h| - 1] == Tick && SilentFor(before, n - 1) ==> SilentFor(h, n);
      }
    }
  }

  /**
   A disconnect is published exactly at the tick that is number CONNECTION_CHECK_THRESHOLD + 1 after
   the last awake message; a connect exactly at an awake message that finds the elevator disconnected.
   */
  lemma EventsExactly(h: seq<Beat>)
    requires h != []
    ensures Published(h) == Some(false) <==> SilentFor(h, CONNECTION_CHECK_THRESHOLD + 1)
    ensures Published(h) == Some(true) <==> h[|h| - 1] == Awake && !Connected(h[..|h| - 1])
  {
    SilenceCounted(h, CONNECTION_CHECK_THRESHOLD + 1);
  }
}
