/**
 Acknowledged broadcast of elevator/networkTX.go and elevator/networkRX.go: one packet is sent and
 resent until enough elevators have acknowledged it, over a channel that may lose, repeat, delay and
 reorder packets and acknowledgements.
 */
module AckedBroadcast {
  import opened Settings
  import opened PacketWindow
  import opened ExactlyOnce
  import Transmitter

  // ---------------------------------------------------------------- handleSend

  datatype Sender = Sender(
    numElevators: nat, attempts: nat, sent: nat, ackReg: set<ElevatorID>,
    running: bool, timerArmed: bool, signalled: bool)

  function Sending(numElevators: nat): Sender {
    Sender(numElevators, 0, 1, {}, numElevators != 0, true, false)
  }

  function AfterTimeout(x: Sender): Sender {
    if x.attempts < ACK_ATTEMPTS then x.(attempts := x.attempts + 1, sent := x.sent + 1) else x.(timerArmed := false)
  }

  function AfterAck(x: Sender, elev: ElevatorID): Sender {
    var reg := x.ackReg + {elev};
    if |reg| >= x.numElevators then x.(ackReg := reg, running := false, signalled := true) else x.(ackReg := reg)
  }

  /** The routine that sends one packet. */
  class SendRoutine {
    const numElevators: nat
    var attempts: nat
    var sent: nat
    var ackReg: set<ElevatorID>
    var running: bool
    var timerArmed: bool
    /** The routine has sent its packet ID to doneAckCh. */
    var signalled: bool

    function State(): Sender
      reads this
    {
      Sender(numElevators, attempts, sent, ackReg, running, timerArmed, signalled)
    }

    /** The packet is sent once; if nobody is expected to answer, that is all. */
    constructor (numElevators: nat)
      ensures State() == Sending(numElevators)
    {
      this.numElevators := numElevators;
      attempts, sent, ackReg := 0, 1, {};
      running, timerArmed, signalled := numElevators != 0, true, false;
    }

    /** The timeout: the packet is resent until the attempts are used up; then the timer stays off. */
    method OnTimeout() returns (resend: bool)
      requires running && timerArmed
      modifies this
      ensures State() == AfterTimeout(old(State()))
      ensures resend <==> old(attempts) < ACK_ATTEMPTS
    {
      resend := false;
      timerArmed := false;
      if attempts < ACK_ATTEMPTS {
        attempts := attempts + 1;
        timerArmed := true;
        sent := sent + 1;
        resend := true;
      }
    }

    /** An acknowledgement; done is signalled when enough different elevators have answered. */
    method OnAck(elev: ElevatorID) returns (done: bool)
      requires running
      modifies this
      ensures State() == AfterAck(old(State()), elev)
      ensures done <==> |ackReg| >= numElevators
    {
      done := false;
      ackReg := ackReg + {elev};
      if |ackReg| >= numElevators {
        done := true;
        running, signalled := false, true;
      }
    }
  }

  // ---------------------------------------------------------------- the network

  /**
   The packet that is sent and the number its sender gives next, what every elevator's Receiver has
   accepted, which elevators have published the packet since it was sent, and whose acknowledgements
   of it are in the network.
   */
  datatype Net = Net(
    packet: Packet, next: nat, sender: Sender,
    accepted: map<ElevatorID, seq<Packet>>, published: set<ElevatorID>, acks: set<ElevatorID>)

  datatype Action =
    | Timeout
    | NextSent
    | Arrives(at: ElevatorID, p: Packet)
    | AckArrives(from: ElevatorID)

  function AcceptedAt(n: Net, at: ElevatorID): seq<Packet> {
    if at in n.accepted then n.accepted[at] else []
  }

  /**
   Any copy of the packet can arrive anywhere at any time, and so can any packet of another elevator,
   every packet of its sender that is still in flight, and any acknowledgement that was sent; RXack
   drops the elevator's own. The run lasts as long as the packet is in flight.
   */
  predicate Enabled(n: Net, a: Action) {
    match a
    case Timeout => n.sender.running && n.sender.timerArmed
    case NextSent => n.next < n.packet.number + 256
    case Arrives(at, p) => p.sender == n.packet.sender ==> Transmitter.InFlight(n.next, p)
    case AckArrives(from) => n.sender.running && from in n.acks && from != n.packet.sender
  }

  /** Receiver ignores the elevator's own packets; it acknowledges every other, and publishes if new. */
  function Act(n: Net, a: Action): Net {
    match a
    case Timeout => n.(sender := AfterTimeout(n.sender))
    case NextSent => n.(next := n.next + 1)
    case Arrives(at, p) =>
      if at == p.sender then n
      else
        var before := AcceptedAt(n, at);
        var m := n.(accepted := n.accepted[at := Receive(before, p)]);
        if p != n.packet then m
        else
          m.(acks := n.acks + {at},
             published := if PacketID(p) in Window(IDs(before)) then n.published else n.published + {at})
    case AckArrives(from) => n.(sender := AfterAck(n.sender, from))
  }

  /** The packet is sent; nobody has published or acknowledged it. */
  predicate JustSent(n: Net, numElevators: nat) {
    && n.sender == Sending(numElevators)
    && n.next == n.packet.number + 1
    && n.published == {} && n.acks == {}
  }

  /** No other elevator's window holds the ID, of an older packet with the same ID. */
  predicate UnknownToOthers(n: Net) {
    forall i: ElevatorID :: i != n.packet.sender ==> PacketID(n.packet) !in Window(IDs(AcceptedAt(n, i)))
  }

  predicate Start(n: Net, numElevators: nat) {
    JustSent(n, numElevators) && UnknownToOthers(n)
  }

  predicate Leads(n: Net, acts: seq<Action>, m: Net)
    decreases |acts|
  {
    if acts == [] then n == m
    else Enabled(n, acts[0]) && Leads(Act(n, acts[0]), acts[1..], m)
  }

  /** Every other elevator that remembers the packet has published it. */
  ghost predicate RememberedIsPublished(n: Net) {
    forall i: ElevatorID :: i != n.packet.sender && PacketID(n.packet) in Window(IDs(AcceptedAt(n, i))) ==> i in n.published
  }

  ghost predicate SenderInvariant(n: Net) {
    && Transmitter.InFlight(n.next, n.packet)
    && n.acks <= n.published
    && n.sender.ackReg <= n.acks - {n.packet.sender}
    && n.sender.sent == 1 + n.sender.attempts && n.sender.attempts <= ACK_ATTEMPTS
    && (n.sender.signalled ==> !n.sender.running && |n.sender.ackReg| >= n.sender.numElevators)
  }

  ghost predicate Invariant(n: Net) {
    SenderInvariant(n) && RememberedIsPublished(n)
  }

  lemma {:induction false} ReceiveBringsOnly(accepted: seq<Packet>, p: Packet, id: int)
    ensures id in Window(IDs(Receive(accepted, p))) ==> id == PacketID(p) || id in Window(IDs(accepted))
  {
    if PacketID(p) !in Window(IDs(accepted)) {
      assert IDs(accepted + [p]) == IDs(accepted) + [PacketID(p)];
      WindowStep(IDs(accepted), PacketID(p));
    }
  }

  lemma ActKeepsSenderInvariant(n: Net, a: Action)
    requires Invariant(n) && Enabled(n, a)
    ensures SenderInvariant(Act(n, a))
  {
  }

  lemma ArrivalKeepsPublished(n: Net, at: ElevatorID, p: Packet)
    requires Invariant(n) && Enabled(n, Arrives(at, p)) && at != p.sender
    ensures RememberedIsPublished(Act(n, Arrives(at, p)))
  {
    var m, id := Act(n, Arrives(at, p)), PacketID(n.packet);
    forall i: ElevatorID | i != n.packet.sender && id in Window(IDs(AcceptedAt(m, i))) ensures i in m.published {
      if i != at {
        assert AcceptedAt(m, i) == AcceptedAt(n, i);
      } else if p != n.packet {
        Transmitter.InFlightIDsDiffer(n.next, p, n.packet);
        ReceiveBringsOnly(AcceptedAt(n, at), p, id);
        assert id in Window(IDs(AcceptedAt(n, at)));
      }
    }
  }

  lemma ActKeepsInvariant(n: Net, a: Action)
    requires Invariant(n) && Enabled(n, a)
    ensures Invariant(Act(n, a))
  {
    ActKeepsSenderInvariant(n, a);
    if a.Arrives? && a.at != a.p.sender {
      ArrivalKeepsPublished(n, a.at, a.p);
    } else {
      var m := Act(n, a);
      assert m.accepted == n.accepted && m.published == n.published && m.packet == n.packet;
      assert forall i: ElevatorID :: AcceptedAt(m, i) == AcceptedAt(n, i);
    }
  }

  lemma {:induction false} InvariantHolds(n: Net, acts: seq<Action>, m: Net)
    requires Invariant(n) && Leads(n, acts, m)
    ensures Invariant(m) && m.sender.numElevators == n.sender.numElevators && m.packet == n.packet
    decreases |acts|
  {
    if acts != [] {
      ActKeepsInvariant(n, acts[0]);
      InvariantHolds(Act(n, acts[0]), acts[1..], m);
    }
  }

  lemma SubsetSize<T>(a: set<T>, b: set<T>)
    requires a <= b
    ensures |a| <= |b|
  {
    assert b == a + (b - a);
  }

  /** Who has been registered has published; a done sender has registered enough. */
  lemma RegisteredHavePublished(m: Net)
    requires Invariant(m)
    ensures m.sender.ackReg <= m.published - {m.packet.sender}
    ensures m.sender.signalled ==> |m.published - {m.packet.sender}| >= m.sender.numElevators
  {
    SubsetSize(m.sender.ackReg, m.published - {m.packet.sender});
  }

  lemma StartIsInvariant(n: Net, numElevators: nat)
    requires Start(n, numElevators)
    ensures Invariant(n) && n.sender.numElevators == numElevators
  {
  }

  /**
   Ack soundness. When the sender signals done, at least numElevators different other elevators have
   published the packet; and it has been transmitted at most 1 + ACK_ATTEMPTS times at any moment.
   */
  lemma {:induction false} AckSoundness(n: Net, numElevators: nat, acts: seq<Action>, m: Net)
    requires Start(n, numElevators) && Leads(n, acts, m)
    ensures m.sender.sent <= 1 + ACK_ATTEMPTS
    ensures m.sender.ackReg <= m.published - {m.packet.sender}
    ensures m.sender.signalled ==> |m.published - {m.packet.sender}| >= numElevators
  {
    StartIsInvariant(n, numElevators);
    InvariantHolds(n, acts, m);
    RegisteredHavePublished(m);
  }

  // ---------------------------------------------------------------- when the sender is done

  /** The elevators whose acknowledgements have reached the sender. */
  function AckedBy(acts: seq<Action>): set<ElevatorID> {
    if acts == [] then {}
    else (if acts[0].AckArrives? then {acts[0].from} else {}) + AckedBy(acts[1..])
  }

  function Timeouts(acts: seq<Action>): nat {
    if acts == [] then 0 else (if acts[0].Timeout? then 1 else 0) + Timeouts(acts[1..])
  }

  /** The register, the flags and the counters are what the run so far makes them. */
  ghost predicate SenderFollows(x: Sender, numElevators: nat, acked: set<ElevatorID>, timeouts: nat) {
    && x.numElevators == numElevators
    && x.ackReg == acked
    && (x.signalled <==> numElevators > 0 && |acked| >= numElevators)
    && (x.running <==> numElevators > 0 && |acked| < numElevators)
    && timeouts <= ACK_ATTEMPTS + 1
    && x.attempts == (if timeouts <= ACK_ATTEMPTS then timeouts else ACK_ATTEMPTS)
    && x.sent == 1 + x.attempts
    && (x.timerArmed <==> timeouts <= ACK_ATTEMPTS)
  }

  lemma SenderFollowsStep(n: Net, a: Action, numElevators: nat, acked: set<ElevatorID>, timeouts: nat)
    requires Enabled(n, a) && SenderFollows(n.sender, numElevators, acked, timeouts)
    ensures var more := if a.AckArrives? then acked + {a.from} else acked;
            SenderFollows(Act(n, a).sender, numElevators, more, if a.Timeout? then timeouts + 1 else timeouts)
  {
  }

  lemma {:induction false} SenderFollowsRun(
    n: Net, acts: seq<Action>, m: Net, acked: set<ElevatorID>, timeouts: nat, all: set<ElevatorID>)
    requires Leads(n, acts, m) && SenderFollows(n.sender, n.sender.numElevators, acked, timeouts)
    requires all == acked + AckedBy(acts)
    ensures SenderFollows(m.sender, n.sender.numElevators, all, timeouts + Timeouts(acts))
    decreases |acts|
  {
    if acts == [] {
      assert all == acked;
    } else {
      var a := acts[0];
      SenderFollowsStep(n, a, n.sender.numElevators, acked, timeouts);
      SenderFollowsRun(
        Act(n, a), acts[1..], m,
        if a.AckArrives? then acked + {a.from} else acked, if a.Timeout? then timeouts + 1 else timeouts, all);
    }
  }

  /**
   Enough acknowledgements make a packet done. On every run the register holds exactly the elevators
   whose acknowledgements have arrived, done is signalled exactly when they are enough, and the packet
   has been sent again at each timeout as long as attempts are left.
   */
  lemma {:induction false} DoneIff(n: Net, numElevators: nat, acts: seq<Action>, m: Net)
    requires JustSent(n, numElevators) && Leads(n, acts, m)
    ensures m.sender.ackReg == AckedBy(acts)
    ensures m.sender.signalled <==> numElevators > 0 && |AckedBy(acts)| >= numElevators
    ensures m.sender.sent == 1 + if Timeouts(acts) <= ACK_ATTEMPTS then Timeouts(acts) else ACK_ATTEMPTS
    ensures Timeouts(acts) <= ACK_ATTEMPTS + 1
  {
    SenderFollowsRun(n, acts, m, {}, 0, AckedBy(acts));
  }

  // ---------------------------------------------------------------- when acknowledgements can be trusted

  /** Every elevator that the sender has registered has published the packet, however the run goes. */
  ghost predicate AlwaysSound(n: Net) {
    forall acts, m :: Leads(n, acts, m) ==> m.sender.ackReg <= m.published - {m.packet.sender}
  }

  /** A receiver that remembers the ID acknowledges the packet and does not publish it. */
  lemma AcknowledgedUnpublished(n: Net, numElevators: nat, r: ElevatorID) returns (m: Net)
    requires JustSent(n, numElevators) && numElevators > 0
    requires r != n.packet.sender && PacketID(n.packet) in Window(IDs(AcceptedAt(n, r)))
    ensures Leads(n, [Arrives(r, n.packet), AckArrives(r)], m)
    ensures m.published == {} && m.sender.ackReg == {r}
    ensures m.sender.signalled <==> numElevators == 1
  {
    var acts := [Arrives(r, n.packet), AckArrives(r)];
    var d := Act(n, acts[0]);
    m := Act(d, acts[1]);
    assert acts[1..] == [acts[1]] && acts[1..][1..] == [];
    assert Leads(m, [], m) && Leads(d, acts[1..], m);
  }

  /** Acknowledgements mean publication exactly if no other elevator's window holds the ID of the new packet. */
  lemma SoundIff(n: Net, numElevators: nat)
    requires JustSent(n, numElevators) && numElevators > 0
    ensures AlwaysSound(n) <==> UnknownToOthers(n)
  {
    if UnknownToOthers(n) {
      forall acts, m | Leads(n, acts, m) ensures m.sender.ackReg <= m.published - {m.packet.sender} {
        AckSoundness(n, numElevators, acts, m);
      }
    } else {
      var r: ElevatorID :| r != n.packet.sender && PacketID(n.packet) in Window(IDs(AcceptedAt(n, r)));
      var m := AcknowledgedUnpublished(n, numElevators, r);
    }
  }

  lemma DoneByWindow(p: Packet, accepted: seq<Packet>, r: ElevatorID) returns (n: Net, m: Net)
    requires r != p.sender && PacketID(p) in Window(IDs(accepted))
    ensures n.packet == p && n.accepted == map[r := accepted]
    ensures JustSent(n, 1) && Leads(n, [Arrives(r, p), AckArrives(r)], m)
    ensures m.sender.signalled && m.published == {}
  {
    n := Net(p, p.number + 1, Sending(1), map[r := accepted], {}, {});
    m := AcknowledgedUnpublished(n, 1, r);
  }

  /**
   A receiver that was cut off while 255 packets were sent takes the next one for a copy: the sender is
   told that it is done, and nobody has published the packet.
   */
  lemma DoneUnpublished(s: ElevatorID, r: ElevatorID) returns (n: Net, m: Net)
    requires r != s
    ensures n.packet == Packet(s, 256) && n.accepted == map[r := [Packet(s, 0)]]
    ensures JustSent(n, 1) && Leads(n, [Arrives(r, n.packet), AckArrives(r)], m)
    ensures m.sender.signalled && m.published == {}
  {
    ReusedIDIsLost(s);
    n, m := DoneByWindow(Packet(s, 256), [Packet(s, 0)], r);
  }

  /** What is remembered of p's sender are packets among the 255 before p. */
  ghost predicate OnlyRecent(accepted: seq<Packet>, p: Packet) {
    forall j :: 0 <= j < |accepted| && Since(|accepted|, j) < Remembered(|accepted|) && accepted[j].sender == p.sender ==>
      accepted[j].number < p.number < accepted[j].number + 256
  }

  /** That is enough for the ID not to be in the window. */
  lemma {:induction false} RecentIsNotRemembered(accepted: seq<Packet>, p: Packet)
    requires OnlyRecent(accepted, p)
    ensures PacketID(p) !in Window(IDs(accepted))
  {
    InWindowIff(IDs(accepted), PacketID(p));
    forall j | 0 <= j < |accepted| && Since(|accepted|, j) < Remembered(|accepted|)
      ensures PacketID(accepted[j]) != PacketID(p)
    {
      if PacketID(accepted[j]) == PacketID(p) {
        SameIDApart(accepted[j], p);
      }
    }
  }

  /** A receiver that has accepted every sender's packets in order remembers only recent ones. */
  lemma InOrderIsRecent(accepted: seq<Packet>, p: Packet)
    requires 2 * RX_PACKET_REGISTER_LENGTH + 1 <= 255
    requires InOrder(accepted + [p]) && p !in accepted
    requires forall a, b :: 0 <= a < b < |accepted| ==> accepted[a] != accepted[b]
    ensures OnlyRecent(accepted, p)
  {
    RememberedBounds(|accepted|);
    forall j | 0 <= j < |accepted| && Since(|accepted|, j) < Remembered(|accepted|) && accepted[j].sender == p.sender
      ensures accepted[j].number < p.number < accepted[j].number + 256
    {
      NumbersBefore(accepted, p, j);
    }
  }

  // ---------------------------------------------------------------- no acknowledgement expected

  lemma {:induction false} IdleSenderStays(n: Net, acts: seq<Action>, m: Net)
    requires Leads(n, acts, m) && !n.sender.running
    ensures m.sender == n.sender
    decreases |acts|
  {
    if acts != [] {
      IdleSenderStays(Act(n, acts[0]), acts[1..], m);
    }
  }

  /** A sender that expects no answer transmits once, whatever happens, and never signals that it is done. */
  lemma UnansweredIsNeverDone(n: Net, acts: seq<Action>, m: Net)
    requires Start(n, 0) && Leads(n, acts, m)
    ensures m.sender.sent == 1 && !m.sender.signalled
  {
    IdleSenderStays(n, acts, m);
  }
}
