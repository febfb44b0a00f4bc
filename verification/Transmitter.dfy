/**
 The bookkeeping of elevator/networkTX.go around handleSend: packet IDs, the elevators that are
 expected to acknowledge, and the routing of acknowledgements. The one-byte numbers keep packets
 apart as long as a packet is done with before 256 further ones have been sent.
 */
module Transmitter {
  import opened Settings
  import opened Wrappers
  import opened ExactlyOnce

  // ---------------------------------------------------------------- who is expected to acknowledge

  /** ConnectionEvent. */
  datatype Connection = Connection(elev: ElevatorID, connect: bool)

  ghost predicate NotAfter(history: seq<Connection>, k: int, i: ElevatorID) {
    forall j :: 0 <= j < |history| && k < j ==> history[j].elev != i
  }

  /** The last connection event of i is a connect. */
  ghost predicate Connected(history: seq<Connection>, i: ElevatorID) {
    exists k :: 0 <= k < |history| && history[k] == Connection(i, true) && NotAfter(history, k, i)
  }

  lemma ConnectedStep(history: seq<Connection>, x: Connection, i: ElevatorID)
    ensures Connected(history + [x], i) <==> if x.elev == i then x.connect else Connected(history, i)
  {
    var more, n := history + [x], |history|;
    assert more[n] == x;
    if x.elev == i && x.connect {
      assert NotAfter(more, n, i);
    }
    if x.elev != i && Connected(history, i) {
      var k :| 0 <= k < n && history[k] == Connection(i, true) && NotAfter(history, k, i);
      assert more[k] == history[k] && NotAfter(more, k, i);
    }
    if x.elev != i && Connected(more, i) {
      var k :| 0 <= k <= n && more[k] == Connection(i, true) && NotAfter(more, k, i);
      assert forall j :: 0 <= j < n ==> more[j] == history[j];
      assert history[k] == more[k] && NotAfter(history, k, i);
    }
  }

  ghost function ConnectedOthers(self: ElevatorID, history: seq<Connection>): (s: set<ElevatorID>)
    ensures forall i: ElevatorID :: i in s <==> i != self && Connected(history, i)
  {
    set i: ElevatorID | i != self && Connected(history, i)
  }

  ghost function ElevatorsBelow(n: nat): (s: set<ElevatorID>)
    requires n <= ELEVATOR_MAX_NUM
    ensures forall i: ElevatorID :: i in s <==> i < n
    ensures |s| == n
  {
    if n == 0 then {} else ElevatorsBelow(n - 1) + {n - 1}
  }

  lemma OthersAreFewer(self: ElevatorID, s: set<ElevatorID>)
    requires self !in s
    ensures |s| <= ELEVATOR_MAX_NUM - 1
  {
    var all := ElevatorsBelow(ELEVATOR_MAX_NUM);
    assert all == s + {self} + (all - s - {self});
  }

  // ---------------------------------------------------------------- packet numbers

  /** p has been sent, and at most 255 packets after it; next is the number of the sender's next packet. */
  predicate InFlight(next: nat, p: Packet) {
    p.number < next <= p.number + 256
  }

  /** Packets in flight have different IDs. */
  lemma InFlightIDsDiffer(next: nat, p: Packet, q: Packet)
    requires p.sender == q.sender ==> InFlight(next, p) && InFlight(next, q)
    ensures PacketID(p) == PacketID(q) <==> p == q
  {
    if PacketID(p) == PacketID(q) && p != q {
      SameIDApart(p, q);
    }
  }

  class TransmitterModule {
    const self: ElevatorID
    var id: nat
    var availableElevators: set<ElevatorID>
    ghost var history: seq<Connection>

    ghost predicate Valid()
      reads this
    {
      availableElevators == ConnectedOthers(self, history)
    }

    constructor (self: ElevatorID)
      ensures Valid() && this.self == self && id == 0 && history == []
    {
      this.self := self;
      id, availableElevators, history := 0, {}, [];
    }

    /** The available elevators stay the others whose last connection event is a connect. */
    method OnConnection(elev: ElevatorID, connect: bool)
      requires Valid()
      modifies this`availableElevators, this`history
      ensures Valid()
      ensures history == old(history) + [Connection(elev, connect)]
    {
      forall i: ElevatorID {
        ConnectedStep(history, Connection(elev, connect), i);
      }
      if elev != self {
        if connect {
          availableElevators := availableElevators + {elev};
        } else {
          availableElevators := availableElevators - {elev};
        }
      }
      history := history + [Connection(elev, connect)];
    }

    /** An event to transmit. Only the elevator's own events pass the filter; each gets the next number. */
    method OnEvent(origin: ElevatorID) returns (sent: bool, packetID: int, expected: nat)
      requires Valid()
      modifies this`id
      ensures Valid()
      ensures sent <==> origin == self
      ensures id == if sent then old(id) + 1 else old(id)
      ensures sent ==> InFlight(id, Packet(self, old(id))) && packetID == PacketID(Packet(self, old(id)))
      ensures sent ==> expected == |ConnectedOthers(self, history)| <= ELEVATOR_MAX_NUM - 1
    {
      sent, packetID, expected := origin == self, 0, 0;
      if sent {
        packetID := self * 256 + id % 256;
        id := id + 1;
        expected := |availableElevators|;
        OthersAreFewer(self, availableElevators);
      }
    }
  }

  // ---------------------------------------------------------------- acknowledgements

  /** The entry of q goes when p is reported done: q is in flight and has the ID of p. */
  predicate CutOff(q: Packet, p: Packet, next: nat) {
    InFlight(next, q) && PacketID(q) == PacketID(p)
  }

  /**
   recieveAck with the filter of RXack. The entry of an ID is the packet of the routine that waits
   there. A routine that nobody has to answer never reports that it is done, so entries of packets
   long gone remain; a new packet with the ID replaces them.
   */
  class AckRouter {
    const self: ElevatorID
    var pending: map<int, Packet>
    /** The packets that were added, have not been reported done, and have not been cut off by a late report. */
    ghost var waiting: set<Packet>

    /** Every waiting packet that is in flight has its own entry; next is the id of the transmitter. */
    ghost predicate Valid(next: nat)
      reads this
    {
      && (forall id :: id in pending ==> PacketID(pending[id]) == id && pending[id] in waiting)
      && (forall p :: p in waiting ==> p.sender == self && p.number < next)
      && (forall p :: p in waiting && InFlight(next, p) ==> PacketID(p) in pending && pending[PacketID(p)] == p)
    }

    constructor (self: ElevatorID)
      ensures this.self == self && Valid(0) && waiting == {}
    {
      this.self := self;
      pending, waiting := map[], {};
    }

    /** Sending more packets leaves the entries valid. */
    lemma ValidLater(next: nat, later: nat)
      requires Valid(next) && next <= later
      ensures Valid(later)
    {
    }

    method Add(p: Packet, ghost next: nat)
      requires Valid(next) && p.sender == self && InFlight(next, p)
      modifies this
      ensures Valid(next) && waiting == old(waiting) + {p}
    {
      forall q | q in waiting && InFlight(next, q) ensures PacketID(q) == PacketID(p) <==> q == p {
        InFlightIDsDiffer(next, p, q);
      }
      pending := pending[PacketID(p) := p];
      waiting := waiting + {p};
    }

    /**
     p is reported done. The entry is deleted by its ID: another waiting packet loses its entry exactly if
     it is in flight and has the same ID, which is so only for a report that comes when p no longer is.
     */
    method Done(p: Packet, ghost next: nat)
      requires Valid(next)
      modifies this
      ensures Valid(next)
      ensures PacketID(p) !in pending
      ensures forall q :: q in waiting <==> q in old(waiting) && q != p && !CutOff(q, p, next)
      ensures p in old(waiting) && InFlight(next, p) ==> waiting == old(waiting) - {p}
    {
      if p in waiting && InFlight(next, p) {
        forall q | q in waiting && InFlight(next, q) ensures PacketID(q) == PacketID(p) <==> q == p {
          InFlightIDsDiffer(next, p, q);
        }
      }
      pending := pending - {PacketID(p)};
      waiting := set q | q in waiting && q != p && !CutOff(q, p, next);
    }

    /**
     An acknowledgement of p by elev. That of another elevator reaches the routine of p if p waits and
     is in flight; the only other routine it can reach is one whose packet is no longer in flight.
     */
    method Route(p: Packet, elev: ElevatorID, ghost next: nat) returns (to: Option<Packet>)
      requires Valid(next)
      ensures to.Some? <==> p.sender == self && elev != self && PacketID(p) in pending
      ensures to.Some? ==> to.value in waiting && PacketID(to.value) == PacketID(p)
      ensures p in waiting && InFlight(next, p) && elev != self ==> to == Some(p)
      ensures to.Some? && InFlight(next, p) && to.value != p ==> !InFlight(next, to.value)
    {
      var packetID := PacketID(p);
      PacketIDIff(p, p);
      to := None;
      if packetID / 256 == self && elev != self && packetID in pending {
        to := Some(pending[packetID]);
        if InFlight(next, p) && InFlight(next, to.value) {
          InFlightIDsDiffer(next, p, to.value);
        }
      }
    }
  }

  /** An event to transmit, up to the entry of its routine in the table. */
  method Transmit(t: TransmitterModule, r: AckRouter, origin: ElevatorID)
    returns (sent: bool, packetID: int, expected: nat)
    requires t.Valid() && r.Valid(t.id) && t.self == r.self
    modifies t`id, r
    ensures t.Valid() && r.Valid(t.id)
    ensures sent <==> origin == t.self
    ensures t.id == if sent then old(t.id) + 1 else old(t.id)
    ensures r.waiting == if sent then old(r.waiting) + {Packet(t.self, old(t.id))} else old(r.waiting)
    ensures sent ==> packetID == PacketID(Packet(t.self, old(t.id))) && packetID in r.pending
  {
    ghost var id := t.id;
    sent, packetID, expected := t.OnEvent(origin);
    if sent {
      r.ValidLater(id, t.id);
      r.Add(Packet(t.self, t.id - 1), t.id);
    }
  }
}
