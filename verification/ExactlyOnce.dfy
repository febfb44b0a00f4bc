/**
 Exactly-once delivery: over every trace of arriving packets in which copies come soon enough and
 wrapped IDs are reused late enough, the Receiver of elevator/networkRX.go publishes each packet at
 its first arrival and at no other.
 */
module ExactlyOnce {
  import opened Settings
  import opened PacketWindow

  /** The number-th packet that the elevator sender transmits. */
  datatype Packet = Packet(sender: ElevatorID, number: nat)

  /** The ID that Transmitter gives the packet: the sender, and the number wrapped to eight bits. */
  function PacketID(p: Packet): int {
    p.sender * 256 + p.number % 256
  }

  lemma DivMod256(q: int, r: int)
    requires 0 <= r < 256
    ensures (q * 256 + r) / 256 == q && (q * 256 + r) % 256 == r
  {
  }

  lemma SameRemainderIff(a: nat, b: nat)
    ensures a % 256 == b % 256 <==> (a - b) % 256 == 0
  {
    var d := a / 256 - b / 256;
    assert a - b == d * 256 + (a % 256 - b % 256);
    if a % 256 >= b % 256 {
      DivMod256(d, a % 256 - b % 256);
    } else {
      DivMod256(d - 1, 256 + (a % 256 - b % 256));
    }
  }

  /** IDs coincide exactly for packets of one sender whose numbers differ by a multiple of 256. */
  lemma PacketIDIff(p: Packet, q: Packet)
    ensures PacketID(p) == PacketID(q) <==> p.sender == q.sender && (p.number - q.number) % 256 == 0
    ensures PacketID(p) / 256 == p.sender
  {
    DivMod256(p.sender, p.number % 256);
    DivMod256(q.sender, q.number % 256);
    SameRemainderIff(p.number, q.number);
  }

  function IDs(ps: seq<Packet>): (ids: seq<int>)
    ensures |ids| == |ps| && forall k :: 0 <= k < |ps| ==> ids[k] == PacketID(ps[k])
  {
    if ps == [] then [] else IDs(ps[..|ps| - 1]) + [PacketID(ps[|ps| - 1])]
  }

  /** RecievedPackets.Handle on the packets accepted so far. */
  function Receive(accepted: seq<Packet>, p: Packet): seq<Packet> {
    if PacketID(p) in Window(IDs(accepted)) then accepted else accepted + [p]
  }

  /** The packets that a receiver publishes when the packets of the trace arrive. */
  function Published(trace: seq<Packet>): seq<Packet> {
    if trace == [] then [] else Receive(Published(trace[..|trace| - 1]), trace[|trace| - 1])
  }

  /** The packets of the trace without the copies. */
  function FirstArrivals(trace: seq<Packet>): (ps: seq<Packet>)
    ensures forall p :: p in ps <==> p in trace
  {
    if trace == [] then []
    else
      var before, p := FirstArrivals(trace[..|trace| - 1]), trace[|trace| - 1];
      assert trace == trace[..|trace| - 1] + [p];
      if p in before then before else before + [p]
  }

  /** The arrival of p after the first arrivals ps: a copy comes soon, a reused ID comes late. */
  ghost predicate Timely(ps: seq<Packet>, p: Packet) {
    forall j :: 0 <= j < |ps| ==>
      && (ps[j] == p ==> Since(|ps|, j) <= RX_PACKET_REGISTER_LENGTH)
      && (ps[j] != p && PacketID(ps[j]) == PacketID(p) && p !in ps ==>
            Since(|ps|, j) >= 2 * RX_PACKET_REGISTER_LENGTH + 1)
  }

  ghost predicate AlwaysTimely(trace: seq<Packet>) {
    forall k :: 0 <= k < |trace| ==> Timely(FirstArrivals(trace[..k]), trace[k])
  }

  lemma RememberedBounds(n: nat)
    ensures Remembered(n) <= 2 * RX_PACKET_REGISTER_LENGTH + 1
    ensures n <= RX_PACKET_REGISTER_LENGTH || Remembered(n) >= RX_PACKET_REGISTER_LENGTH + 1
  {
  }

  /** Under the timing conditions the window recognises exactly the copies. */
  lemma {:induction false} WindowRecognisesCopies(ps: seq<Packet>, p: Packet)
    requires Timely(ps, p)
    ensures PacketID(p) in Window(IDs(ps)) <==> p in ps
  {
    InWindowIff(IDs(ps), PacketID(p));
    RememberedBounds(|ps|);
    if p in ps {
      var j :| 0 <= j < |ps| && ps[j] == p;
      assert IDs(ps)[j] == PacketID(p) && Since(|ps|, j) < Remembered(|ps|);
    }
  }

  lemma {:induction false} PrefixIsTimely(trace: seq<Packet>, k: nat)
    requires AlwaysTimely(trace) && k <= |trace|
    ensures AlwaysTimely(trace[..k])
  {
    forall i | 0 <= i < k ensures Timely(FirstArrivals(trace[..k][..i]), trace[..k][i]) {
      assert trace[..k][..i] == trace[..i];
    }
  }

  lemma {:induction false} ExactlyOnceDelivery(trace: seq<Packet>)
    requires AlwaysTimely(trace)
    ensures Published(trace) == FirstArrivals(trace)
    decreases |trace|
  {
    if trace != [] {
      var k := |trace| - 1;
      PrefixIsTimely(trace, k);
      ExactlyOnceDelivery(trace[..k]);
      assert Timely(FirstArrivals(trace[..k]), trace[k]);
      WindowRecognisesCopies(FirstArrivals(trace[..k]), trace[k]);
    }
  }

  lemma SinglePublished(p: Packet)
    ensures Published([p]) == [p] && IDs([p]) == [PacketID(p)]
    ensures Window([PacketID(p)]) == [PacketID(p)]
  {
    assert [p][..0] == [] && [] + [p] == [p];
    assert Published([]) == [] && IDs([]) == [];
  }

  lemma {:induction false} PublishedNext(trace: seq<Packet>, p: Packet)
    ensures Published(trace + [p]) == Receive(Published(trace), p)
    ensures IDs(Published(trace) + [p]) == IDs(Published(trace)) + [PacketID(p)]
  {
    assert (trace + [p])[..|trace|] == trace;
  }

  lemma SameIDIsSuppressed(p: Packet, q: Packet)
    requires PacketID(p) == PacketID(q)
    ensures Published([p]) == [p] && PacketID(q) in Window(IDs([p]))
    ensures Published([p] + [q]) == [p]
  {
    SinglePublished(p);
    PublishedNext([p], q);
    var w := Window(IDs([p]));
    assert w[0] == PacketID(q);
  }

  /** The reuse of an ID can come too early: packet number 256 is lost if number 0 was the last one accepted. */
  lemma ReusedIDIsLost(s: ElevatorID)
    ensures var first, reused := Packet(s, 0), Packet(s, 256);
            && Published([first]) == [first] && PacketID(reused) in Window(IDs([first]))
            && Published([first] + [reused]) == [first]
  {
    PacketIDIff(Packet(s, 0), Packet(s, 256));
    SameIDIsSuppressed(Packet(s, 0), Packet(s, 256));
  }

  // ---------------------------------------------------------------- packets sent in order

  /** Every sender's packets arrive for the first time in the order of their numbers, without gaps. */
  ghost predicate InOrder(ps: seq<Packet>) {
    forall k :: 0 <= k < |ps| && ps[k].number > 0 ==> Packet(ps[k].sender, ps[k].number - 1) in ps[..k]
  }

  /** A sender's number cannot grow faster than the packets accepted since. */
  lemma {:induction false} NumbersGrowSlowly(ps: seq<Packet>, j: nat, k: nat)
    requires InOrder(ps) && j < |ps| && k < |ps| && ps[j].sender == ps[k].sender
    requires forall a, b :: 0 <= a < b < |ps| ==> ps[a] != ps[b]
    ensures ps[j].number < ps[k].number ==> j < k && ps[k].number - ps[j].number <= k - j
    decreases k
  {
    if ps[j].number < ps[k].number {
      var q := Packet(ps[k].sender, ps[k].number - 1);
      var i :| 0 <= i < k && ps[..k][i] == q;
      assert ps[i] == q;
      if ps[j].number < q.number {
        NumbersGrowSlowly(ps, j, i);
      } else {
        assert ps[j] == ps[i] && i == j;
      }
    }
  }

  lemma {:induction false} FirstArrivalsDistinct(trace: seq<Packet>)
    ensures forall a, b :: 0 <= a < b < |FirstArrivals(trace)| ==> FirstArrivals(trace)[a] != FirstArrivals(trace)[b]
  {
    if trace != [] {
      FirstArrivalsDistinct(trace[..|trace| - 1]);
    }
  }

  /** Packets accepted before p in order have smaller numbers, and not smaller than their age tells. */
  lemma NumbersBefore(ps: seq<Packet>, p: Packet, j: nat)
    requires InOrder(ps + [p]) && p !in ps && j < |ps| && ps[j].sender == p.sender
    requires forall a, b :: 0 <= a < b < |ps| ==> ps[a] != ps[b]
    ensures ps[j].number < p.number <= ps[j].number + Since(|ps|, j) + 1
  {
    var all := ps + [p];
    assert all[|ps|] == p && all[j] == ps[j] && ps[j] in ps;
    forall a, b | 0 <= a < b < |all| ensures all[a] != all[b] {
      assert all[a] == ps[a] && ps[a] in ps;
    }
    NumbersGrowSlowly(all, j, |ps|);
    NumbersGrowSlowly(all, |ps|, j);
  }

  lemma SameIDApart(p: Packet, q: Packet)
    requires PacketID(p) == PacketID(q) && p != q
    ensures p.sender == q.sender && (p.number + 256 <= q.number || q.number + 256 <= p.number)
  {
    PacketIDIff(p, q);
  }

  /**
   When first arrivals are in order, a wrapped ID comes back only after 255 others. So if copies come
   soon enough, delivery is exactly once for every register length up to 127.
   */
  lemma {:induction false} ExactlyOnceInOrder(trace: seq<Packet>)
    requires 2 * RX_PACKET_REGISTER_LENGTH + 1 <= 255
    requires forall k :: 0 <= k < |trace| ==>
               var ps := FirstArrivals(trace[..k]);
               && InOrder(ps + [trace[k]])
               && forall j :: 0 <= j < |ps| && ps[j] == trace[k] ==> Since(|ps|, j) <= RX_PACKET_REGISTER_LENGTH
    ensures Published(trace) == FirstArrivals(trace)
  {
    forall k | 0 <= k < |trace| ensures Timely(FirstArrivals(trace[..k]), trace[k]) {
      var ps, p := FirstArrivals(trace[..k]), trace[k];
      FirstArrivalsDistinct(trace[..k]);
      forall j | 0 <= j < |ps| && ps[j] != p && PacketID(ps[j]) == PacketID(p) && p !in ps
        ensures Since(|ps|, j) >= 255
      {
        SameIDApart(ps[j], p);
        NumbersBefore(ps, p, j);
      }
    }
    ExactlyOnceDelivery(trace);
  }

  // ---------------------------------------------------------------- the receiver

  /**
   Receiver: packets of the elevator itself are ignored, all others acknowledged, new ones published.
   The ghost parameter trace is what has arrived so far.
   */
  class Receiver {
    const self: ElevatorID
    const rp: RecievedPackets

    constructor (id: ElevatorID)
      ensures self == id && rp.Valid() && rp.accepted == [] && fresh(rp) && fresh(rp.packets)
    {
      self := id;
      rp := new RecievedPackets();
    }

    method OnPacket(p: Packet, ghost trace: seq<Packet>) returns (ack: bool, publish: bool)
      requires rp.Valid() && rp.accepted == IDs(Published(trace))
      modifies rp, rp.packets
      ensures rp.Valid()
      ensures ack <==> p.sender != self
      ensures rp.accepted == IDs(Published(if ack then trace + [p] else trace))
      ensures publish <==> ack && Published(trace + [p]) == Published(trace) + [p]
    {
      var packetID := PacketID(p);
      PacketIDIff(p, p);
      ack, publish := false, false;
      if packetID / 256 != self {
        ack := true;
        PublishedNext(trace, p);
        publish := rp.Handle(packetID);
      }
    }
  }
}
