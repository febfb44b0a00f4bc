/**
 Duplicate suppression of elevator/networkRX.go: three registers used in turn remember the IDs of
 the packets accepted last. Together with the wrapping packet IDs of elevator/networkTX.go this
 delivers every packet exactly once.
 */
module PacketWindow {
  import opened Settings

  /** A register is rotated out when it holds more than RX_PACKET_REGISTER_LENGTH packets. */
  const ROUND: Positive := RX_PACKET_REGISTER_LENGTH + 1

  // ---------------------------------------------------------------- the window in closed form

  lemma DivModBound(n: nat)
    requires n >= ROUND
    ensures ROUND + n % ROUND <= n
  {
    assert n == ROUND * (n / ROUND) + n % ROUND;
    assert n / ROUND >= 1;
  }

  /** How many of the n packets accepted so far are still remembered. */
  function Remembered(n: nat): (k: nat)
    ensures k <= n
  {
    if n < ROUND then n else
      DivModBound(n);
      ROUND + n % ROUND
  }

  /** The remembered IDs: the most recent ones. */
  function Window(accepted: seq<int>): seq<int> {
    accepted[|accepted| - Remembered(|accepted|)..]
  }

  predicate Distinct(s: seq<int>) {
    forall i, j :: 0 <= i < j < |s| ==> s[i] != s[j]
  }

  lemma DivMod(q: nat, r: nat)
    requires r < ROUND
    ensures (q * ROUND + r) / ROUND == q && (q * ROUND + r) % ROUND == r
  {
    var n := q * ROUND + r;
    var d := n / ROUND - q;
    assert d * ROUND + n % ROUND == r;
    assert d >= 1 ==> d * ROUND >= ROUND;
    assert d <= -1 ==> d * ROUND + ROUND <= 0;
  }

  lemma ModStep(n: nat)
    ensures (n + 1) % ROUND == if n % ROUND + 1 == ROUND then 0 else n % ROUND + 1
  {
    var q, r := n / ROUND, n % ROUND;
    assert n == q * ROUND + r;
    if r + 1 == ROUND {
      assert n + 1 == (q + 1) * ROUND + 0;
      DivMod(q + 1, 0);
    } else {
      DivMod(q, r + 1);
    }
  }

  lemma RememberedStep(n: nat)
    ensures Remembered(n + 1) == if n >= ROUND && n % ROUND + 1 == ROUND then ROUND else
                                 if n < ROUND then n + 1 else Remembered(n) + 1
    ensures Remembered(n + 1) <= Remembered(n) + 1
  {
    ModStep(n);
    if n + 1 == ROUND {
      DivMod(1, 0);
    }
  }

  /** Accepting an ID brings nothing else into the window. */
  lemma WindowStep(accepted: seq<int>, id: int)
    ensures var w := Window(accepted + [id]);
            w != [] && |w| - 1 <= |Window(accepted)| && w == Window(accepted)[|Window(accepted)| - (|w| - 1)..] + [id]
  {
    RememberedStep(|accepted|);
  }

  /** How many packets have been accepted since the one at position j. */
  function Since(n: int, j: int): int {
    n - 1 - j
  }

  /** Exactly when an accepted ID is remembered. */
  lemma InWindowIff(accepted: seq<int>, id: int)
    ensures id in Window(accepted) <==>
            exists j :: 0 <= j < |accepted| && accepted[j] == id && Since(|accepted|, j) < Remembered(|accepted|)
  {
    var w := Window(accepted);
    var s := |accepted| - |w|;
    if id in w {
      var k :| 0 <= k < |w| && w[k] == id;
      assert accepted[s + k] == id && Since(|accepted|, s + k) < |w|;
    }
    if j :| 0 <= j < |accepted| && accepted[j] == id && Since(|accepted|, j) < Remembered(|accepted|) {
      assert w[j - s] == id;
    }
  }

  // ---------------------------------------------------------------- the registers

  /** What the last and the current register hold after the accepts, with the given number of full registers. */
  ghost predicate Holds(accepted: seq<int>, rounds: nat, last: seq<int>, current: seq<int>) {
    && |current| < ROUND
    && |accepted| == rounds * ROUND + |current|
    && |last| == (if rounds > 0 then ROUND else 0)
    && last + current == Window(accepted)
    && Distinct(Window(accepted))
  }

  lemma HoldsCounts(accepted: seq<int>, rounds: nat, last: seq<int>, current: seq<int>)
    requires Holds(accepted, rounds, last, current)
    ensures |accepted| / ROUND == rounds && |accepted| % ROUND == |current|
    ensures rounds > 0 <==> |accepted| >= ROUND
  {
    DivMod(rounds, |current|);
    assert rounds >= 1 ==> rounds * ROUND >= ROUND;
  }

  lemma DistinctNext(w: seq<int>, k: nat, id: int)
    requires Distinct(w) && id !in w && k <= |w|
    ensures Distinct(w[k..] + [id])
  {
  }

  /** The window after a new ID: the oldest register drops out exactly when it is full again. */
  lemma WindowNext(accepted: seq<int>, rounds: nat, last: seq<int>, current: seq<int>, id: int)
    requires Holds(accepted, rounds, last, current)
    ensures Window(accepted + [id]) == (if |current| + 1 < ROUND then last + current else current) + [id]
  {
    HoldsCounts(accepted, rounds, last, current);
    WindowStep(accepted, id);
    RememberedStep(|accepted|);
    var w, all := Window(accepted + [id]), last + current;
    assert |w| == if |current| + 1 < ROUND then |all| + 1 else ROUND;
    assert all[|last|..] == current && all[0..] == all;
  }

  /** A new ID goes into the current register; a full register becomes the last one. */
  lemma HoldsNext(accepted: seq<int>, rounds: nat, last: seq<int>, current: seq<int>, id: int)
    requires Holds(accepted, rounds, last, current) && id !in last && id !in current
    ensures |current| + 1 < ROUND ==> Holds(accepted + [id], rounds, last, current + [id])
    ensures |current| + 1 == ROUND ==> Holds(accepted + [id], rounds + 1, current + [id], [])
  {
    WindowNext(accepted, rounds, last, current, id);
    var all := last + current;
    assert (rounds + 1) * ROUND == rounds * ROUND + ROUND;
    DistinctNext(all, if |current| + 1 < ROUND then 0 else |last|, id);
    assert all[|last|..] == current && all[0..] == all;
    assert last + (current + [id]) == all + [id] && (current + [id]) + [] == current + [id];
  }

  /** The registers change roles: next becomes current, current becomes last, and last is free. */
  lemma Rotate(rounds: nat)
    ensures var r := rounds % 3;
            var n := (r + 1) % 3;
            n == (rounds + 1) % 3 && (n + 1) % 3 == (r + 2) % 3 && (n + 2) % 3 == r
    ensures var r := rounds % 3; r != (r + 1) % 3 && r != (r + 2) % 3 && (r + 1) % 3 != (r + 2) % 3
  {
  }

  /** Of the three registers, r is the current one; rounds of them have been filled. */
  ghost predicate Registers(accepted: seq<int>, rounds: nat, ps: seq<seq<int>>, r: int) {
    && |ps| == 3 && r == rounds % 3
    && ps[(r + 1) % 3] == []
    && Holds(accepted, rounds, ps[(r + 2) % 3], ps[r])
  }

  lemma RegistersRemember(accepted: seq<int>, rounds: nat, ps: seq<seq<int>>, r: int, id: int)
    requires Registers(accepted, rounds, ps, r)
    ensures (r + 2) % 3 != r
    ensures id in Window(accepted) <==> id in ps[r] || id in ps[(r + 2) % 3]
  {
  }

  lemma RegistersNext(accepted: seq<int>, rounds: nat, ps: seq<seq<int>>, r: int, id: int)
    requires Registers(accepted, rounds, ps, r) && id !in ps[(r + 2) % 3] && id !in ps[r]
    ensures var qs := ps[r := ps[r] + [id]];
            if |qs[r]| < ROUND then Registers(accepted + [id], rounds, qs, r)
            else Registers(accepted + [id], rounds + 1, qs[(r + 2) % 3 := []], (r + 1) % 3)
  {
    Rotate(rounds);
    HoldsNext(accepted, rounds, ps[(r + 2) % 3], ps[r], id);
  }

  class RecievedPackets {
    var currentRegister: nat
    const packets: array<seq<int>>

    /** Everything accepted so far, and how many registers have been filled. */
    ghost var accepted: seq<int>
    ghost var rounds: nat

    ghost predicate Valid()
      reads this, packets
    {
      packets.Length == 3 && Registers(accepted, rounds, packets[..], currentRegister)
    }

    constructor ()
      ensures Valid() && accepted == [] && fresh(packets)
    {
      currentRegister := 0;
      packets := new seq<int>[3](_ => []);
      accepted, rounds := [], 0;
    }

    /** The end of handle: the ID goes into the current register, and the registers rotate if that is full. */
    method Remember(packetID: int)
      requires Valid() && packetID !in Window(accepted)
      modifies this, packets
      ensures Valid()
      ensures accepted == old(accepted) + [packetID]
    {
      var l := (currentRegister + 2) % 3;
      ghost var ps, r := packets[..], currentRegister;
      RegistersRemember(accepted, rounds, ps, r, packetID);
      RegistersNext(accepted, rounds, ps, r, packetID);
      packets[currentRegister] := packets[currentRegister] + [packetID];
      accepted := accepted + [packetID];
      assert packets[..] == ps[r := ps[r] + [packetID]];
      if |packets[currentRegister]| > RX_PACKET_REGISTER_LENGTH {
        packets[l] := [];
        assert packets[..] == ps[r := ps[r] + [packetID]][l := []];
        currentRegister := currentRegister + 1;
        currentRegister := currentRegister % 3;
        rounds := rounds + 1;
      }
    }

    /** True exactly if the ID is not among the remembered ones; then it is remembered. */
    method Handle(packetID: int) returns (isNew: bool)
      requires Valid()
      modifies this, packets
      ensures Valid()
      ensures isNew <==> packetID !in Window(old(accepted))
      ensures accepted == if isNew then old(accepted) + [packetID] else old(accepted)
    {
      RegistersRemember(accepted, rounds, packets[..], currentRegister, packetID);
      var i := |packets[currentRegister]| - 1;
      while i >= 0
        invariant -1 <= i < |packets[currentRegister]|
        invariant forall k :: i < k < |packets[currentRegister]| ==> packets[currentRegister][k] != packetID
      {
        if packetID == packets[currentRegister][i] {
          return false;
        }
        i := i - 1;
      }
      var l := (currentRegister + 2) % 3;
      var j := |packets[l]| - 1;
      while j >= 0
        invariant -1 <= j < |packets[l]|
        invariant forall k :: j < k < |packets[l]| ==> packets[l][k] != packetID
      {
        if packetID == packets[l][j] {
          return false;
        }
        j := j - 1;
      }
      Remember(packetID);
      return true;
    }
  }

  /** The registers after n accepts: which one is current, and what the window holds. */
  lemma ClosedForm(r: RecievedPackets)
    requires r.Valid()
    ensures var n := |r.accepted|;
            && r.currentRegister == (n / ROUND) % 3
            && r.packets[(r.currentRegister + 1) % 3] == []
            && |Window(r.accepted)| == (if n < ROUND + n % ROUND then n else ROUND + n % ROUND)
            && r.packets[(r.currentRegister + 2) % 3] + r.packets[r.currentRegister] == r.accepted[n - |Window(r.accepted)|..]
            && Distinct(Window(r.accepted))
  {
    HoldsCounts(r.accepted, r.rounds, r.packets[(r.currentRegister + 2) % 3], r.packets[r.currentRegister]);
  }
}
