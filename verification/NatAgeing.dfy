/** How long a tuple lives: what the periodic cleanup does to it, visit by visit, and what
    packets do to that. */
module NatAgeing {
  import opened Wrappers
  import opened Bits
  import opened Nat

  // ---------- one visit ----------

  /** A closed connection: reset, or ended from both sides. */
  predicate Closed(t: Tuple) { t.rst || (t.finIn && t.finOut) }

  /** What a visit leaves of a TCP or UDP tuple, if anything. */
  function Visited(t: Tuple): Option<Tuple> {
    if t.portForward then Some(t)
    else if t.proto == PROTO_TCP then
      if t.connActive == 0 || t.connActive > 360 then None
      else Some(t.(connActive := if Closed(t) then 0 else t.connActive + 1))
    else if t.connActive <= 1 then Some(t.(connActive := t.connActive + 1))
    else None
  }

  predicate Ordinary(s: State, id: nat) {
    id in s.store && Translated(s.store[id].proto) && s.store[id].natPort != 0
  }

  ghost predicate Sound(s: State) { Agree(s) && Drawn(s) }

  function Lookup(s: State, id: nat): Option<Tuple> { if id in s.store then Some(s.store[id]) else None }

  lemma DeletesItself(s: State, id: nat)
    requires Agree(s) && id in s.store && s.store[id].natPort != 0
    ensures Del(s, s.store[id].natPort, s.store[id].proto).store == s.store - {id}
  {
    hide Agree;
    hide Del;
    hide FindTuple;
    FindSelf(s, id);
    DelForm(s, s.store[id].natPort, s.store[id].proto);
  }

  lemma VisitForm(s: State, id: nat)
    requires Sound(s) && Ordinary(s, id)
    ensures Lookup(Age(s, id), id) == Visited(s.store[id])
  {
    DeletesItself(s, id);
    hide Del;
    hide Agree;
  }

  /** Other protocols, forwards or not: an ICMP tuple that has been counted at all goes with its
      next visit and counts twice before, any other goes once its count is above one. */
  lemma OtherVisit(s: State, id: nat)
    requires Sound(s) && id in s.store && !Translated(s.store[id].proto) && s.store[id].natPort != 0
    ensures var t := s.store[id]; var icmp := t.proto == PROTO_ICMP4;
            Lookup(Age(s, id), id) ==
            if (if icmp then t.connActive >= 1 else t.connActive > 1) then None
            else Some(t.(connActive := if icmp then 2 else t.connActive + 1))
  {
    var t := s.store[id];
    DeletesItself(s, id);
    DelTwiceHere(s, id);
    SetActiveKeeps(s, id, t.connActive + 1);
    DeletesItself(SetActive(s, id, t.connActive + 1), id);
    hide Del;
    hide Agree;
    hide Drawn;
  }

  /** A deletion by the port of one tuple takes no TCP or UDP tuple but that one. */
  lemma DelSpares(s: State, other: nat, id: nat)
    requires Sound(s) && Ordinary(s, id) && other in s.store && other != id && !Forwards(s, other)
    ensures Lookup(Del(s, s.store[other].natPort, s.store[other].proto), id) == Some(s.store[id])
  {
    var t := s.store[other];
    if t.natPort != 0 {
      DeletesItself(s, other);
    } else {
      DelForm(s, t.natPort, t.proto);
      FoundProto(s, t.natPort, t.proto);
      assert !Translated(t.proto);
    }
  }

  /** Visiting one tuple leaves every other TCP or UDP tuple as it is. */
  lemma VisitSpares(s: State, other: nat, id: nat)
    requires Sound(s) && Ordinary(s, id) && other in s.store && other != id
    ensures Lookup(Age(s, other), id) == Some(s.store[id])
  {
    hide Agree;
    hide Drawn;
    hide Del;
    if !Forwards(s, other) {
      DelSpares(s, other, id);
      DelTwiceHere(s, other);
      if s.store[other].proto == PROTO_ICMP4 {
        var s1 := SetActive(s, other, s.store[other].connActive + 1);
        SetActiveKeeps(s, other, s.store[other].connActive + 1);
        DelSpares(s1, other, id);
      }
    }
  }

  lemma DelTwiceHere(s: State, other: nat)
    requires Sound(s) && other in s.store
    ensures var t := s.store[other];
            Del(Del(s, t.natPort, t.proto), t.natPort, t.proto) == Del(s, t.natPort, t.proto)
  {
    DelTwice(s, s.store[other].natPort, s.store[other].proto);
  }

  // ---------- one cleanup ----------

  lemma CleanupSound(s: State, order: seq<nat>)
    requires Sound(s)
    ensures Sound(Cleanup(s, order)) && Evolves(s, Cleanup(s, order))
  {
    hide Agree;
    hide Cleanup;
    CleanupKeeps(s, order);
  }

  /** How often an order comes to the tuple. */
  function Visits(order: seq<nat>, id: nat): (n: nat)
    ensures n == 0 <==> id !in order
  {
    if order == [] then 0 else Visits(order[..|order| - 1], id) + (if order[|order| - 1] == id then 1 else 0)
  }

  lemma StaysGone(s: State, other: nat, id: nat)
    requires Sound(s) && other in s.store && id !in s.store && id < s.next
    ensures id !in Age(s, other).store
  {
    hide Agree;
    hide Age;
    AgeKeeps(s, other);
  }

  /** A tuple a cleanup has passed by or over. */
  lemma {:induction false} CleanupVisits(s: State, order: seq<nat>, id: nat)
    requires Sound(s) && Ordinary(s, id) && Visits(order, id) <= 1
    ensures Lookup(Cleanup(s, order), id) == if id in order then Visited(s.store[id]) else Some(s.store[id])
  {
    hide Age;
    hide Sound;
    hide Visited;
    if order != [] {
      var front, last := order[..|order| - 1], order[|order| - 1];
      assert order == front + [last];
      assert Visits(order, id) == Visits(front, id) + (if last == id then 1 else 0);
      CleanupVisits(s, front, id);
      var s1 := Cleanup(s, front);
      CleanupSound(s, front);
      if last in s1.store {
        if last == id {
          assert Visits(front, id) == 0;
          VisitForm(s1, id);
        } else if id in s1.store {
          VisitedSame(s.store[id]);
          VisitSpares(s1, last, id);
        } else {
          Numbered(s, id);
          StaysGone(s1, last, id);
        }
      }
    }
  }

  lemma VisitedSame(t: Tuple)
    ensures Visited(t).Some? ==> SameFlow(Visited(t).value, t)
  {}

  // ---------- cleanup after cleanup ----------

  function Cleanups(s: State, orders: seq<seq<nat>>): State {
    if orders == [] then s else Cleanup(Cleanups(s, orders[..|orders| - 1]), orders[|orders| - 1])
  }

  /** Every cleanup visits the tuple once. */
  ghost predicate EachOnce(orders: seq<seq<nat>>, id: nat) {
    forall i :: 0 <= i < |orders| ==> Visits(orders[i], id) == 1
  }

  /** How many further cleanups a tuple that forwards nothing outlives. */
  function Outlives(t: Tuple): nat {
    if t.proto == PROTO_TCP then
      if t.connActive == 0 || t.connActive > 360 then 0
      else if Closed(t) then 1 else 361 - t.connActive
    else if t.connActive > 1 then 0 else 2 - t.connActive
  }

  lemma VisitTakesOne(t: Tuple)
    requires Translated(t.proto) && !t.portForward
    ensures Visited(t).None? <==> Outlives(t) == 0
    ensures Visited(t).Some? ==> Outlives(Visited(t).value) == Outlives(t) - 1 && !Visited(t).value.portForward
  {}

  /** With no traffic, a TCP connection that is open and has the count c from 1 to 360 outlives
      361 - c cleanups and no more, a closed one a single cleanup, a UDP flow 2 - c; and what
      has run out of its count goes with the next. */
  lemma {:induction false} LivesIff(s: State, orders: seq<seq<nat>>, id: nat)
    requires Sound(s) && Ordinary(s, id) && !s.store[id].portForward && EachOnce(orders, id)
    ensures var t, n := s.store[id], |orders|;
            id in Cleanups(s, orders).store <==>
            || n == 0
            || (t.proto == PROTO_TCP && (t.rst || (t.finIn && t.finOut)) && 1 <= t.connActive <= 360 && n == 1)
            || (t.proto == PROTO_TCP && !t.rst && !(t.finIn && t.finOut)
                && 1 <= t.connActive && t.connActive + n <= 361)
            || (t.proto == PROTO_UDP && t.connActive + n <= 2)
  {
    CleanupsForm(s, orders, id);
  }

  lemma {:induction false} CleanupsForm(s: State, orders: seq<seq<nat>>, id: nat)
    requires Sound(s) && Ordinary(s, id) && !s.store[id].portForward && EachOnce(orders, id)
    ensures var u := Cleanups(s, orders);
            && Sound(u) && id < u.next
            && (id in u.store <==> |orders| <= Outlives(s.store[id]))
            && (id in u.store ==> Outlives(u.store[id]) == Outlives(s.store[id]) - |orders|
                                  && SameFlow(u.store[id], s.store[id]) && !u.store[id].portForward)
  {
    hide Sound;
    hide Outlives;
    hide Visited;
    hide Cleanup;
    if orders == [] {
      Numbered(s, id);
    } else {
      var front, last := orders[..|orders| - 1], orders[|orders| - 1];
      CleanupsForm(s, front, id);
      var u := Cleanups(s, front);
      CleanupSound(u, last);
      if id in u.store {
        assert Visits(last, id) == 1 && id in last;
        CleanupVisits(u, last, id);
        VisitTakesOne(u.store[id]);
        VisitedSame(u.store[id]);
      }
    }
  }

  lemma Numbered(s: State, id: nat)
    requires Sound(s) && id in s.store
    ensures id < s.next && SameFlow(s.store[id], s.store[id])
  {}

  // ---------- what packets do ----------

  /** The tuple an outgoing packet of its flow leaves behind: a UDP flow starts afresh, a TCP
      one notes a reset, a SYN and a FIN from inside, and nothing else in the table changes. */
  lemma OutboundNotes(s: State, id: nat, p: Packet, natAddr: nat, random: Option<nat>)
    requires Sound(s) && Translated(p.proto) && Carries(s, id, p)
    ensures var t, after := s.store[id], Outbound(s, p, natAddr, random).state.store;
            && id in after
            && after == s.store[id := after[id]]
            && after[id] == (if p.proto == PROTO_UDP then t.(connActive := 1)
                             else t.(syn := t.syn || p.flags.syn, rst := t.rst || p.flags.rst,
                                     finOut := t.finOut || p.flags.fin))
  {
    OutboundFound(s, id, p, natAddr, random);
  }

  /** The same for an incoming one and a FIN from outside. */
  lemma InboundNotes(s: State, id: nat, p: Packet)
    requires Sound(s) && Ordinary(s, id) && p.proto == s.store[id].proto && p.dstPort == s.store[id].natPort
    ensures var t, after := s.store[id], Inbound(s, p).state.store;
            && id in after
            && after == s.store[id := after[id]]
            && after[id] == (if p.proto == PROTO_UDP then t.(connActive := 1)
                             else t.(syn := t.syn || p.flags.syn, rst := t.rst || p.flags.rst,
                                     finIn := t.finIn || p.flags.fin))
  {
    FindSelf(s, id);
  }

  /** A packet of the flow, from either side, and the cleanup after it. */
  datatype Round = Round(packet: Packet, incoming: bool, natAddr: nat, random: Option<nat>, order: seq<nat>)

  predicate Belongs(t: Tuple, r: Round) {
    && r.packet.proto == t.proto
    && (if r.incoming then r.packet.dstPort == t.natPort
        else r.packet.srcAddr == t.srcAddr && r.packet.srcPort == t.srcPort)
  }

  function Handled(s: State, r: Round): State {
    if !Translated(r.packet.proto) then s
    else if r.incoming then Inbound(s, r.packet).state
    else Outbound(s, r.packet, r.natAddr, r.random).state
  }

  function Rounds(s: State, rs: seq<Round>): State {
    if rs == [] then s
    else Cleanup(Handled(Rounds(s, rs[..|rs| - 1]), rs[|rs| - 1]), rs[|rs| - 1].order)
  }

  lemma HandledSound(s: State, id: nat, r: Round)
    requires Sound(s) && Ordinary(s, id) && s.store[id].proto == PROTO_UDP && Belongs(s.store[id], r)
    ensures Sound(Handled(s, r)) && Lookup(Handled(s, r), id) == Some(s.store[id].(connActive := 1))
  {
    if r.incoming {
      InboundNotes(s, id, r.packet);
      InboundKeeps(s, r.packet);
    } else {
      OutboundNotes(s, id, r.packet, r.natAddr, r.random);
      var _ := OutboundKeeps(s, r.packet, r.natAddr, r.random);
    }
  }

  /** A UDP flow that is used in every round, in either direction, is never deleted. */
  lemma {:induction false} UsedUdpLives(s: State, id: nat, rs: seq<Round>)
    requires Sound(s) && Ordinary(s, id) && s.store[id].proto == PROTO_UDP && !s.store[id].portForward
    requires forall i :: 0 <= i < |rs| ==> Belongs(s.store[id], rs[i]) && Visits(rs[i].order, id) == 1
    ensures var u := Rounds(s, rs);
            && Sound(u) && Ordinary(u, id) && SameFlow(u.store[id], s.store[id]) && !u.store[id].portForward
            && (rs != [] ==> u.store[id].connActive == 2)
  {
    hide Sound;
    hide Handled;
    hide Cleanup;
    if rs != [] {
      var front, r := rs[..|rs| - 1], rs[|rs| - 1];
      UsedUdpLives(s, id, front);
      var u := Rounds(s, front);
      HandledSound(u, id, r);
      CleanupVisits(Handled(u, r), r.order, id);
      CleanupSound(Handled(u, r), r.order);
    }
  }

  /** A new flow leaves under the address given and a port of its own, 1024 or more and below
      65535 in host order, and its tuple is open, ordinary and counted once. */
  lemma FreshFlow(s: State, p: Packet, natAddr: nat, random: nat)
    requires Sound(s) && Translated(p.proto) && OutKey(p.srcAddr, p.srcPort, p.proto) !in s.outbound
    requires Outbound(s, p, natAddr, Some(random)).result.Some?
    ensures var o := Outbound(s, p, natAddr, Some(random));
            && o.result.value == p.(srcAddr := natAddr, srcPort := o.result.value.srcPort)
            && o.result.value.srcPort < 0x10000 && 1024 <= Swap(o.result.value.srcPort) < 65535
            && InKey(o.result.value.srcPort, p.proto) !in s.inbound
            && Ordinary(o.state, s.next) && Carries(o.state, s.next, p)
            && o.state.store[s.next].connActive == 1 && !o.state.store[s.next].portForward
            && o.state.store[s.next].dstAddr == p.dstAddr && o.state.store[s.next].dstPort == p.dstPort
  {
    var t := NewTuple(p.dstAddr, p.dstPort, p.srcAddr, p.srcPort, natAddr, DrawPort(random), p.proto);
    SwapTwice(random % 0x10000 % (65535 - 1024) + 1024);
    hide Add;
    hide Swap;
    hide Agree;
    AddForm(s, t);
    AddKeeps(s, t);
  }

  lemma SwapTwice(port: nat)
    requires port < 0x10000
    ensures Swap(port) < 0x10000 && Swap(Swap(port)) == port
  {
    var high, low := port / 256, port % 256;
    assert port == 256 * high + low && Swap(port) == 256 * low + high;
    LastOctet(low, high);
  }

  // ---------- port forwards ----------

  /** The call that deletes a tuple: by its port, or by a source of zeros and port zero. */
  predicate Deletes(op: Op, t: Tuple) {
    && op.OpForwardDel? && op.proto == t.proto
    && (if op.natPort == 0 then t.srcAddr == 0 && t.srcPort == 0 else op.natPort == t.natPort)
  }

  lemma DelIff(s: State, natPort: nat, proto: nat, id: nat)
    requires Agree(s) && id in s.store
    ensures id in Del(s, natPort, proto).store <==> !Deletes(OpForwardDel(natPort, proto), s.store[id])
  {}

  lemma ForwardStepIff(s: State, op: Op, id: nat)
    requires Sound(s) && Forwards(s, id)
    ensures var t := Step(s, op);
            && Sound(t) && Evolves(s, t)
            && (Forwards(t, id) <==> !Deletes(op, s.store[id]))
            && (id in t.store <==> !Deletes(op, s.store[id]))
  {
    hide Agree;
    hide Drawn;
    hide Outbound;
    hide Inbound;
    hide ForwardAdd;
    hide Cleanup;
    hide Del;
    StepKeeps(s, op);
    match op
    case OpForwardAdd(na, np, sa, sp, proto) =>
      ForwardAddForm(s, na, np, sa, sp, proto);
      AddKeeps(s, NewTuple(0, 0, sa, sp, na, np, proto).(portForward := true));
    case OpForwardDel(np, proto) => DelIff(s, np, proto, id);
    case OpCleanup(order) => CleanupKeeps(s, order);
    case OpOutbound(p, na, random) => if Translated(p.proto) { PacketKeepsOut(s, p, na, random); }
    case OpInbound(p) => if Translated(p.proto) { PacketKeepsIn(s, p); }
  }

  lemma PacketKeepsOut(s: State, p: Packet, natAddr: nat, random: Option<nat>)
    requires Sound(s) && Translated(p.proto)
    ensures s.store.Keys <= Outbound(s, p, natAddr, random).state.store.Keys
  {
    hide Agree;
    hide Drawn;
    hide Add;
    if random.Some? {
      AddKeeps(s, NewTuple(p.dstAddr, p.dstPort, p.srcAddr, p.srcPort, natAddr, DrawPort(random.value), p.proto));
    }
  }

  lemma PacketKeepsIn(s: State, p: Packet)
    requires Sound(s) && Translated(p.proto)
    ensures s.store.Keys <= Inbound(s, p).state.store.Keys
  {}

  /** Over every run a TCP or UDP port forward is there if and only if no call deleted it. */
  lemma {:induction false} ForwardLivesIff(s: State, ops: seq<Op>, id: nat)
    requires Sound(s) && Forwards(s, id)
    ensures var u := Run(s, ops);
            && Sound(u) && Evolves(s, u)
            && (id in u.store <==> forall op <- ops :: !Deletes(op, s.store[id]))
            && (id in u.store ==> Forwards(u, id))
  {
    hide Agree;
    hide Drawn;
    hide Step;
    hide Deletes;
    RunAgree(s, ops);
    if ops != [] {
      var front, op := ops[..|ops| - 1], ops[|ops| - 1];
      assert ops == front + [op];
      ForwardLivesIff(s, front, id);
      var u := Run(s, front);
      if id in u.store {
        ForwardStepIff(u, op, id);
        SameDeletes(op, u.store[id], s.store[id]);
      } else {
        StepKeeps(u, op);
        Numbered(s, id);
      }
    }
  }

  lemma SameDeletes(op: Op, a: Tuple, b: Tuple)
    requires SameFlow(a, b)
    ensures Deletes(op, a) <==> Deletes(op, b)
  {}

  /** A forward set up after any run sends what comes in for its port to the host it names, for
      as long as no call deletes it. */
  lemma ForwardReaches(before: seq<Op>, natAddr: nat, natPort: nat, srcAddr: nat, srcPort: nat, proto: nat,
                       after: seq<Op>, p: Packet)
    requires Translated(proto) && natPort != 0 && p.proto == proto && p.dstPort == natPort
    requires ForwardAdd(Run(EMPTY, before), natAddr, natPort, srcAddr, srcPort, proto).1
    requires forall op <- after ::
               op.OpForwardDel? && op.proto == proto ==>
                 op.natPort != natPort && (op.natPort == 0 ==> srcAddr != 0 || srcPort != 0)
    ensures var s := ForwardAdd(Run(EMPTY, before), natAddr, natPort, srcAddr, srcPort, proto).0;
            Inbound(Run(s, after), p).result == Some(p.(dstAddr := srcAddr, dstPort := srcPort))
  {
    var s0 := Run(EMPTY, before);
    RunAgree(EMPTY, before);
    ForwardAdded(s0, natAddr, natPort, srcAddr, srcPort, proto);
    var s := ForwardAdd(s0, natAddr, natPort, srcAddr, srcPort, proto).0;
    hide Run;
    hide ForwardAdd;
    hide Agree;
    hide Drawn;
    ForwardLivesIff(s, after, s0.next);
    FindSelf(Run(s, after), s0.next);
    hide FindTuple;
  }

  lemma ForwardAdded(s: State, natAddr: nat, natPort: nat, srcAddr: nat, srcPort: nat, proto: nat)
    requires Sound(s) && Translated(proto) && ForwardAdd(s, natAddr, natPort, srcAddr, srcPort, proto).1
    ensures var t := ForwardAdd(s, natAddr, natPort, srcAddr, srcPort, proto).0;
            && Sound(t) && Forwards(t, s.next)
            && SameFlow(t.store[s.next], NewTuple(0, 0, srcAddr, srcPort, natAddr, natPort, proto))
  {
    hide Agree;
    hide Drawn;
    hide Add;
    hide ForwardAdd;
    ForwardAddKeeps(s, natAddr, natPort, srcAddr, srcPort, proto);
    ForwardAddForm(s, natAddr, natPort, srcAddr, srcPort, proto);
    AddKeeps(s, NewTuple(0, 0, srcAddr, srcPort, natAddr, natPort, proto).(portForward := true));
  }
}
