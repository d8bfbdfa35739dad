/** Network address translation: one set of tuples indexed twice, by the inside endpoint and
    by the translated port. Tuples are heap objects reachable from both trees, so they are
    modelled as a store with numbered cells. */
module Nat {
  import opened Wrappers

  const PROTO_ICMP4: nat := 1
  const PROTO_TCP: nat := 6
  const PROTO_UDP: nat := 17

  datatype Tuple = Tuple(
    proto: nat,
    connActive: nat,
    portForward: bool,
    rst: bool, syn: bool, finIn: bool, finOut: bool,
    srcAddr: nat, srcPort: nat,
    dstAddr: nat, dstPort: nat,
    natAddr: nat, natPort: nat)

  datatype OutKey = OutKey(addr: nat, port: nat, proto: nat)
  datatype InKey = InKey(port: nat, proto: nat)

  function OutKeyOf(t: Tuple): OutKey { OutKey(t.srcAddr, t.srcPort, t.proto) }
  function InKeyOf(t: Tuple): InKey { InKey(t.natPort, t.proto) }

  /** NATOutbound, NATInbound, the allocated tuples, and the next free cell. */
  datatype State = State(
    outbound: map<OutKey, nat>,
    inbound: map<InKey, nat>,
    store: map<nat, Tuple>,
    next: nat)

  const EMPTY: State := State(map[], map[], map[], 0)

  // ---------- the operations ----------

  /** By port and protocol, or by source endpoint and protocol when the port is zero. */
  function FindTuple(s: State, natPort: nat, srcAddr: nat, srcPort: nat, proto: nat): Option<nat> {
    if natPort != 0 then
      if InKey(natPort, proto) in s.inbound then Some(s.inbound[InKey(natPort, proto)]) else None
    else
      if OutKey(srcAddr, srcPort, proto) in s.outbound then Some(s.outbound[OutKey(srcAddr, srcPort, proto)])
      else None
  }

  /** Inserts into one tree and then the other, and takes the first insertion back when the
      second one finds its key taken. */
  function Add(s: State, t: Tuple): (State, Option<nat>) {
    var id := s.next;
    if OutKeyOf(t) in s.outbound then (s, None)
    else
      var s1 := s.(outbound := s.outbound[OutKeyOf(t) := id]);
      if InKeyOf(t) in s1.inbound then (s1.(outbound := s1.outbound - {OutKeyOf(t)}), None)
      else
        (s1.(inbound := s1.inbound[InKeyOf(t) := id], store := s1.store[id := t], next := id + 1), Some(id))
  }

  function NewTuple(dstAddr: nat, dstPort: nat, srcAddr: nat, srcPort: nat,
                    natAddr: nat, natPort: nat, proto: nat): Tuple {
    Tuple(proto, 1, false, false, false, false, false, srcAddr, srcPort, dstAddr, dstPort, natAddr, natPort)
  }

  function Remove(s: State, id: nat): State
    requires id in s.store
  {
    var t := s.store[id];
    s.(outbound := s.outbound - {OutKeyOf(t)}, inbound := s.inbound - {InKeyOf(t)}, store := s.store - {id})
  }

  function Del(s: State, natPort: nat, proto: nat): State {
    match FindTuple(s, natPort, 0, 0, proto)
    case None => s
    case Some(id) => if id in s.store then Remove(s, id) else s
  }

  /** PICO_NAT_PORT_FORWARD_ADD. */
  function ForwardAdd(s: State, natAddr: nat, natPort: nat, srcAddr: nat, srcPort: nat, proto: nat): (State, bool) {
    var (s1, id) := Add(s, NewTuple(0, 0, srcAddr, srcPort, natAddr, natPort, proto));
    match id
    case None => (s1, false)
    case Some(i) =>
      if i in s1.store then (Update(s1, i, s1.store[i].(portForward := true)), true) else (s1, true)
  }

  function Update(s: State, id: nat, t: Tuple): State {
    s.(store := s.store[id := t])
  }

  function SetActive(s: State, id: nat, n: nat): State
    requires id in s.store
  {
    Update(s, id, s.store[id].(connActive := n))
  }

  /** Protocols without a case of their own: deleted after two rounds. */
  function AgeDefault(s: State, id: nat): State
    requires id in s.store
  {
    var t := s.store[id];
    if t.connActive > 1 then Del(s, t.natPort, t.proto) else SetActive(s, id, t.connActive + 1)
  }

  /** What the periodic cleanup does with one tuple. The ICMP case runs on into the default,
      after a deletion with what the freed tuple still says. */
  function Age(s: State, id: nat): State
    requires id in s.store
  {
    var t := s.store[id];
    if t.proto == PROTO_TCP then
      if t.portForward then s
      else if t.connActive == 0 || t.connActive > 360 then Del(s, t.natPort, t.proto)
      else if t.rst || (t.finIn && t.finOut) then SetActive(s, id, 0)
      else SetActive(s, id, t.connActive + 1)
    else if t.proto == PROTO_UDP then
      if t.portForward then s
      else if t.connActive > 1 then Del(s, t.natPort, t.proto)
      else SetActive(s, id, t.connActive + 1)
    else if t.proto == PROTO_ICMP4 then
      if t.connActive > 1 then Del(Del(s, t.natPort, t.proto), t.natPort, t.proto)
      else AgeDefault(SetActive(s, id, t.connActive + 1), id)
    else AgeDefault(s, id)
  }

  /** The cleanup over the tuples of the outbound tree, in the order of its scan. */
  function Cleanup(s: State, order: seq<nat>): State {
    if order == [] then s
    else
      var s1 := Cleanup(s, order[..|order| - 1]);
      var id := order[|order| - 1];
      if id in s1.store then Age(s1, id) else s1
  }

  // ---------- packets ----------

  datatype TcpFlags = TcpFlags(syn: bool, rst: bool, fin: bool)

  datatype Packet = Packet(
    proto: nat,
    srcAddr: nat, srcPort: nat,
    dstAddr: nat, dstPort: nat,
    flags: TcpFlags)

  predicate Translated(proto: nat) { proto == PROTO_TCP || proto == PROTO_UDP }

  function Sniff(t: Tuple, p: Packet, outgoing: bool): Tuple {
    if p.proto == PROTO_TCP then
      t.(syn := t.syn || p.flags.syn,
         rst := t.rst || p.flags.rst,
         finIn := t.finIn || (p.flags.fin && !outgoing),
         finOut := t.finOut || (p.flags.fin && outgoing))
    else t.(connActive := 1)
  }

  function Swap(port: nat): nat
    requires port < 0x10000
  {
    port % 256 * 256 + port / 256
  }

  /** The port drawn for a new flow, in network byte order. */
  function DrawPort(random: nat): (port: nat)
    ensures 0 < port < 0x10000
  {
    Swap(random % 0x10000 % (65535 - 1024) + 1024)
  }

  datatype Outcome = Outcome(state: State, result: Option<Packet>)

  /** The cell of the tuple an outgoing packet uses, and the state once it exists. */
  function FlowOf(s: State, p: Packet, natAddr: nat, random: Option<nat>): (State, Option<nat>) {
    match FindTuple(s, 0, p.srcAddr, p.srcPort, p.proto)
    case Some(id) => (s, Some(id))
    case None => (
      match random
      case None => (s, None)
      case Some(r) =>
        Add(s, NewTuple(p.dstAddr, p.dstPort, p.srcAddr, p.srcPort, natAddr, DrawPort(r), p.proto)))
  }

  /** Outgoing TCP or UDP: the flow's tuple is looked up or made, and the source rewritten.
      `random` is the draw that found a free port; with none, or with a tuple that cannot be
      added, the original goes on through a null pointer, here a missing result. */
  function Outbound(s: State, p: Packet, natAddr: nat, random: Option<nat>): Outcome
    requires Translated(p.proto)
  {
    var (s1, id) := FlowOf(s, p, natAddr, random);
    if id.None? || id.value !in s1.store then Outcome(s1, None)
    else
      var t := s1.store[id.value];
      Outcome(Update(s1, id.value, Sniff(t, p, true)),
              Some(p.(srcAddr := t.natAddr, srcPort := t.natPort)))
  }

  /** Incoming TCP or UDP for the translated address: the destination is rewritten. */
  function Inbound(s: State, p: Packet): Outcome
    requires Translated(p.proto)
  {
    match FindTuple(s, p.dstPort, 0, 0, p.proto)
    case None => Outcome(s, None)
    case Some(id) =>
      if id !in s.store then Outcome(s, None)
      else
        var t := s.store[id];
        Outcome(Update(s, id, Sniff(t, p, false)),
                Some(p.(dstAddr := t.srcAddr, dstPort := t.srcPort)))
  }

  datatype Op =
    | OpForwardAdd(natAddr: nat, natPort: nat, srcAddr: nat, srcPort: nat, proto: nat)
    | OpForwardDel(natPort: nat, proto: nat)
    | OpCleanup(order: seq<nat>)
    | OpOutbound(packet: Packet, natAddr: nat, random: Option<nat>)
    | OpInbound(packet: Packet)

  function Step(s: State, op: Op): State {
    match op
    case OpForwardAdd(na, np, sa, sp, proto) => ForwardAdd(s, na, np, sa, sp, proto).0
    case OpForwardDel(np, proto) => Del(s, np, proto)
    case OpCleanup(order) => Cleanup(s, order)
    case OpOutbound(p, na, random) => if Translated(p.proto) then Outbound(s, p, na, random).state else s
    case OpInbound(p) => if Translated(p.proto) then Inbound(s, p).state else s
  }

  function Run(s: State, ops: seq<Op>): State {
    if ops == [] then s else Step(Run(s, ops[..|ops| - 1]), ops[|ops| - 1])
  }

  // ---------- the two indices agree ----------

  /** Both trees hold exactly the allocated tuples, each under its own key. */
  ghost predicate Agree(s: State) {
    && (forall id <- s.store ::
          && id < s.next
          && OutKeyOf(s.store[id]) in s.outbound && s.outbound[OutKeyOf(s.store[id])] == id
          && InKeyOf(s.store[id]) in s.inbound && s.inbound[InKeyOf(s.store[id])] == id)
    && (forall k <- s.outbound :: s.outbound[k] in s.store && OutKeyOf(s.store[s.outbound[k]]) == k)
    && (forall k <- s.inbound :: s.inbound[k] in s.store && InKeyOf(s.store[s.inbound[k]]) == k)
  }

  /** The fields no operation changes while a tuple lives. */
  predicate SameFlow(a: Tuple, b: Tuple) {
    && a.proto == b.proto && a.srcAddr == b.srcAddr && a.srcPort == b.srcPort
    && a.natAddr == b.natAddr && a.natPort == b.natPort && a.dstAddr == b.dstAddr && a.dstPort == b.dstPort
  }

  /** What every operation does to the tuples that were there: gone, or the same flow and
      forwarding exactly if it was. No cell is used twice. */
  ghost predicate Evolves(s: State, t: State) {
    && s.next <= t.next
    && (forall id <- t.store :: id in s.store ==>
          SameFlow(s.store[id], t.store[id]) && s.store[id].portForward == t.store[id].portForward)
    && (forall id <- t.store :: id !in s.store ==> id >= s.next)
  }

  /** Ports are drawn above zero, so only a port forward can have translated port zero. */
  ghost predicate Drawn(s: State) {
    forall id <- s.store :: Translated(s.store[id].proto) && s.store[id].natPort == 0 ==> s.store[id].portForward
  }

  predicate Forwards(s: State, id: nat) {
    id in s.store && Translated(s.store[id].proto) && s.store[id].portForward
  }

  lemma EvolvesTrans(s: State, t: State, u: State)
    requires Agree(s) && Evolves(s, t) && Evolves(t, u)
    ensures Evolves(s, u)
  {}

  function Added(s: State, t: Tuple): State {
    State(s.outbound[OutKeyOf(t) := s.next], s.inbound[InKeyOf(t) := s.next],
          s.store[s.next := t], s.next + 1)
  }

  /** Adding succeeds exactly when neither key is taken, and otherwise changes nothing. */
  lemma AddForm(s: State, t: Tuple)
    ensures Add(s, t) == if OutKeyOf(t) !in s.outbound && InKeyOf(t) !in s.inbound
                         then (Added(s, t), Some(s.next)) else (s, None)
  {
    if OutKeyOf(t) !in s.outbound && InKeyOf(t) in s.inbound {
      assert s.outbound[OutKeyOf(t) := s.next] - {OutKeyOf(t)} == s.outbound;
    }
  }

  lemma AddedKeeps(s: State, t: Tuple)
    requires Agree(s) && OutKeyOf(t) !in s.outbound && InKeyOf(t) !in s.inbound
    ensures Agree(Added(s, t)) && Evolves(s, Added(s, t))
  {}

  lemma AddKeeps(s: State, t: Tuple)
    requires Agree(s)
    ensures Agree(Add(s, t).0) && Evolves(s, Add(s, t).0)
    ensures Drawn(s) && (t.portForward || t.natPort != 0) ==> Drawn(Add(s, t).0)
    ensures Add(s, t).1.None? ==> Add(s, t).0 == s
    ensures Add(s, t).1.Some? ==>
              && Add(s, t).1.value == s.next && Add(s, t).0.store == s.store[s.next := t]
  {
    hide Agree;
    hide Add;
    AddForm(s, t);
    if OutKeyOf(t) !in s.outbound && InKeyOf(t) !in s.inbound {
      hide Evolves;
      AddedKeeps(s, t);
    }
  }

  lemma RemoveKeeps(s: State, id: nat)
    requires Agree(s) && id in s.store
    ensures Agree(Remove(s, id)) && Evolves(s, Remove(s, id))
    ensures Remove(s, id).store == s.store - {id}
  {}

  lemma DelKeeps(s: State, natPort: nat, proto: nat)
    requires Agree(s)
    ensures Agree(Del(s, natPort, proto)) && Evolves(s, Del(s, natPort, proto))
  {
    match FindTuple(s, natPort, 0, 0, proto)
    case None =>
    case Some(id) => RemoveKeeps(s, id);
  }

  lemma UpdateKeeps(s: State, id: nat, t: Tuple)
    requires Agree(s) && id in s.store && SameFlow(s.store[id], t) && t.portForward == s.store[id].portForward
    ensures Agree(Update(s, id, t)) && Evolves(s, Update(s, id, t))
    ensures Drawn(s) ==> Drawn(Update(s, id, t))
    ensures forall other :: Forwards(s, other) ==> Forwards(Update(s, id, t), other)
  {}

  lemma DelForm(s: State, natPort: nat, proto: nat)
    requires Agree(s)
    ensures var found := FindTuple(s, natPort, 0, 0, proto);
            && (found.None? ==> Del(s, natPort, proto) == s)
            && (found.Some? ==> found.value in s.store && Del(s, natPort, proto).store == s.store - {found.value})
  {}

  /** Deleting a second time finds nothing. */
  lemma DelTwice(s: State, natPort: nat, proto: nat)
    requires Agree(s)
    ensures Del(Del(s, natPort, proto), natPort, proto) == Del(s, natPort, proto)
  {}

  /** A tuple with a port is what deleting that port deletes. */
  lemma FindSelf(s: State, id: nat)
    requires Agree(s) && id in s.store && s.store[id].natPort != 0
    ensures FindTuple(s, s.store[id].natPort, 0, 0, s.store[id].proto) == Some(id)
  {}

  /** A forward is added as if it had been one from the start. */
  lemma ForwardAddForm(s: State, natAddr: nat, natPort: nat, srcAddr: nat, srcPort: nat, proto: nat)
    requires Agree(s)
    ensures var tuple := NewTuple(0, 0, srcAddr, srcPort, natAddr, natPort, proto);
            && ForwardAdd(s, natAddr, natPort, srcAddr, srcPort, proto).0 == Add(s, tuple.(portForward := true)).0
            && ForwardAdd(s, natAddr, natPort, srcAddr, srcPort, proto).1
               == Add(s, tuple.(portForward := true)).1.Some?
  {
    hide Agree;
    var tuple := NewTuple(0, 0, srcAddr, srcPort, natAddr, natPort, proto);
    assert s.store[s.next := tuple][s.next := tuple.(portForward := true)]
        == s.store[s.next := tuple.(portForward := true)];
  }

  lemma ForwardAddKeeps(s: State, natAddr: nat, natPort: nat, srcAddr: nat, srcPort: nat, proto: nat)
    requires Agree(s) && Drawn(s)
    ensures var t := ForwardAdd(s, natAddr, natPort, srcAddr, srcPort, proto).0;
            Agree(t) && Evolves(s, t) && Drawn(t)
  {
    hide Agree;
    hide Evolves;
    hide Drawn;
    hide Add;
    hide ForwardAdd;
    ForwardAddForm(s, natAddr, natPort, srcAddr, srcPort, proto);
    AddKeeps(s, NewTuple(0, 0, srcAddr, srcPort, natAddr, natPort, proto).(portForward := true));
  }

  /** Deleting the port of a tuple that forwards nothing leaves all the forwards. */
  lemma DelForwards(s: State, id: nat)
    requires Agree(s) && Drawn(s) && id in s.store && !Forwards(s, id)
    ensures var t := s.store[id]; var d := Del(s, t.natPort, t.proto);
            Drawn(d) && forall other :: Forwards(s, other) ==> Forwards(d, other)
  {
    hide Del;
    hide FindTuple;
    var t := s.store[id];
    DelForm(s, t.natPort, t.proto);
    if t.natPort != 0 { FindSelf(s, id); }
    FoundProto(s, t.natPort, t.proto);
  }

  lemma SetActiveKeeps(s: State, id: nat, n: nat)
    requires Agree(s) && id in s.store
    ensures var t := SetActive(s, id, n);
            && Agree(t) && Evolves(s, t) && (Drawn(s) ==> Drawn(t))
            && (forall other :: Forwards(s, other) <==> Forwards(t, other))
            && id in t.store && SameFlow(s.store[id], t.store[id])
  {
    UpdateKeeps(s, id, s.store[id].(connActive := n));
  }

  lemma AgeDefaultKeeps(s: State, id: nat)
    requires Agree(s) && Drawn(s) && id in s.store && !Forwards(s, id)
    ensures var t := AgeDefault(s, id);
            && Agree(t) && Evolves(s, t) && Drawn(t)
            && (forall other :: Forwards(s, other) ==> Forwards(t, other))
  {
    hide Agree;
    hide Evolves;
    hide Drawn;
    hide Forwards;
    hide Del;
    hide SetActive;
    var t := s.store[id];
    if t.connActive > 1 {
      DelKeeps(s, t.natPort, t.proto);
      DelForwards(s, id);
    } else {
      SetActiveKeeps(s, id, t.connActive + 1);
    }
  }

  lemma AgeKeeps(s: State, id: nat)
    requires Agree(s) && Drawn(s) && id in s.store
    ensures Agree(Age(s, id)) && Evolves(s, Age(s, id)) && Drawn(Age(s, id))
    ensures forall other :: Forwards(s, other) ==> Forwards(Age(s, id), other)
  {
    hide Agree;
    hide Drawn;
    hide AgeDefault;
    hide Del;
    hide SetActive;
    var t := s.store[id];
    if Forwards(s, id) {
      assert Age(s, id) == s;
    } else {
      assert t.portForward ==> !Translated(t.proto);
      hide Forwards;
      hide Evolves;
      DelKeeps(s, t.natPort, t.proto);
      DelTwice(s, t.natPort, t.proto);
      DelForwards(s, id);
      SetActiveKeeps(s, id, 0);
      SetActiveKeeps(s, id, t.connActive + 1);
      AgeDefaultKeeps(s, id);
      if t.proto == PROTO_ICMP4 && t.connActive <= 1 {
        var s1 := SetActive(s, id, t.connActive + 1);
        AgeDefaultKeeps(s1, id);
        EvolvesTrans(s, s1, AgeDefault(s1, id));
      } else {
        var d := Del(s, t.natPort, t.proto);
        assert Age(s, id) == d || Age(s, id) == SetActive(s, id, 0)
            || Age(s, id) == SetActive(s, id, t.connActive + 1) || Age(s, id) == AgeDefault(s, id);
        hide Age;
      }
    }
  }

  lemma FoundProto(s: State, natPort: nat, proto: nat)
    requires Agree(s)
    ensures var found := FindTuple(s, natPort, 0, 0, proto);
            found.Some? ==> found.value in s.store && s.store[found.value].proto == proto
  {}

  lemma {:induction false} CleanupKeeps(s: State, order: seq<nat>)
    requires Agree(s) && Drawn(s)
    ensures Agree(Cleanup(s, order)) && Evolves(s, Cleanup(s, order)) && Drawn(Cleanup(s, order))
    ensures forall other :: Forwards(s, other) ==> Forwards(Cleanup(s, order), other)
  {
    hide Age;
    hide Agree;
    if order == [] {
      assert Evolves(s, s);
    } else {
      CleanupKeeps(s, order[..|order| - 1]);
      var s1 := Cleanup(s, order[..|order| - 1]);
      var id := order[|order| - 1];
      if id in s1.store {
        AgeKeeps(s1, id);
        EvolvesTrans(s, s1, Age(s1, id));
      }
    }
  }

  /** The tuple of a packet's flow. */
  predicate Carries(s: State, id: nat, p: Packet) {
    && id in s.store && s.store[id].proto == p.proto
    && s.store[id].srcAddr == p.srcAddr && s.store[id].srcPort == p.srcPort
  }

  lemma FlowOfKeeps(s: State, p: Packet, natAddr: nat, random: Option<nat>)
    requires Agree(s) && Drawn(s)
    ensures var (s1, id) := FlowOf(s, p, natAddr, random);
            && Agree(s1) && Evolves(s, s1) && Drawn(s1) && (id.Some? ==> Carries(s1, id.value, p))
  {
    hide Add;
    hide Drawn;
    var found := FindTuple(s, 0, p.srcAddr, p.srcPort, p.proto);
    if found.None? && random.Some? {
      hide Agree;
      hide Evolves;
      AddKeeps(s, NewTuple(p.dstAddr, p.dstPort, p.srcAddr, p.srcPort, natAddr, DrawPort(random.value), p.proto));
    }
  }

  lemma OutboundKeeps(s: State, p: Packet, natAddr: nat, random: Option<nat>) returns (id: nat)
    requires Agree(s) && Drawn(s) && Translated(p.proto)
    ensures var o := Outbound(s, p, natAddr, random);
            && Agree(o.state) && Evolves(s, o.state) && Drawn(o.state)
            && (o.result.Some? ==>
                  && Carries(o.state, id, p)
                  && o.result == Some(p.(srcAddr := o.state.store[id].natAddr, srcPort := o.state.store[id].natPort)))
  {
    hide Agree;
    hide Evolves;
    hide Drawn;
    hide FlowOf;
    FlowOfKeeps(s, p, natAddr, random);
    var (s1, cell) := FlowOf(s, p, natAddr, random);
    id := if cell.Some? then cell.value else 0;
    if cell.Some? {
      UpdateKeeps(s1, id, Sniff(s1.store[id], p, true));
      EvolvesTrans(s, s1, Update(s1, id, Sniff(s1.store[id], p, true)));
    }
  }

  lemma InboundKeeps(s: State, p: Packet)
    requires Agree(s) && Drawn(s) && Translated(p.proto)
    ensures Agree(Inbound(s, p).state) && Evolves(s, Inbound(s, p).state) && Drawn(Inbound(s, p).state)
  {
    var found := FindTuple(s, p.dstPort, 0, 0, p.proto);
    if found.Some? { UpdateKeeps(s, found.value, Sniff(s.store[found.value], p, false)); }
  }

  lemma StepKeeps(s: State, op: Op)
    requires Agree(s) && Drawn(s)
    ensures Agree(Step(s, op)) && Evolves(s, Step(s, op)) && Drawn(Step(s, op))
  {
    hide Outbound;
    hide Inbound;
    hide ForwardAdd;
    hide Cleanup;
    hide Del;
    match op
    case OpForwardAdd(na, np, sa, sp, proto) => ForwardAddKeeps(s, na, np, sa, sp, proto);
    case OpForwardDel(np, proto) => DelKeeps(s, np, proto); DelForm(s, np, proto);
    case OpCleanup(order) => CleanupKeeps(s, order);
    case OpOutbound(p, na, random) => if Translated(p.proto) { var _ := OutboundKeeps(s, p, na, random); }
    case OpInbound(p) => if Translated(p.proto) { InboundKeeps(s, p); }
  }

  /** After every run both trees hold the same tuples, each under its own unique key. */
  lemma {:induction false} RunAgree(s: State, ops: seq<Op>)
    requires Agree(s) && Drawn(s)
    ensures Agree(Run(s, ops)) && Drawn(Run(s, ops)) && Evolves(s, Run(s, ops))
  {
    hide Agree;
    hide Step;
    if ops == [] {
      assert Evolves(s, s);
    } else {
      RunAgree(s, ops[..|ops| - 1]);
      StepKeeps(Run(s, ops[..|ops| - 1]), ops[|ops| - 1]);
      EvolvesTrans(s, Run(s, ops[..|ops| - 1]), Run(s, ops));
    }
  }

  /** Two different live flows of one protocol never share a translated port. */
  lemma PortsUnique(ops: seq<Op>, a: nat, b: nat)
    requires a in Run(EMPTY, ops).store && b in Run(EMPTY, ops).store && a != b
    ensures var s := Run(EMPTY, ops);
            && s.inbound.Values == s.store.Keys && s.outbound.Values == s.store.Keys
            && InKeyOf(s.store[a]) != InKeyOf(s.store[b]) && OutKeyOf(s.store[a]) != OutKeyOf(s.store[b])
  {
    RunAgree(EMPTY, ops);
    var s := Run(EMPTY, ops);
    assert s.inbound.Values == s.store.Keys by {
      forall id <- s.store ensures id in s.inbound.Values { assert s.inbound[InKeyOf(s.store[id])] == id; }
    }
    assert s.outbound.Values == s.store.Keys by {
      forall id <- s.store ensures id in s.outbound.Values { assert s.outbound[OutKeyOf(s.store[id])] == id; }
    }
  }

  /** After any run, send a packet out; after any further run during which its tuple lives, a
      reply to the translated source comes back to the original source endpoint. */
  lemma ReplyReachesSource(before: seq<Op>, p: Packet, natAddr: nat, random: Option<nat>, after: seq<Op>, reply: Packet)
    requires Translated(p.proto)
    requires var o := Outbound(Run(EMPTY, before), p, natAddr, random);
             && o.result.Some?
             && o.result.value.srcPort != 0
             && reply.proto == p.proto
             && reply.dstPort == o.result.value.srcPort
             && (forall id :: Carries(o.state, id, p) ==> id in Run(o.state, after).store)
    ensures var o := Outbound(Run(EMPTY, before), p, natAddr, random);
            Inbound(Run(o.state, after), reply).result == Some(reply.(dstAddr := p.srcAddr, dstPort := p.srcPort))
  {
    hide Outbound;
    RunAgree(EMPTY, before);
    var id := OutboundKeeps(Run(EMPTY, before), p, natAddr, random);
    var o := Outbound(Run(EMPTY, before), p, natAddr, random);
    RunAgree(o.state, after);
    var s := Run(o.state, after);
    assert SameFlow(o.state.store[id], s.store[id]);
    FindSelf(s, id);
  }

  /** No cleanup ever removes a TCP or UDP port forward. */
  lemma ForwardsSurviveCleanup(ops: seq<Op>, order: seq<nat>, id: nat)
    requires Forwards(Run(EMPTY, ops), id)
    ensures Forwards(Cleanup(Run(EMPTY, ops), order), id)
    ensures SameFlow(Run(EMPTY, ops).store[id], Cleanup(Run(EMPTY, ops), order).store[id])
  {
    RunAgree(EMPTY, ops);
    CleanupKeeps(Run(EMPTY, ops), order);
  }

  lemma OutboundFound(s: State, id: nat, q: Packet, natAddr: nat, random: Option<nat>)
    requires Agree(s) && Translated(q.proto) && Carries(s, id, q)
    ensures var o := Outbound(s, q, natAddr, random);
            && o.result == Some(q.(srcAddr := s.store[id].natAddr, srcPort := s.store[id].natPort))
            && o.state == Update(s, id, Sniff(s.store[id], q, true))
  {
    assert FindTuple(s, 0, q.srcAddr, q.srcPort, q.proto) == Some(id);
  }

  /** The original goes on through a null pointer exactly when the flow is unknown and either
      no port was drawn or the one drawn is taken. */
  lemma NoResultIff(ops: seq<Op>, p: Packet, natAddr: nat, random: Option<nat>)
    requires Translated(p.proto)
    ensures var s := Run(EMPTY, ops);
            Outbound(s, p, natAddr, random).result.None? <==>
            && OutKey(p.srcAddr, p.srcPort, p.proto) !in s.outbound
            && (random.None? || InKey(DrawPort(random.value), p.proto) in s.inbound)
  {
    var s := Run(EMPTY, ops);
    RunAgree(EMPTY, ops);
    hide Run;
    if random.Some? {
      hide Add;
      hide DrawPort;
      AddForm(s, NewTuple(p.dstAddr, p.dstPort, p.srcAddr, p.srcPort, natAddr, DrawPort(random.value), p.proto));
    }
  }

  /** A packet of the same flow finds its tuple again and leaves with the same source. */
  lemma SameFlowSameSource(ops: seq<Op>, p: Packet, q: Packet, natAddr: nat, random: Option<nat>, random2: Option<nat>)
    requires Translated(p.proto) && q.proto == p.proto && q.srcAddr == p.srcAddr && q.srcPort == p.srcPort
    requires Outbound(Run(EMPTY, ops), p, natAddr, random).result.Some?
    ensures var o := Outbound(Run(EMPTY, ops), p, natAddr, random);
            var o2 := Outbound(o.state, q, natAddr, random2);
            && o2.result == Some(q.(srcAddr := o.result.value.srcAddr, srcPort := o.result.value.srcPort))
            && o2.state.store.Keys == o.state.store.Keys
  {
    assert Agree(EMPTY) && Drawn(EMPTY);
    hide Outbound;
    hide Agree;
    hide Drawn;
    hide Run;
    RunAgree(EMPTY, ops);
    var id := OutboundKeeps(Run(EMPTY, ops), p, natAddr, random);
    var o := Outbound(Run(EMPTY, ops), p, natAddr, random);
    OutboundFound(o.state, id, q, natAddr, random2);
  }

  /** The two trees and the tuples, updated in place. */
  class Table {
    var outbound: map<OutKey, nat>
    var inbound: map<InKey, nat>
    var store: map<nat, Tuple>
    var next: nat

    function View(): State
      reads this
    {
      State(outbound, inbound, store, next)
    }

    constructor ()
      ensures View() == EMPTY
    {
      outbound, inbound, store, next := map[], map[], map[], 0;
    }

    method AddTuple(t: Tuple) returns (id: Option<nat>)
      modifies this
      ensures (View(), id) == Add(old(View()), t)
    {
      if OutKeyOf(t) in outbound { return None; }
      outbound := outbound[OutKeyOf(t) := next];
      if InKeyOf(t) in inbound {
        outbound := outbound - {OutKeyOf(t)};
        return None;
      }
      inbound := inbound[InKeyOf(t) := next];
      store := store[next := t];
      id := Some(next);
      next := next + 1;
    }

    method Delete(natPort: nat, proto: nat)
      modifies this
      ensures View() == Del(old(View()), natPort, proto)
    {
      var found := FindTuple(View(), natPort, 0, 0, proto);
      if found.Some? && found.value in store {
        var t := store[found.value];
        outbound := outbound - {OutKeyOf(t)};
        inbound := inbound - {InKeyOf(t)};
        store := store - {found.value};
      }
    }

    method PortForward(natAddr: nat, natPort: nat, srcAddr: nat, srcPort: nat, proto: nat) returns (ok: bool)
      modifies this
      ensures (View(), ok) == ForwardAdd(old(View()), natAddr, natPort, srcAddr, srcPort, proto)
    {
      var id := AddTuple(NewTuple(0, 0, srcAddr, srcPort, natAddr, natPort, proto));
      ok := id.Some?;
      if ok && id.value in store { store := store[id.value := store[id.value].(portForward := true)]; }
    }

    method Touch(id: nat, n: nat)
      requires id in store
      modifies this
      ensures View() == SetActive(old(View()), id, n)
    {
      store := store[id := store[id].(connActive := n)];
    }

    method AgeOther(id: nat)
      requires id in store
      modifies this
      ensures View() == AgeDefault(old(View()), id)
    {
      var t := store[id];
      if t.connActive > 1 { Delete(t.natPort, t.proto); } else { Touch(id, t.connActive + 1); }
    }

    method AgeTuple(id: nat)
      requires id in store
      modifies this
      ensures View() == Age(old(View()), id)
    {
      var t := store[id];
      if t.proto == PROTO_TCP {
        if t.portForward { return; }
        if t.connActive == 0 || t.connActive > 360 { Delete(t.natPort, t.proto); }
        else if t.rst || (t.finIn && t.finOut) { Touch(id, 0); }
        else { Touch(id, t.connActive + 1); }
      } else if t.proto == PROTO_UDP {
        if t.portForward { return; }
        if t.connActive > 1 { Delete(t.natPort, t.proto); } else { Touch(id, t.connActive + 1); }
      } else if t.proto == PROTO_ICMP4 {
        if t.connActive > 1 {
          Delete(t.natPort, t.proto);
          Delete(t.natPort, t.proto);
          return;
        }
        Touch(id, t.connActive + 1);
        AgeOther(id);
      } else {
        AgeOther(id);
      }
    }

    method CleanupTable(order: seq<nat>)
      modifies this
      ensures View() == Cleanup(old(View()), order)
    {
      for i := 0 to |order|
        invariant View() == Cleanup(old(View()), order[..i])
      {
        assert order[..i + 1][..i] == order[..i];
        if order[i] in store { AgeTuple(order[i]); }
      }
      assert order[..|order|] == order;
    }

    method TranslateOut(p: Packet, natAddr: nat, random: Option<nat>) returns (q: Option<Packet>)
      requires Translated(p.proto)
      modifies this
      ensures Outcome(View(), q) == Outbound(old(View()), p, natAddr, random)
    {
      var id := FindTuple(View(), 0, p.srcAddr, p.srcPort, p.proto);
      if id.None? && random.Some? {
        id := AddTuple(NewTuple(p.dstAddr, p.dstPort, p.srcAddr, p.srcPort, natAddr, DrawPort(random.value), p.proto));
      }
      if id.None? || id.value !in store { return None; }
      var t := store[id.value];
      store := store[id.value := Sniff(t, p, true)];
      q := Some(p.(srcAddr := t.natAddr, srcPort := t.natPort));
    }

    method TranslateIn(p: Packet) returns (q: Option<Packet>)
      requires Translated(p.proto)
      modifies this
      ensures Outcome(View(), q) == Inbound(old(View()), p)
    {
      var id := FindTuple(View(), p.dstPort, 0, 0, p.proto);
      if id.None? || id.value !in store { return None; }
      var t := store[id.value];
      store := store[id.value := Sniff(t, p, false)];
      q := Some(p.(dstAddr := t.srcAddr, dstPort := t.srcPort));
    }
  }
}
