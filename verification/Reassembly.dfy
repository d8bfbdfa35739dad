/** The reassembly tables of both IP versions as state machines over arriving fragments. */
module Reassembly {
  import opened Bits
  import opened Fragments

  /** `tree` is the ordered tree of held fragments, keyed by offset. */
  datatype State = State(tree: seq<Packet>, curId: nat)

  /** A completed reassembly: the size of the buffer allocated for it, the transport length
      recorded in it, and the bytes copied behind the header. */
  datatype Datagram = Datagram(size: nat, len: nat, data: seq<byte>)

  function HeaderSize(v6: bool): nat { if v6 then 40 else 20 }

  /** Size and length are both cut to sixteen bits. */
  function Frame(len: nat, data: seq<byte>, v6: bool): Datagram {
    Datagram((HeaderSize(v6) + len) % 0x10000, len % 0x10000, data)
  }

  /** Header and data lie within the buffer. */
  predicate Fits(d: Datagram, v6: bool) { HeaderSize(v6) + |d.data| <= d.size }

  datatype Outcome = Waiting(state: State) | Delivered(state: State, datagram: Datagram)

  /** Tree insertion keeps the first of two fragments with one offset. */
  function Insert(tree: seq<Packet>, p: Packet): seq<Packet> {
    if tree == [] then [p]
    else
      var front, last := tree[..|tree| - 1], tree[|tree| - 1];
      if Offset(last) == Offset(p) then tree
      else if Offset(last) < Offset(p) then tree + [p]
      else Insert(front, p) + [last]
  }

  /** The scan for a gap-free prefix ending in a fragment without successor: the length it
      covers, or -1. */
  function Scan(tree: seq<Packet>, k: nat, bookmark: nat): int
    requires k <= |tree|
    decreases |tree| - k
  {
    if k == |tree| || Offset(tree[k]) != bookmark then -1
    else
      var next := bookmark + |tree[k].data|;
      if !More(tree[k]) then next else Scan(tree, k + 1, next)
  }

  /** Everything held, in order; this is what completion copies. */
  function Bytes(tree: seq<Packet>): seq<byte> {
    if tree == [] then [] else Bytes(tree[..|tree| - 1]) + tree[|tree| - 1].data
  }

  function CheckComplete(s: State, v6: bool): Outcome {
    var len := Scan(s.tree, 0, 0);
    if len < 0 then Waiting(s)
    else Delivered(State([], if v6 then s.curId else 0), Frame(len, Bytes(s.tree), v6))
  }

  predicate Match(a: Packet, b: Packet) { a.src == b.src && a.dst == b.dst }

  /** One fragment. `stale` is the offset the receive frame happens to carry before its own
      field is filled in (0 for a frame fresh from a device); the IPv4 code tests that one
      when it decides whether to give up an older datagram. */
  function Process(s: State, p: Packet, stale: nat, v6: bool): Outcome {
    var s1 := if !v6 && s.tree != [] && p.id != s.curId && stale == 0 then State([], 0) else s;
    if s1.tree == [] then
      if s1.curId != 0 && p.id == s1.curId then Waiting(s1)
      else CheckComplete(State([p], p.id), v6)
    else if Match(p, s1.tree[0]) && p.id == s1.curId then
      CheckComplete(State(Insert(s1.tree, p), s1.curId), v6)
    else CheckComplete(s1, v6)
  }

  /** The timer drops what is held and keeps the identification. */
  function Expire(s: State): State { s.(tree := []) }

  // ---------- the table as an object ----------

  class Table {
    const v6: bool
    var tree: seq<Packet>
    var curId: nat
    var delivered: seq<Datagram>

    ghost function View(): State
      reads this
    {
      State(tree, curId)
    }

    constructor (v6: bool)
      ensures this.v6 == v6 && View() == State([], 0) && delivered == []
    {
      this.v6 := v6;
      tree, curId, delivered := [], 0, [];
    }

    /** The gap scan, and on success the copy of all fragments into one frame. */
    method Check()
      modifies this
      ensures match CheckComplete(old(View()), v6)
              case Waiting(s) => View() == s && delivered == old(delivered)
              case Delivered(s, d) => View() == s && delivered == old(delivered) + [d]
    {
      var bookmark: nat := 0;
      for k := 0 to |tree|
        invariant View() == old(View()) && delivered == old(delivered)
        invariant Scan(tree, 0, 0) == Scan(tree, k, bookmark)
      {
        if Offset(tree[k]) != bookmark {
          return;
        }
        bookmark := bookmark + |tree[k].data|;
        if !More(tree[k]) {
          Complete(bookmark);
          return;
        }
      }
    }

    method Complete(len: nat)
      modifies this
      ensures View() == State([], if v6 then old(curId) else 0)
      ensures delivered == old(delivered) + [Frame(len, Bytes(old(tree)), v6)]
    {
      var data := [];
      for i := 0 to |tree|
        invariant data == Bytes(tree[..i])
        invariant View() == old(View()) && delivered == old(delivered)
      {
        assert tree[..i + 1][..i] == tree[..i];
        data := data + tree[i].data;
      }
      assert tree[..|tree|] == tree;
      tree := [];
      if !v6 {
        curId := 0;
      }
      var size := (HeaderSize(v6) + len) % 0x10000;
      delivered := delivered + [Datagram(size, len % 0x10000, data)];
    }

    method OnFragment(p: Packet, stale: nat)
      modifies this
      ensures match Process(old(View()), p, stale, v6)
              case Waiting(s) => View() == s && delivered == old(delivered)
              case Delivered(s, d) => View() == s && delivered == old(delivered) + [d]
    {
      var first := tree != [];
      if !v6 && first && p.id != curId && stale == 0 {
        tree, curId, first := [], 0, false;
      }
      if !first {
        if curId != 0 && p.id == curId {
          return;
        }
        curId := p.id;
      }
      if !first || (Match(p, tree[0]) && p.id == curId) {
        tree := Insert(tree, p);
      }
      Check();
    }

    method OnExpire()
      modifies this`tree
      ensures View() == Expire(old(View()))
    {
      tree := [];
    }
  }

  // ---------- safety over every run ----------

  predicate Sorted(tree: seq<Packet>) {
    forall i, j :: 0 <= i < j < |tree| ==> Offset(tree[i]) < Offset(tree[j])
  }

  /** One identification, one source and one destination. */
  predicate OneDatagram(tree: seq<Packet>, id: nat) {
    forall i :: 0 <= i < |tree| ==> tree[i].id == id && tree[i].src == tree[0].src && tree[i].dst == tree[0].dst
  }

  /** All held fragments belong to one datagram, no two share an offset, and they are in
      order; an unfinished table holds no complete datagram. */
  predicate Consistent(s: State) {
    && Sorted(s.tree)
    && OneDatagram(s.tree, s.curId)
    && Scan(s.tree, 0, 0) < 0
  }

  lemma {:induction false} InsertKeeps(tree: seq<Packet>, p: Packet)
    requires Sorted(tree)
    ensures Sorted(Insert(tree, p)) && Insert(tree, p) != []
    ensures forall i :: 0 <= i < |Insert(tree, p)| ==> Insert(tree, p)[i] == p || Insert(tree, p)[i] in tree
  {
    hide Offset;
    if tree != [] {
      var front, last := tree[..|tree| - 1], tree[|tree| - 1];
      if Offset(last) > Offset(p) {
        InsertKeeps(front, p);
        assert forall x <- front :: x in tree && Offset(x) < Offset(last);
      }
    }
  }

  /** What is held stays, and a fragment is added unless one of its offset is held: of two with
      one offset the first is kept. */
  lemma {:induction false} FirstKept(tree: seq<Packet>, p: Packet)
    requires Sorted(tree)
    ensures forall x :: x in Insert(tree, p) <==>
              x in tree || (x == p && forall q <- tree :: Offset(q) != Offset(p))
  {
    hide Offset;
    if tree != [] {
      var front, last := tree[..|tree| - 1], tree[|tree| - 1];
      assert tree == front + [last];
      assert forall x <- front :: Offset(x) < Offset(last);
      FirstKept(front, p);
    }
  }

  datatype Event = Arrival(packet: Packet, stale: nat) | Timeout

  function Step(s: State, e: Event, v6: bool): Outcome {
    match e
    case Arrival(p, stale) => Process(s, p, stale, v6)
    case Timeout => Waiting(Expire(s))
  }

  function After(s: State, events: seq<Event>, v6: bool): State {
    if events == [] then s
    else Step(After(s, events[..|events| - 1], v6), events[|events| - 1], v6).state
  }

  function Deliveries(s: State, events: seq<Event>, v6: bool): seq<Datagram> {
    if events == [] then []
    else
      var front := events[..|events| - 1];
      Deliveries(s, front, v6) +
      match Step(After(s, front, v6), events[|events| - 1], v6)
      case Waiting(_) => []
      case Delivered(_, d) => [d]
  }

  lemma EmptyConsistent(id: nat)
    ensures Consistent(State([], id))
  {}

  lemma CheckKeeps(s: State, v6: bool)
    requires Sorted(s.tree)
    requires OneDatagram(s.tree, s.curId)
    ensures Consistent(CheckComplete(s, v6).state)
  {}

  lemma ProcessKeeps(s: State, p: Packet, stale: nat, v6: bool)
    requires Consistent(s)
    ensures Consistent(Process(s, p, stale, v6).state)
  {
    hide Scan;
    hide Offset;
    EmptyConsistent(0);
    var s1 := if !v6 && s.tree != [] && p.id != s.curId && stale == 0 then State([], 0) else s;
    if s1.tree == [] {
      CheckKeeps(State([p], p.id), v6);
    } else if Match(p, s1.tree[0]) && p.id == s1.curId {
      InsertKeeps(s1.tree, p);
      var tree := Insert(s1.tree, p);
      assert forall x <- s1.tree :: x.id == p.id && x.src == p.src && x.dst == p.dst;
      CheckKeeps(State(tree, s1.curId), v6);
    } else {
      CheckKeeps(s1, v6);
    }
  }

  /** Whatever arrives and whenever the timer fires, the table holds fragments of a single
      datagram, sorted and without duplicates, and never a complete one. */
  lemma {:induction false} RunConsistent(events: seq<Event>, v6: bool)
    ensures var t := After(State([], 0), events, v6);
            && Consistent(t)
            && forall p, q :: p in t.tree && q in t.tree ==> p.id == q.id && p.src == q.src && p.dst == q.dst
  {
    if events == [] {
      EmptyConsistent(0);
    } else {
      var s := After(State([], 0), events[..|events| - 1], v6);
      RunConsistent(events[..|events| - 1], v6);
      match events[|events| - 1] {
        case Arrival(p, stale) => ProcessKeeps(s, p, stale, v6);
        case Timeout => EmptyConsistent(s.curId);
      }
    }
  }

  /** Fragments of one datagram, all of them arrived in the run. */
  ghost predicate Gathered(tree: seq<Packet>, events: seq<Event>) {
    forall p <- tree ::
      && Arrived(p, events)
      && forall q <- tree :: p.id == q.id && p.src == q.src && p.dst == q.dst
  }

  ghost predicate Arrived(p: Packet, events: seq<Event>) { exists stale: nat :: Arrival(p, stale) in events }

  lemma GatheredLonger(tree: seq<Packet>, events: seq<Event>, e: Event)
    requires Gathered(tree, events)
    ensures Gathered(tree, events + [e])
  {
    forall p | p in tree ensures Arrived(p, events + [e]) {
      assert Arrived(p, events);
      var stale: nat :| Arrival(p, stale) in events;
      assert Arrival(p, stale) in events + [e];
    }
  }

  /** What is held after one more fragment, and what it delivers, is gathered. */
  lemma {:induction false} ProcessGathers(s: State, p: Packet, stale: nat, v6: bool, events: seq<Event>)
      returns (tree: seq<Packet>)
    requires Consistent(s) && Gathered(s.tree, events)
    ensures Gathered(tree, events + [Arrival(p, stale)])
    ensures var o := Process(s, p, stale, v6);
            Gathered(o.state.tree, events + [Arrival(p, stale)]) && (o.Delivered? ==> o.datagram.data == Bytes(tree))
  {
    hide Scan;
    hide Offset;
    hide Bytes;
    var more := events + [Arrival(p, stale)];
    GatheredLonger(s.tree, events, Arrival(p, stale));
    assert Arrival(p, stale) in more && Arrived(p, more);
    var s1 := if !v6 && s.tree != [] && p.id != s.curId && stale == 0 then State([], 0) else s;
    tree := s1.tree;
    if s1.tree == [] {
      tree := [p];
    } else if Match(p, s1.tree[0]) && p.id == s1.curId {
      InsertKeeps(s1.tree, p);
      tree := Insert(s1.tree, p);
      assert forall x <- tree :: x == p || x in s1.tree;
      assert s1.tree[0] in s1.tree;
    }
  }

  /** Over every run, each datagram delivered is made of fragments that arrived in it and share
      identification, source and destination: two hosts' fragments are never mixed. */
  lemma {:induction false} RunGathers(events: seq<Event>, v6: bool)
    ensures Gathered(After(State([], 0), events, v6).tree, events)
    ensures forall d <- Deliveries(State([], 0), events, v6) ::
              exists tree :: Gathered(tree, events) && d.data == Bytes(tree)
  {
    hide Process;
    hide Bytes;
    hide Gathered;
    if events == [] {
      GatheredEmpty([]);
    } else {
      var front, e := events[..|events| - 1], events[|events| - 1];
      assert events == front + [e];
      var s := After(State([], 0), front, v6);
      RunConsistent(front, v6);
      RunGathers(front, v6);
      hide Consistent;
      forall d | d in Deliveries(State([], 0), front, v6)
        ensures exists tree :: Gathered(tree, events) && d.data == Bytes(tree)
      {
        var tree :| Gathered(tree, front) && d.data == Bytes(tree);
        GatheredLonger(tree, front, e);
      }
      match e {
        case Arrival(p, stale) => var tree := ProcessGathers(s, p, stale, v6, front);
        case Timeout => GatheredEmpty(events);
      }
    }
  }

  lemma GatheredEmpty(events: seq<Event>)
    ensures Gathered([], events)
  {}

  // ---------- what a completed reassembly contains ----------

  /** How many fragments the successful scan went through. */
  function FinalCount(tree: seq<Packet>, k: nat, bookmark: nat): nat
    requires k <= |tree| && Scan(tree, k, bookmark) >= 0
    decreases |tree| - k
  {
    if !More(tree[k]) then k + 1 else FinalCount(tree, k + 1, bookmark + |tree[k].data|)
  }

  lemma BytesNext(tree: seq<Packet>, k: nat)
    requires k < |tree|
    ensures Bytes(tree[..k + 1]) == Bytes(tree[..k]) + tree[k].data
  {
    assert tree[..k + 1][..k] == tree[..k];
  }

  /** Fragments k..n each start where all earlier ones end, and all but the last of them
      announce a successor. */
  ghost predicate GapFree(tree: seq<Packet>, k: nat, n: nat)
    requires k < n <= |tree|
  {
    && (forall i :: k <= i < n ==> Offset(tree[i]) == |Bytes(tree[..i])|)
    && (forall i :: k <= i < n - 1 ==> More(tree[i]))
    && !More(tree[n - 1])
  }

  lemma GapFreeDown(tree: seq<Packet>, k: nat, n: nat)
    requires k + 1 < n <= |tree| && GapFree(tree, k + 1, n)
    requires Offset(tree[k]) == |Bytes(tree[..k])| && More(tree[k])
    ensures GapFree(tree, k, n)
  {
    hide Offset;
    hide More;
    hide Bytes;
  }

  lemma {:induction false} ScanForm(tree: seq<Packet>, k: nat, bookmark: nat)
    requires k <= |tree| && bookmark == |Bytes(tree[..k])| && Scan(tree, k, bookmark) >= 0
    ensures var n := FinalCount(tree, k, bookmark);
            && k < n <= |tree| && GapFree(tree, k, n)
            && Scan(tree, k, bookmark) == |Bytes(tree[..n])|
    decreases |tree| - k
  {
    hide Offset;
    BytesNext(tree, k);
    hide Bytes;
    if More(tree[k]) {
      hide GapFree;
      hide More;
      var next := bookmark + |tree[k].data|;
      assert Scan(tree, k, bookmark) == Scan(tree, k + 1, next);
      ScanForm(tree, k + 1, next);
      GapFreeDown(tree, k, FinalCount(tree, k + 1, next));
    }
  }

  lemma Associative(x: seq<byte>, y: seq<byte>, z: seq<byte>)
    ensures (x + y) + z == x + (y + z)
  {}

  lemma {:induction false} BytesConcat(a: seq<Packet>, b: seq<Packet>)
    ensures Bytes(a + b) == Bytes(a) + Bytes(b)
  {
    if b == [] {
      assert a + b == a;
    } else {
      var front, last := b[..|b| - 1], b[|b| - 1];
      BytesConcat(a, front);
      assert (a + b)[..|a + b| - 1] == a + front;
      Associative(Bytes(a), Bytes(front), last.data);
    }
  }

  lemma FrameForm(data: seq<byte>, v6: bool)
    requires |data| < 0x10000
    ensures var d := Frame(|data|, data, v6);
            && d.data == data && d.len == |data|
            && (Fits(d, v6) <==> HeaderSize(v6) + |data| < 0x10000)
  {}

  lemma FitsForm(run: seq<byte>, rest: seq<byte>, v6: bool)
    ensures var d := Frame(|run|, run + rest, v6);
            && (Fits(d, v6) <==> rest == [] && |run| <= if v6 then 65495 else 65515)
            && (Fits(d, v6) ==> d.data == run && d.len == |d.data|)
  {
    assert run + [] == run;
    assert rest != [] ==> |rest| >= 1;
  }

  /** A delivered datagram is a gap-free run of fragments up to one without successor, each
      starting where the previous ones end. The copy fits the buffer allocated for it exactly
      when no fragment held beyond the final one carries data and header and run together
      stay below 65536 bytes, and then it is the run and its length is recorded. */
  lemma DeliveredForm(s: State, v6: bool)
    requires CheckComplete(s, v6).Delivered?
    ensures var d, n := CheckComplete(s, v6).datagram, FinalCount(s.tree, 0, 0);
            && 0 < n <= |s.tree| && GapFree(s.tree, 0, n)
            && d == Frame(|Bytes(s.tree[..n])|, Bytes(s.tree[..n]) + Bytes(s.tree[n..]), v6)
            && (Fits(d, v6) <==>
                  Bytes(s.tree[n..]) == [] && |Bytes(s.tree[..n])| <= if v6 then 65495 else 65515)
            && (Fits(d, v6) ==> d.data == Bytes(s.tree[..n]) && d.len == |d.data|)
  {
    hide GapFree;
    hide Frame;
    hide Fits;
    assert s.tree[..0] == [] && Bytes([]) == [];
    hide Bytes;
    ScanForm(s.tree, 0, 0);
    var n := FinalCount(s.tree, 0, 0);
    BytesConcat(s.tree[..n], s.tree[n..]);
    assert s.tree[..n] + s.tree[n..] == s.tree;
    FitsForm(Bytes(s.tree[..n]), Bytes(s.tree[n..]), v6);
  }

  /** Two fragments that meet, with nothing beyond the final one, but with header and data of
      65536 bytes or more: the second arrival delivers them in a buffer they do not fit. */
  lemma OverlongOverruns(a: Packet, b: Packet, v6: bool)
    requires a.id == b.id != 0 && a.src == b.src && a.dst == b.dst
    requires Offset(a) == 0 && More(a) && Offset(b) == |a.data| > 0 && !More(b)
    requires |a.data| + |b.data| > if v6 then 65495 else 65515
    ensures var first := Process(State([], 0), a, 0, v6);
            && first == Waiting(State([a], a.id))
            && var second := Process(first.state, b, 0, v6);
            && second.Delivered? && second.datagram.data == a.data + b.data
            && !Fits(second.datagram, v6)
  {
    hide Offset;
    hide More;
    var tree := [a, b];
    assert Insert([a], b) == tree;
    assert Scan([a], 0, 0) < 0;
    assert Scan(tree, 1, |a.data|) == |a.data| + |b.data|;
    assert Scan(tree, 0, 0) == Scan(tree, 1, |a.data|);
    assert tree[..1] == [a] && [a][..0] == [];
    assert Bytes([a]) == a.data;
    assert Bytes(tree) == a.data + b.data;
  }

  /** Such fragments exist, each of a size an IPv4 packet can have. */
  lemma OverlongExists() returns (a: Packet, b: Packet)
    ensures |a.data| <= 0xFFFF - 20 && |b.data| <= 0xFFFF - 20
    ensures a.id == b.id != 0 && a.src == b.src && a.dst == b.dst
    ensures Offset(a) == 0 && More(a) && Offset(b) == |a.data| > 0 && !More(b)
    ensures |a.data| + |b.data| > 65515
  {
    a := Packet(1, 0, 0, MORE_FRAG, seq(65120, _ => 0));
    b := Packet(1, 0, 0, 65120 / 8, seq(416, _ => 0));
  }

  // ---------- late fragments ----------

  /** IPv6: once a datagram with a non-zero identification is delivered or has expired, its
      late fragments change nothing until another identification is accepted. */
  lemma {:induction false} LateFragmentsIgnored(s: State, events: seq<Event>)
    requires s.tree == [] && s.curId != 0
    requires forall e <- events :: e.Arrival? ==> e.packet.id == s.curId
    ensures After(s, events, true) == s && Deliveries(s, events, true) == []
  {
    if events != [] {
      assert events[|events| - 1] in events;
      LateFragmentsIgnored(s, events[..|events| - 1]);
    }
  }

  /** Both ways into that situation. */
  lemma DeliveryKeepsId(s: State, p: Packet, stale: nat)
    ensures var o := Process(s, p, stale, true);
            o.Delivered? ==> o.state.tree == [] && o.state.curId == (if s.tree == [] then p.id else s.curId)
    ensures Expire(s).tree == [] && Expire(s).curId == s.curId
  {}
}
