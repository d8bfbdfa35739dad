/** Fragmenting a payload and reassembling the fragments, in whatever order and however often
    each arrives before completion, gives the payload back. */
module FragmentRoundTrip {
  import opened Bits
  import opened Fragments
  import opened Reassembly

  // ---------- the shape of the pieces ----------

  /** The fragments of one datagram, as the splitter makes them. */
  predicate Split(frags: seq<Packet>, payload: seq<byte>) {
    && |frags| == PieceCount(|payload|) >= 2 && |payload| < 0x10000
    && forall i :: 0 <= i < |frags| ==>
         && i * MAX_PAYLOAD < |payload|
         && frags[i] == Piece(payload, frags[0].id, frags[0].src, frags[0].dst, i)
  }

  lemma PieceFields(payload: seq<byte>, id: nat, src: nat, dst: nat, i: nat)
    requires i * MAX_PAYLOAD < |payload| < 0x10000
    ensures var p := Piece(payload, id, src, dst, i);
            && Offset(p) == i * MAX_PAYLOAD
            && (More(p) <==> i + 1 < PieceCount(|payload|))
            && p.data == payload[i * MAX_PAYLOAD..PieceEnd(|payload|, i)]
            && p.id == id && p.src == src && p.dst == dst
  {
    var from := i * MAX_PAYLOAD;
    assert from / 8 == i * 185 && from / 8 * 8 == from;
    assert from / 8 < MORE_FRAG;
    assert (from / 8 + MORE_FRAG) % MORE_FRAG == from / 8;
    assert (from / 8 + MORE_FRAG) / MORE_FRAG == 1;
    PieceCountBounds(|payload|);
  }

  lemma SplitFields(frags: seq<Packet>, payload: seq<byte>, i: nat)
    requires Split(frags, payload) && i < |frags|
    ensures Offset(frags[i]) == i * MAX_PAYLOAD
    ensures More(frags[i]) <==> i < |frags| - 1
    ensures frags[i].id == frags[0].id && frags[i].src == frags[0].src && frags[i].dst == frags[0].dst
    ensures frags[i].data == payload[i * MAX_PAYLOAD..PieceEnd(|payload|, i)]
    ensures i < |frags| - 1 ==> |frags[i].data| == MAX_PAYLOAD
  {
    PieceFields(payload, frags[0].id, frags[0].src, frags[0].dst, i);
    PieceCountBounds(|payload|);
  }

  /** Where the first k pieces end. */
  function Cut(len: nat, k: nat): nat {
    if k < PieceCount(len) then k * MAX_PAYLOAD else len
  }

  lemma CutStep(len: nat, k: nat)
    requires 0 < k <= PieceCount(len)
    ensures Cut(len, k - 1) == (k - 1) * MAX_PAYLOAD <= PieceEnd(len, k - 1) == Cut(len, k) <= len
  {
    PieceCountBounds(len);
  }

  lemma BytesNone(frags: seq<Packet>)
    ensures Bytes(frags[..0]) == []
  {}

  lemma Adjacent(payload: seq<byte>, from: nat, to: nat)
    requires from <= to <= |payload|
    ensures payload[..from] + payload[from..to] == payload[..to]
  {}

  lemma {:induction false} BytesOfPieces(frags: seq<Packet>, payload: seq<byte>, k: nat)
    requires Split(frags, payload) && k <= |frags|
    ensures Cut(|payload|, k) <= |payload| && Bytes(frags[..k]) == payload[..Cut(|payload|, k)]
  {
    assert |frags| == PieceCount(|payload|) >= 2;
    hide Offset;
    hide More;
    hide Split;
    hide Cut;
    hide PieceEnd;
    hide PieceCount;
    hide Match;
    hide Bytes;
    if k == 0 {
      BytesNone(frags);
      CutStep(|payload|, 1);
    } else {
      BytesOfPieces(frags, payload, k - 1);
      SplitFields(frags, payload, k - 1);
      CutStep(|payload|, k);
      BytesNext(frags, k - 1);
      Adjacent(payload, Cut(|payload|, k - 1), Cut(|payload|, k));
    }
  }

  // ---------- the part of the pieces that has arrived ----------

  function Select(frags: seq<Packet>, have: set<nat>, k: nat): seq<Packet>
    requires k <= |frags|
  {
    if k == 0 then []
    else Select(frags, have, k - 1) + if k - 1 in have then [frags[k - 1]] else []
  }

  predicate Ascending(frags: seq<Packet>) {
    forall i, j :: 0 <= i < j < |frags| ==> Offset(frags[i]) < Offset(frags[j])
  }

  lemma SplitAscending(frags: seq<Packet>, payload: seq<byte>)
    requires Split(frags, payload)
    ensures Ascending(frags)
  {
    hide Offset;
    forall i, j | 0 <= i < j < |frags|
      ensures Offset(frags[i]) < Offset(frags[j])
    {
      SplitFields(frags, payload, i);
      SplitFields(frags, payload, j);
    }
  }

  lemma {:induction false} SelectFrom(frags: seq<Packet>, have: set<nat>, k: nat)
    requires k <= |frags|
    ensures forall x <- Select(frags, have, k) :: exists j :: 0 <= j < k && x == frags[j]
  {
    if k > 0 {
      SelectFrom(frags, have, k - 1);
    }
  }

  lemma InsertAtEnd(tree: seq<Packet>, p: Packet)
    requires forall x <- tree :: Offset(x) < Offset(p)
    ensures Insert(tree, p) == tree + [p]
  {
    hide Offset;
    if tree != [] {
      assert tree[|tree| - 1] in tree;
    }
  }

  lemma InsertBefore(tree: seq<Packet>, last: Packet, p: Packet)
    ensures Offset(p) == Offset(last) ==> Insert(tree + [last], p) == tree + [last]
    ensures Offset(p) < Offset(last) ==> Insert(tree + [last], p) == Insert(tree, p) + [last]
  {
    hide Offset;
    assert (tree + [last])[..|tree|] == tree;
  }

  lemma {:induction false} InsertSelect(frags: seq<Packet>, have: set<nat>, k: nat, i: nat)
    requires i < k <= |frags| && Ascending(frags)
    ensures Insert(Select(frags, have, k), frags[i]) == Select(frags, have + {i}, k)
  {
    hide Offset;
    hide Insert;
    var tree, top := Select(frags, have, k - 1), frags[k - 1];
    InsertBefore(tree, top, frags[i]);
    if i == k - 1 {
      SelectSame(frags, have, i, k - 1);
      if i !in have {
        SelectFrom(frags, have, k - 1);
        InsertAtEnd(tree, top);
        assert Select(frags, have, k) == tree;
      }
    } else {
      InsertSelect(frags, have, k - 1, i);
      assert k - 1 !in have ==> Select(frags, have, k) == tree;
      assert k - 1 !in have ==> Select(frags, have + {i}, k) == Select(frags, have + {i}, k - 1);
    }
  }

  lemma {:induction false} SelectSame(frags: seq<Packet>, have: set<nat>, i: nat, k: nat)
    requires k <= i < |frags|
    ensures Select(frags, have + {i}, k) == Select(frags, have, k)
  {
    if k > 0 {
      SelectSame(frags, have, i, k - 1);
    }
  }

  lemma {:induction false} SelectAll(frags: seq<Packet>, have: set<nat>, k: nat)
    requires k <= |frags| && forall j :: 0 <= j < k ==> j in have
    ensures Select(frags, have, k) == frags[..k]
  {
    if k > 0 {
      SelectAll(frags, have, k - 1);
    }
  }

  /** With piece m missing but everything before it present, the selection continues with a
      later piece, if at all. */
  lemma {:induction false} SelectGap(frags: seq<Packet>, have: set<nat>, m: nat, k: nat)
    requires m < k <= |frags| && m !in have && forall j :: 0 <= j < m ==> j in have
    ensures var tree := Select(frags, have, k);
            && |tree| >= m && tree[..m] == frags[..m]
            && (|tree| > m ==> exists j :: m < j < k && tree[m] == frags[j])
  {
    if k == m + 1 {
      SelectAll(frags, have, m);
    } else {
      SelectGap(frags, have, m, k - 1);
    }
  }

  // ---------- when the scan succeeds ----------

  lemma ScanOne(tree: seq<Packet>, k: nat, bookmark: nat)
    requires k < |tree| && Offset(tree[k]) == bookmark && More(tree[k])
    ensures Scan(tree, k, bookmark) == Scan(tree, k + 1, bookmark + |tree[k].data|)
  {}

  lemma {:induction false} ScanAdvance(frags: seq<Packet>, payload: seq<byte>, tree: seq<Packet>, m: nat)
    requires Split(frags, payload) && m < |frags| && m <= |tree|
    requires forall i :: 0 <= i < m ==> tree[i] == frags[i]
    ensures Scan(tree, 0, 0) == Scan(tree, m, m * MAX_PAYLOAD)
  {
    hide Split;
    hide Scan;
    hide Offset;
    hide More;
    if m > 0 {
      ScanAdvance(frags, payload, tree, m - 1);
      SplitFields(frags, payload, m - 1);
      ScanOne(tree, m - 1, (m - 1) * MAX_PAYLOAD);
    }
  }

  lemma ScanIncomplete(frags: seq<Packet>, payload: seq<byte>, have: set<nat>, m: nat)
    requires Split(frags, payload) && m < |frags| && m !in have && forall j :: 0 <= j < m ==> j in have
    ensures Scan(Select(frags, have, |frags|), 0, 0) < 0
  {
    hide Offset;
    var tree := Select(frags, have, |frags|);
    SelectGap(frags, have, m, |frags|);
    assert forall i :: 0 <= i < m ==> tree[i] == tree[..m][i];
    ScanAdvance(frags, payload, tree, m);
    if |tree| > m {
      var j :| m < j < |frags| && tree[m] == frags[j];
      SplitFields(frags, payload, j);
    }
  }

  lemma ScanComplete(frags: seq<Packet>, payload: seq<byte>)
    requires Split(frags, payload)
    ensures Scan(frags, 0, 0) == |payload| && Bytes(frags) == payload
  {
    hide Offset;
    hide More;
    var m := |frags| - 1;
    ScanAdvance(frags, payload, frags, m);
    SplitFields(frags, payload, m);
    PieceCountBounds(|payload|);
    BytesOfPieces(frags, payload, |frags|);
    assert frags[..|frags|] == frags && payload[..|payload|] == payload;
  }

  predicate HasAll(frags: seq<Packet>, have: set<nat>) {
    forall j :: 0 <= j < |frags| ==> j in have
  }

  lemma FirstMissing(frags: seq<Packet>, have: set<nat>, k: nat) returns (m: nat)
    requires k <= |frags| && exists j :: 0 <= j < k && j !in have
    ensures m < k && m !in have && forall j :: 0 <= j < m ==> j in have
  {
    m := 0;
    while m in have
      invariant m < k && forall j :: 0 <= j < m ==> j in have
      decreases k - m
    {
      m := m + 1;
    }
  }

  // ---------- one arrival ----------

  /** The table holds exactly the pieces in `have`. */
  predicate Holds(s: State, frags: seq<Packet>, have: set<nat>) {
    && frags != [] && s.curId == frags[0].id
    && s.tree == Select(frags, have, |frags|)
  }

  lemma CheckSelected(frags: seq<Packet>, payload: seq<byte>, have: set<nat>, v6: bool)
    requires Split(frags, payload)
    ensures var s := State(Select(frags, have, |frags|), frags[0].id);
            CheckComplete(s, v6) ==
              if HasAll(frags, have)
              then Delivered(State([], if v6 then frags[0].id else 0), Frame(|payload|, payload, v6))
              else Waiting(s)
  {
    hide Split;
    if HasAll(frags, have) {
      SelectAll(frags, have, |frags|);
      assert frags[..|frags|] == frags;
      ScanComplete(frags, payload);
    } else {
      var m := FirstMissing(frags, have, |frags|);
      ScanIncomplete(frags, payload, have, m);
    }
  }

  lemma ArrivalStep(frags: seq<Packet>, payload: seq<byte>, have: set<nat>, s: State, i: nat, stale: nat, v6: bool)
    requires Split(frags, payload) && Holds(s, frags, have) && s.tree != [] && i < |frags|
    ensures Process(s, frags[i], stale, v6) ==
            if HasAll(frags, have + {i})
            then Delivered(State([], if v6 then frags[0].id else 0), Frame(|payload|, payload, v6))
            else Waiting(State(Select(frags, have + {i}, |frags|), frags[0].id))
  {
    hide Scan;
    hide Split;
    SplitFields(frags, payload, i);
    SelectFrom(frags, have, |frags|);
    assert s.tree[0] in s.tree;
    var j :| 0 <= j < |frags| && s.tree[0] == frags[j];
    SplitFields(frags, payload, j);
    SplitAscending(frags, payload);
    InsertSelect(frags, have, |frags|, i);
    CheckSelected(frags, payload, have + {i}, v6);
  }

  /** A table that will start a new datagram with this identification. */
  predicate Ready(s: State, id: nat, stale: nat, v6: bool) {
    if s.tree == [] then s.curId == 0 || s.curId != id
    else !v6 && s.curId != id && stale == 0
  }

  lemma FirstArrival(frags: seq<Packet>, payload: seq<byte>, s: State, i: nat, stale: nat, v6: bool)
    requires Split(frags, payload) && i < |frags| && Ready(s, frags[0].id, stale, v6)
    ensures Process(s, frags[i], stale, v6) == Waiting(State(Select(frags, {i}, |frags|), frags[0].id))
    ensures Select(frags, {i}, |frags|) == [frags[i]]
  {
    SplitFields(frags, payload, i);
    SplitAscending(frags, payload);
    SelectNone(frags, |frags|);
    InsertSelect(frags, {}, |frags|, i);
    assert {} + {i} == {i};
    CheckSelected(frags, payload, {i}, v6);
    OnePieceIsNotAll(frags, payload, i);
  }

  lemma {:induction false} SelectNone(frags: seq<Packet>, k: nat)
    requires k <= |frags|
    ensures Select(frags, {}, k) == []
  {
    if k > 0 {
      SelectNone(frags, k - 1);
    }
  }

  // ---------- any order, any duplicates ----------

  datatype Arriving = Arriving(piece: nat, stale: nat)

  function Seen(order: seq<Arriving>): set<nat> {
    set a | a in order :: a.piece
  }

  function Events(frags: seq<Packet>, order: seq<Arriving>): (r: seq<Event>)
    requires forall a <- order :: a.piece < |frags|
    ensures |r| == |order|
  {
    if order == [] then []
    else
      assert order[|order| - 1] in order;
      Events(frags, order[..|order| - 1]) + [Arrival(frags[order[|order| - 1].piece], order[|order| - 1].stale)]
  }

  lemma SeenExtend(front: seq<Arriving>, a: Arriving)
    ensures Seen(front + [a]) == Seen(front) + {a.piece}
  {
    assert a in front + [a];
  }

  /** Until the last missing piece arrives, nothing is delivered and the table holds exactly
      the pieces seen. */
  lemma {:induction false} Collecting(frags: seq<Packet>, payload: seq<byte>, s: State, order: seq<Arriving>, v6: bool)
    requires Split(frags, payload) && order != [] && forall a <- order :: a.piece < |frags|
    requires Ready(s, frags[0].id, order[0].stale, v6)
    requires !HasAll(frags, Seen(order))
    ensures Deliveries(s, Events(frags, order), v6) == []
    ensures var t := After(s, Events(frags, order), v6); Holds(t, frags, Seen(order)) && t.tree != []
  {
    hide Split;
    hide Scan;
    hide Process;
    var n := |order| - 1;
    var front, a := order[..n], order[n];
    assert order == front + [a] && a in order;
    SeenExtend(front, a);
    var events := Events(frags, order);
    assert events[..n] == Events(frags, front);
    if n == 0 {
      assert Seen(front) == {};
      assert {} + {a.piece} == {a.piece};
      FirstArrival(frags, payload, s, a.piece, a.stale, v6);
    } else {
      Collecting(frags, payload, s, front, v6);
      var t := After(s, Events(frags, front), v6);
      ArrivalStep(frags, payload, Seen(front), t, a.piece, a.stale, v6);
      SelectNonempty(frags, Seen(order), a.piece, |frags|);
    }
  }

  lemma {:induction false} SelectNonempty(frags: seq<Packet>, have: set<nat>, i: nat, k: nat)
    requires i < k <= |frags| && i in have
    ensures Select(frags, have, k) != []
  {
    if i < k - 1 {
      SelectNonempty(frags, have, i, k - 1);
    }
  }

  lemma OnePieceIsNotAll(frags: seq<Packet>, payload: seq<byte>, i: nat)
    requires Split(frags, payload)
    ensures !HasAll(frags, {i})
  {
    var have, j := {i}, if i == 0 then 1 else 0;
    assert j !in have;
  }

  /** The arrival that completes the set delivers one frame made of the original payload, and
      the whole run delivers nothing else. The frame is the payload with its true length, in a
      buffer that holds it, exactly when header and payload stay below 65536 bytes. */
  lemma FragmentThenReassemble(frags: seq<Packet>, payload: seq<byte>, s: State,
                               front: seq<Arriving>, last: Arriving, v6: bool)
    requires Split(frags, payload) && (forall a <- front + [last] :: a.piece < |frags|)
    requires Ready(s, frags[0].id, (front + [last])[0].stale, v6)
    requires !HasAll(frags, Seen(front)) && HasAll(frags, Seen(front + [last]))
    ensures Deliveries(s, Events(frags, front + [last]), v6) == [Frame(|payload|, payload, v6)]
    ensures Fits(Frame(|payload|, payload, v6), v6) <==> |payload| <= if v6 then 65495 else 65515
    ensures Frame(|payload|, payload, v6).data == payload && Frame(|payload|, payload, v6).len == |payload|
    ensures After(s, Events(frags, front + [last]), v6) == State([], if v6 then frags[0].id else 0)
  {
    FrameForm(payload, v6);
    hide Frame;
    hide Fits;
    hide Split;
    hide Scan;
    hide Process;
    var order := front + [last];
    assert last in order;
    SeenExtend(front, last);
    OnePieceIsNotAll(frags, payload, last.piece);
    assert front == [] ==> Seen(front) + {last.piece} == {last.piece};
    assert order[..|front|] == front;
    assert forall a <- front :: a in order;
    assert Events(frags, order)[..|front|] == Events(frags, front);
    Collecting(frags, payload, s, front, v6);
    ArrivalStep(frags, payload, Seen(front), After(s, Events(frags, front), v6), last.piece, last.stale, v6);
  }

  // ---------- among other traffic ----------

  /** Another identification, another source or another destination. */
  predicate Foreign(p: Packet, first: Packet) { p.id != first.id || p.src != first.src || p.dst != first.dst }

  /** A packet of another datagram leaves an unfinished collection as it is exactly when the
      version is IPv6, or the stale offset is not zero, or it bears the same identification;
      the timeout never does. */
  lemma ForeignLeavesIff(s: State, p: Packet, stale: nat, v6: bool)
    requires s.tree != [] && Scan(s.tree, 0, 0) < 0 && s.tree[0].id == s.curId && Foreign(p, s.tree[0])
    ensures Process(s, p, stale, v6) == Waiting(s) <==> v6 || stale != 0 || p.id == s.curId
    ensures Step(s, Timeout, v6) != Waiting(s)
  {
    hide Scan;
  }

  /** What arrives: a piece, or a packet of another datagram. */
  datatype Mixed = Own(arriving: Arriving) | Other(packet: Packet, stale: nat)

  function EventOf(frags: seq<Packet>, m: Mixed): Event
    requires m.Own? ==> m.arriving.piece < |frags|
  {
    if m.Own? then Arrival(frags[m.arriving.piece], m.arriving.stale) else Arrival(m.packet, m.stale)
  }

  function MixedEvents(frags: seq<Packet>, ms: seq<Mixed>): (r: seq<Event>)
    requires forall m <- ms :: m.Own? ==> m.arriving.piece < |frags|
    ensures |r| == |ms|
  {
    if ms == [] then []
    else
      var m := ms[|ms| - 1];
      assert m in ms && forall x <- ms[..|ms| - 1] :: x in ms;
      MixedEvents(frags, ms[..|ms| - 1]) + [EventOf(frags, m)]
  }

  function OwnOf(ms: seq<Mixed>): seq<Arriving> {
    if ms == [] then []
    else OwnOf(ms[..|ms| - 1]) + (if ms[|ms| - 1].Own? then [ms[|ms| - 1].arriving] else [])
  }

  /** Of another datagram, and of the kind that leaves the collection alone. */
  predicate Harmless(first: Packet, p: Packet, stale: nat, v6: bool) {
    Foreign(p, first) && (v6 || stale != 0 || p.id == first.id)
  }

  predicate Fitting(frags: seq<Packet>, m: Mixed, v6: bool)
    requires frags != []
  {
    if m.Own? then m.arriving.piece < |frags| else Harmless(frags[0], m.packet, m.stale, v6)
  }

  predicate Orderly(frags: seq<Packet>, ms: seq<Mixed>, v6: bool)
    requires frags != []
  {
    forall m <- ms :: Fitting(frags, m, v6)
  }

  function OwnPiece(m: Mixed): set<nat> { if m.Own? then {m.arriving.piece} else {} }

  lemma OrderlyFront(frags: seq<Packet>, ms: seq<Mixed>, v6: bool)
    requires frags != [] && ms != [] && Orderly(frags, ms, v6)
    ensures Orderly(frags, ms[..|ms| - 1], v6) && Fitting(frags, ms[|ms| - 1], v6)
  {
    assert ms[|ms| - 1] in ms && forall x <- ms[..|ms| - 1] :: x in ms;
  }

  /** One more event, from a state and deliveries that are those of the own pieces so far. */
  lemma EventsMore(s: State, events: seq<Event>, e: Event, v6: bool)
    ensures After(s, events + [e], v6) == Step(After(s, events, v6), e, v6).state
    ensures Deliveries(s, events + [e], v6) == Deliveries(s, events, v6) +
            (match Step(After(s, events, v6), e, v6) case Waiting(_) => [] case Delivered(_, d) => [d])
  {
    assert (events + [e])[..|events|] == events;
  }

  lemma {:induction false} OtherIgnored(frags: seq<Packet>, payload: seq<byte>, t: State, have: set<nat>,
                                        p: Packet, stale: nat, v6: bool)
    requires Split(frags, payload) && Holds(t, frags, have) && t.tree != [] && !HasAll(frags, have)
    requires Harmless(frags[0], p, stale, v6)
    ensures Process(t, p, stale, v6) == Waiting(t)
  {
    hide Scan;
    hide Split;
    SelectFrom(frags, have, |frags|);
    assert t.tree[0] in t.tree;
    var j :| 0 <= j < |frags| && t.tree[0] == frags[j];
    SplitFields(frags, payload, j);
    var m := FirstMissing(frags, have, |frags|);
    ScanIncomplete(frags, payload, have, m);
    ForeignLeavesIff(t, p, stale, v6);
  }

  /** One arrival while the collection lasts. */
  lemma {:induction false} StepAmid(frags: seq<Packet>, payload: seq<byte>, t: State, have: set<nat>,
                                    m: Mixed, v6: bool)
    requires Split(frags, payload) && Holds(t, frags, have) && t.tree != [] && Fitting(frags, m, v6)
    requires !HasAll(frags, have + OwnPiece(m))
    ensures var r := Step(t, EventOf(frags, m), v6);
            r.Waiting? && Holds(r.state, frags, have + OwnPiece(m)) && r.state.tree != []
  {
    hide Split;
    hide Process;
    if m.Own? {
      var i := m.arriving.piece;
      SelectNonempty(frags, have + {i}, i, |frags|);
      hide Select;
      ArrivalStep(frags, payload, have, t, i, m.arriving.stale, v6);
    } else {
      assert have + OwnPiece(m) == have;
      OtherIgnored(frags, payload, t, have, m.packet, m.stale, v6);
    }
  }

  lemma OwnMore(front: seq<Mixed>, m: Mixed)
    ensures OwnOf(front + [m]) == OwnOf(front) + (if m.Own? then [m.arriving] else [])
    ensures Seen(OwnOf(front + [m])) == Seen(OwnOf(front)) + OwnPiece(m)
  {
    assert (front + [m])[..|front|] == front;
    if m.Own? { SeenExtend(OwnOf(front), m.arriving); } else { assert OwnOf(front + [m]) == OwnOf(front); }
  }

  lemma FirstAmid(frags: seq<Packet>, payload: seq<byte>, s: State, m: Mixed, v6: bool)
    requires Split(frags, payload) && m.Own? && Fitting(frags, m, v6)
    requires Ready(s, frags[0].id, m.arriving.stale, v6) && !HasAll(frags, Seen(OwnOf([m])))
    ensures MixedEvents(frags, [m]) == [EventOf(frags, m)]
    ensures Deliveries(s, MixedEvents(frags, [m]), v6) == []
    ensures var t := After(s, MixedEvents(frags, [m]), v6); Holds(t, frags, Seen(OwnOf([m]))) && t.tree != []
  {
    hide Split;
    hide Process;
    var own := [m.arriving];
    assert OwnOf([m]) == own by { OwnMore([], m); }
    assert Events(frags, own) == Events(frags, []) + [EventOf(frags, m)];
    assert MixedEvents(frags, [m]) == MixedEvents(frags, []) + [EventOf(frags, m)];
    Collecting(frags, payload, s, own, v6);
  }

  /** Harmless packets in between change nothing while the collection lasts. */
  lemma {:induction false} CollectingAmid(frags: seq<Packet>, payload: seq<byte>, s: State, ms: seq<Mixed>, v6: bool)
    requires Split(frags, payload) && Orderly(frags, ms, v6) && ms != [] && ms[0].Own?
    requires Ready(s, frags[0].id, ms[0].arriving.stale, v6) && !HasAll(frags, Seen(OwnOf(ms)))
    ensures Deliveries(s, MixedEvents(frags, ms), v6) == []
    ensures var t := After(s, MixedEvents(frags, ms), v6); Holds(t, frags, Seen(OwnOf(ms))) && t.tree != []
  {
    hide Split;
    hide Ready;
    hide Holds;
    hide OwnOf;
    hide Seen;
    hide Step;
    hide Harmless;
    var front, m := ms[..|ms| - 1], ms[|ms| - 1];
    assert ms == front + [m];
    OrderlyFront(frags, ms, v6);
    if front == [] {
      FirstAmid(frags, payload, s, m, v6);
    } else {
      OwnMore(front, m);
      CollectingAmid(frags, payload, s, front, v6);
      var events := MixedEvents(frags, front);
      assert MixedEvents(frags, ms) == events + [EventOf(frags, m)];
      EventsMore(s, events, EventOf(frags, m), v6);
      StepAmid(frags, payload, After(s, events, v6), Seen(OwnOf(front)), m, v6);
    }
  }

  /** Fragments that arrive among harmless packets of other datagrams, in any order and with any
      duplicates, still make exactly one delivery, with the last missing piece. */
  lemma ReassembleAmid(frags: seq<Packet>, payload: seq<byte>, s: State, front: seq<Mixed>, last: Arriving, v6: bool)
    requires Split(frags, payload) && Orderly(frags, front, v6) && last.piece < |frags|
    requires front != [] && front[0].Own? && Ready(s, frags[0].id, front[0].arriving.stale, v6)
    requires !HasAll(frags, Seen(OwnOf(front))) && HasAll(frags, Seen(OwnOf(front) + [last]))
    ensures Orderly(frags, front + [Own(last)], v6)
    ensures Deliveries(s, MixedEvents(frags, front + [Own(last)]), v6) == [Frame(|payload|, payload, v6)]
  {
    hide Split;
    hide Scan;
    hide Process;
    hide Frame;
    var ms := front + [Own(last)];
    assert ms[..|front|] == front;
    assert Orderly(frags, ms, v6);
    CollectingAmid(frags, payload, s, front, v6);
    SeenExtend(OwnOf(front), last);
    var events := MixedEvents(frags, front);
    var e := Arrival(frags[last.piece], last.stale);
    assert MixedEvents(frags, ms) == events + [e];
    EventsMore(s, events, e, v6);
    ArrivalStep(frags, payload, Seen(OwnOf(front)), After(s, events, v6), last.piece, last.stale, v6);
  }

  /** A second full copy arriving afterwards is delivered again by IPv4, which forgets the
      identification on completion; IPv6 remembers it and drops the copy, unless it is 0. */
  lemma SecondCopy(frags: seq<Packet>, payload: seq<byte>, s: State,
                   front: seq<Arriving>, last: Arriving, v6: bool)
    requires Split(frags, payload) && (forall a <- front + [last] :: a.piece < |frags|)
    requires Ready(s, frags[0].id, (front + [last])[0].stale, v6)
    requires !HasAll(frags, Seen(front)) && HasAll(frags, Seen(front + [last]))
    ensures var events := Events(frags, front + [last]);
            Deliveries(After(s, events, v6), events, v6) ==
            if v6 && frags[0].id != 0 then [] else [Frame(|payload|, payload, v6)]
  {
    hide Split;
    hide HasAll;
    var order := front + [last];
    var events := Events(frags, order);
    FragmentThenReassemble(frags, payload, s, front, last, v6);
    var t := After(s, events, v6);
    if v6 && frags[0].id != 0 {
      EventIds(frags, payload, order);
      LateFragmentsIgnored(t, events);
    } else {
      FragmentThenReassemble(frags, payload, t, front, last, v6);
    }
  }

  lemma {:induction false} EventIds(frags: seq<Packet>, payload: seq<byte>, order: seq<Arriving>)
    requires Split(frags, payload) && forall a <- order :: a.piece < |frags|
    ensures forall e <- Events(frags, order) :: e.Arrival? && e.packet.id == frags[0].id
  {
    hide Split;
    if order != [] {
      var front, a := order[..|order| - 1], order[|order| - 1];
      assert a in order && forall b <- front :: b in order;
      EventIds(frags, payload, front);
      SplitFields(frags, payload, a.piece);
    }
  }

  /** The splitter's output is what the round trip is about. */
  lemma PiecesAreSplit(payload: seq<byte>, id: nat, src: nat, dst: nat)
    requires MAX_PAYLOAD < |payload| < 0x10000
    ensures PieceCount(|payload|) >= 2 && (PieceCount(|payload|) - 1) * MAX_PAYLOAD < |payload|
    ensures Split(Pieces(payload, id, src, dst, PieceCount(|payload|)), payload)
  {
    PieceCountBounds(|payload|);
    var n := PieceCount(|payload|);
    forall i | 0 <= i < n
      ensures i * MAX_PAYLOAD < |payload| &&
              Pieces(payload, id, src, dst, n)[i] == Piece(payload, id, src, dst, i)
    {
      PiecesAt(payload, id, src, dst, n, i);
    }
    PieceFields(payload, id, src, dst, 0);
  }
}
