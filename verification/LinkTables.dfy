/** The IPv4 link and route tables with the two links remembered beside them. Links are
    heap objects that routes point to, so each carries the number of its cell. */
module LinkTables {
  import opened Wrappers
  import opened Bits
  import opened Routing

  datatype Link = Link(id: nat, address: nat, mask: nat, dev: nat)

  datatype State = State(
    routes: seq<Route>,
    links: seq<Link>,
    mcast: Option<nat>,
    bcast: Option<nat>,
    next: nat)

  const EMPTY: State := State([], [], None, None, 0)

  const MCAST_DEST: nat := 0xE0000000
  const MCAST_MASK: nat := 0xF0000000

  // ---------- the trees ----------

  predicate SameKey(a: Route, b: Route) {
    a.mask == b.mask && Raw4(a.dest) == Raw4(b.dest) && a.metric == b.metric
  }

  function HasKey(rs: seq<Route>, k: Route): (b: bool)
    ensures b <==> exists r <- rs :: SameKey(r, k)
  {
    rs != [] && (SameKey(rs[0], k) || HasKey(rs[1..], k))
  }

  function InsertRoute(rs: seq<Route>, r: Route): seq<Route> {
    if rs == [] || Less(rs[|rs| - 1], r, Raw4) then rs + [r]
    else InsertRoute(rs[..|rs| - 1], r) + [rs[|rs| - 1]]
  }

  /** The elements that stay when a tree is walked and the others are deleted. */
  function Keep<T>(xs: seq<T>, stays: T -> bool): seq<T> {
    if xs == [] then []
    else Keep(xs[..|xs| - 1], stays) + (if stays(xs[|xs| - 1]) then [xs[|xs| - 1]] else [])
  }

  function NotKey(k: Route): Route -> bool { r => !SameKey(r, k) }

  function NotOver(id: nat): Route -> bool { (r: Route) => r.link != Some(id) }

  function NotLink(id: nat): Link -> bool { (l: Link) => l.id != id }

  function RemoveKey(rs: seq<Route>, k: Route): seq<Route> {
    Keep(rs, NotKey(k))
  }

  /** Every route over a link gone. */
  function DropLink(rs: seq<Route>, id: nat): seq<Route> {
    Keep(rs, NotOver(id))
  }

  /** Addresses identify links, except that several devices may hold the zero address. */
  predicate SameLink(l: Link, address: nat, dev: nat) {
    l.address == address && (address == 0 ==> l.dev == dev)
  }

  function FindLink(ls: seq<Link>, address: nat, dev: nat): Option<Link> {
    if ls == [] then None
    else if SameLink(ls[|ls| - 1], address, dev) then Some(ls[|ls| - 1])
    else FindLink(ls[..|ls| - 1], address, dev)
  }

  function RemoveLink(ls: seq<Link>, id: nat): seq<Link> {
    Keep(ls, NotLink(id))
  }

  // ---------- the operations ----------

  function BcastRoute(s: State): Route { Route(BCAST, BCAST, 1000, 0, s.bcast) }

  function RouteFind(s: State, a: nat): Option<Route> { Find4(s.routes, BcastRoute(s), a) }

  /** The link a new route uses: the one given, or the one its gateway is a neighbour on. */
  function LinkFor(s: State, gateway: nat, link: Option<nat>): Option<nat> {
    if gateway == 0 then link
    else
      match RouteFind(s, gateway)
      case None => None
      case Some(r) => if r.gateway != 0 then None else r.link
  }

  function RouteAdd(s: State, dest: nat, mask: nat, gateway: nat, metric: nat, link: Option<nat>): (State, bool) {
    var r := Route(mask, dest, metric, gateway, LinkFor(s, gateway, link));
    if HasKey(s.routes, r) || r.link.None? then (s, false)
    else (s.(routes := InsertRoute(s.routes, r)), true)
  }

  function RouteDel(s: State, dest: nat, mask: nat, metric: nat): (State, bool) {
    var k := Route(mask, dest, metric, 0, None);
    if HasKey(s.routes, k) then (s.(routes := RemoveKey(s.routes, k)), true) else (s, false)
  }

  function LinkAdd(s: State, dev: Option<nat>, address: nat, mask: nat): (State, bool) {
    if dev.None? || FindLink(s.links, address, dev.value).Some? then (s, false)
    else
      var id := s.next;
      var s1 := s.(links := s.links + [Link(id, address, mask, dev.value)], next := id + 1);
      var s2 := if s1.mcast.Some? then s1
                else RouteAdd(s1.(mcast := Some(id)), MCAST_DEST, MCAST_MASK, 0, 1, Some(id)).0;
      var s3 := RouteAdd(s2, And(address, mask), mask, 0, 1, Some(id)).0;
      (if s3.bcast.None? then s3.(bcast := Some(id)) else s3, true)
  }

  function LinkDel(s: State, dev: Option<nat>, address: nat): (State, bool) {
    if dev.None? then (s, false)
    else
      match FindLink(s.links, address, dev.value)
      case None => (s, false)
      case Some(l) =>
        var s1 := if s.mcast == Some(l.id) then RouteDel(s.(mcast := None), MCAST_DEST, MCAST_MASK, 1).0 else s;
        (s1.(routes := DropLink(s1.routes, l.id),
             links := RemoveLink(s1.links, l.id),
             bcast := if s1.bcast == Some(l.id) then None else s1.bcast), true)
  }

  function SetBcast(s: State, link: Option<nat>): State {
    if link.Some? then s.(bcast := link) else s
  }

  datatype Op =
    | OpRouteAdd(dest: nat, mask: nat, gateway: nat, metric: nat, link: Option<nat>)
    | OpRouteDel(dest: nat, mask: nat, metric: nat)
    | OpLinkAdd(dev: Option<nat>, address: nat, mask: nat)
    | OpLinkDel(dev: Option<nat>, address: nat)
    | OpSetBcast(link: Option<nat>)

  function Step(s: State, op: Op): State {
    match op
    case OpRouteAdd(dest, mask, gateway, metric, link) => RouteAdd(s, dest, mask, gateway, metric, link).0
    case OpRouteDel(dest, mask, metric) => RouteDel(s, dest, mask, metric).0
    case OpLinkAdd(dev, address, mask) => LinkAdd(s, dev, address, mask).0
    case OpLinkDel(dev, address) => LinkDel(s, dev, address).0
    case OpSetBcast(link) => SetBcast(s, link)
  }

  function Run(ops: seq<Op>): State {
    if ops == [] then EMPTY else Step(Run(ops[..|ops| - 1]), ops[|ops| - 1])
  }

  // ---------- what every step keeps ----------

  predicate LiveId(s: State, id: nat) { exists l <- s.links :: l.id == id }

  predicate LiveLink(s: State, link: Option<nat>) { link.Some? && LiveId(s, link.value) }

  /** Every pointer to a link points to a link in the table. */
  predicate NoDangling(s: State) {
    && (forall r <- s.routes :: LiveLink(s, r.link))
    && (s.bcast.Some? ==> LiveLink(s, s.bcast))
    && (s.mcast.Some? ==> LiveLink(s, s.mcast))
  }

  /** Cells are numbered before the next one. */
  predicate Numbered(s: State) {
    forall l <- s.links :: l.id < s.next
  }

  /** No two links in one cell or under one key. */
  predicate Distinct(ls: seq<Link>) {
    forall i, j :: 0 <= i < j < |ls| ==> ls[i].id != ls[j].id && !SameLink(ls[i], ls[j].address, ls[j].dev)
  }

  ghost predicate Tidy(s: State) {
    Sorted(s.routes, Raw4) && Numbered(s) && Distinct(s.links)
  }

  /** The caller passes a live link wherever the call would store it. */
  predicate CallerPassesLive(s: State, op: Op) {
    match op
    case OpRouteAdd(dest, mask, gateway, metric, link) =>
      gateway == 0 && link.Some? && !HasKey(s.routes, Route(mask, dest, metric, 0, link)) ==> LiveLink(s, link)
    case OpSetBcast(link) => link.Some? ==> LiveLink(s, link)
    case _ => true
  }

  lemma {:induction false} KeepForm<T>(xs: seq<T>, stays: T -> bool)
    ensures forall x :: x in Keep(xs, stays) <==> x in xs && stays(x)
  {
    if xs != [] {
      KeepForm(xs[..|xs| - 1], stays);
      assert xs == xs[..|xs| - 1] + [xs[|xs| - 1]];
    }
  }

  lemma {:induction false} KeepSorted(rs: seq<Route>, stays: Route -> bool)
    requires Sorted(rs, Raw4)
    ensures Sorted(Keep(rs, stays), Raw4)
  {
    if rs != [] {
      hide Less;
      var rest, last := rs[..|rs| - 1], rs[|rs| - 1];
      KeepSorted(rest, stays);
      KeepForm(rest, stays);
      forall x | x in rest ensures Less(x, last, Raw4) {
        var i :| 0 <= i < |rest| && rest[i] == x;
        assert rs[i] == x;
      }
    }
  }

  lemma {:induction false} KeepDistinct(ls: seq<Link>, stays: Link -> bool)
    requires Distinct(ls)
    ensures Distinct(Keep(ls, stays))
  {
    if ls != [] {
      var rest, last := ls[..|ls| - 1], ls[|ls| - 1];
      KeepDistinct(rest, stays);
      KeepForm(rest, stays);
      forall l | l in rest ensures l.id != last.id && !SameLink(l, last.address, last.dev) {
        var i :| 0 <= i < |rest| && rest[i] == l;
        assert ls[i] == l;
      }
    }
  }

  lemma {:induction false} FindLinkForm(ls: seq<Link>, address: nat, dev: nat)
    ensures FindLink(ls, address, dev).None? <==> forall l <- ls :: !SameLink(l, address, dev)
  {
    if ls != [] {
      FindLinkForm(ls[..|ls| - 1], address, dev);
      assert ls == ls[..|ls| - 1] + [ls[|ls| - 1]];
    }
  }

  lemma {:induction false} InsertForm(rs: seq<Route>, r: Route)
    ensures forall x :: x in InsertRoute(rs, r) <==> x in rs || x == r
  {
    if rs != [] && !Less(rs[|rs| - 1], r, Raw4) {
      InsertForm(rs[..|rs| - 1], r);
      assert rs == rs[..|rs| - 1] + [rs[|rs| - 1]];
    }
  }

  lemma LessTotal(a: Route, b: Route)
    ensures Less(a, b, Raw4) || Less(b, a, Raw4) || SameKey(a, b)
  {}

  lemma LessTrans(a: Route, b: Route, c: Route)
    requires Less(a, b, Raw4) && Less(b, c, Raw4)
    ensures Less(a, c, Raw4)
  {}

  lemma {:induction false} InsertSorted(rs: seq<Route>, r: Route)
    requires Sorted(rs, Raw4) && !HasKey(rs, r)
    ensures Sorted(InsertRoute(rs, r), Raw4)
  {
    hide Less;
    hide SameKey;
    hide Raw4;
    if rs != [] {
      var rest, last := rs[..|rs| - 1], rs[|rs| - 1];
      assert last in rs;
      LessTotal(last, r);
      if Less(last, r, Raw4) {
        forall i | 0 <= i < |rest| ensures Less(rs[i], r, Raw4) { LessTrans(rs[i], last, r); }
      } else {
        assert forall x :: x in rest ==> x in rs;
        InsertSorted(rest, r);
        InsertForm(rest, r);
        forall x | x in rest ensures Less(x, last, Raw4) {
          var i :| 0 <= i < |rest| && rest[i] == x;
          assert rs[i] == x;
        }
      }
    }
  }

  // ---------- one operation at a time ----------

  ghost predicate Good(s: State) { NoDangling(s) && Tidy(s) }

  /** A lookup never answers with a dangling link; only broadcast may answer without one. */
  lemma FoundIsLive(s: State, a: nat)
    requires Good(s) && RouteFind(s, a).Some?
    ensures var link := RouteFind(s, a).value.link;
            (link.Some? ==> LiveLink(s, link)) && (link.None? <==> a == BCAST && s.bcast.None?)
  {
    ScanIsGreatest(s.routes, r => Hits4(a, r), Raw4);
  }

  lemma RouteAddKeeps(s: State, dest: nat, mask: nat, gateway: nat, metric: nat, link: Option<nat>)
    requires Good(s)
    requires CallerPassesLive(s, OpRouteAdd(dest, mask, gateway, metric, link))
    ensures Good(RouteAdd(s, dest, mask, gateway, metric, link).0)
    ensures RouteAdd(s, dest, mask, gateway, metric, link).0.links == s.links
  {
    if gateway != 0 && RouteFind(s, gateway).Some? { FoundIsLive(s, gateway); }
    hide RouteFind;
    hide SameKey;
    hide Less;
    var r := Route(mask, dest, metric, gateway, LinkFor(s, gateway, link));
    InsertForm(s.routes, r);
    SameKeyOnly(s.routes, r, Route(mask, dest, metric, 0, link));
    if !HasKey(s.routes, r) {
      InsertSorted(s.routes, r);
      if r.link.Some? {
        var t := s.(routes := InsertRoute(s.routes, r));
        forall x | x in t.routes ensures LiveLink(t, x.link) {
          assert x in s.routes || x == r;
          assert LiveLink(s, x.link);
        }
      }
    }
  }

  lemma SameKeyOnly(rs: seq<Route>, a: Route, b: Route)
    requires a.mask == b.mask && a.dest == b.dest && a.metric == b.metric
    ensures HasKey(rs, a) == HasKey(rs, b)
  {
    assert forall r <- rs :: SameKey(r, a) == SameKey(r, b);
  }

  lemma RouteDelKeeps(s: State, dest: nat, mask: nat, metric: nat)
    requires Good(s)
    ensures Good(RouteDel(s, dest, mask, metric).0)
    ensures RouteDel(s, dest, mask, metric).0.links == s.links
  {
    var k := Route(mask, dest, metric, 0, None);
    hide SameKey;
    hide Less;
    KeepForm(s.routes, NotKey(k));
    KeepSorted(s.routes, NotKey(k));
    var t := RouteDel(s, dest, mask, metric).0;
    forall x | x in t.routes ensures LiveLink(t, x.link) {
      assert LiveLink(s, x.link);
    }
  }

  /** A new link makes no live link dead. */
  lemma GrowKeeps(s: State, l: Link)
    requires Good(s) && l.id == s.next && FindLink(s.links, l.address, l.dev).None?
    ensures var t := s.(links := s.links + [l], next := s.next + 1);
            Good(t) && LiveId(t, l.id)
  {
    hide Sorted;
    FindLinkForm(s.links, l.address, l.dev);
    hide FindLink;
    var t := s.(links := s.links + [l], next := s.next + 1);
    forall id | LiveId(s, id) ensures LiveId(t, id) {
      var x :| x in s.links && x.id == id;
      assert x in t.links;
    }
    forall r | r in t.routes ensures LiveLink(t, r.link) { assert LiveLink(s, r.link); }
    assert l in t.links;
  }

  lemma RememberKeeps(s: State, id: nat)
    requires Good(s) && LiveId(s, id)
    ensures Good(s.(mcast := Some(id))) && LiveId(s.(mcast := Some(id)), id) && Good(s.(bcast := Some(id)))
  {
    hide Sorted;
    forall r | r in s.routes
      ensures LiveLink(s.(mcast := Some(id)), r.link) && LiveLink(s.(bcast := Some(id)), r.link)
    {
      assert LiveLink(s, r.link);
    }
  }

  lemma RouteAddLive(s: State, dest: nat, mask: nat, metric: nat, id: nat)
    requires Good(s) && LiveId(s, id)
    ensures var t := RouteAdd(s, dest, mask, 0, metric, Some(id)).0;
            Good(t) && LiveId(t, id)
  {
    hide Good;
    hide RouteAdd;
    RouteAddKeeps(s, dest, mask, 0, metric, Some(id));
  }

  lemma LinkAddKeeps(s: State, dev: Option<nat>, address: nat, mask: nat)
    requires Good(s)
    ensures Good(LinkAdd(s, dev, address, mask).0)
  {
    hide RouteAdd;
    hide Good;
    hide FindLink;
    hide LiveId;
    if dev.Some? && FindLink(s.links, address, dev.value).None? {
      var id := s.next;
      GrowKeeps(s, Link(id, address, mask, dev.value));
      var s1 := s.(links := s.links + [Link(id, address, mask, dev.value)], next := id + 1);
      RememberKeeps(s1, id);
      var m := s1.(mcast := Some(id));
      RouteAddLive(m, MCAST_DEST, MCAST_MASK, 1, id);
      var s2 := if s1.mcast.None? then RouteAdd(m, MCAST_DEST, MCAST_MASK, 0, 1, Some(id)).0 else s1;
      RouteAddLive(s2, And(address, mask), mask, 1, id);
      RememberKeeps(RouteAdd(s2, And(address, mask), mask, 0, 1, Some(id)).0, id);
    }
  }

  lemma LinkDelKeeps(s: State, dev: Option<nat>, address: nat)
    requires Good(s)
    ensures Good(LinkDel(s, dev, address).0)
  {
    if dev.Some? && FindLink(s.links, address, dev.value).Some? {
      var l := FindLink(s.links, address, dev.value).value;
      hide FindLink;
      var m := s.(mcast := None);
      assert Good(m);
      RouteDelKeeps(m, MCAST_DEST, MCAST_MASK, 1);
      var s1 := if s.mcast == Some(l.id) then RouteDel(m, MCAST_DEST, MCAST_MASK, 1).0 else s;
      hide RouteDel;
      UnlinkKeeps(s1, l.id);
    }
  }

  /** Taking a link out after every route over it leaves nothing dangling. */
  lemma UnlinkKeeps(s: State, id: nat)
    requires Good(s) && s.mcast != Some(id)
    ensures Good(s.(routes := DropLink(s.routes, id), links := RemoveLink(s.links, id),
                    bcast := if s.bcast == Some(id) then None else s.bcast))
  {
    hide Sorted;
    var t := s.(routes := DropLink(s.routes, id), links := RemoveLink(s.links, id),
                bcast := if s.bcast == Some(id) then None else s.bcast);
    KeepForm(s.links, NotLink(id));
    KeepDistinct(s.links, NotLink(id));
    KeepForm(s.routes, NotOver(id));
    KeepSorted(s.routes, NotOver(id));
    forall other | LiveId(s, other) && other != id ensures LiveId(t, other) {
      var l :| l in s.links && l.id == other;
      assert l in t.links;
    }
    forall r | r in t.routes ensures LiveLink(t, r.link) { assert LiveLink(s, r.link); }
  }

  /** A step leaves no dangling pointer exactly when the caller passes a live link wherever
      the step stores the link it is given. */
  lemma StepKeepsIff(s: State, op: Op)
    requires Good(s)
    ensures Good(Step(s, op)) <==> CallerPassesLive(s, op)
  {
    if CallerPassesLive(s, op) {
      StepKeeps(s, op);
    } else {
      match op
      case OpRouteAdd(dest, mask, gateway, metric, link) =>
        var r := Route(mask, dest, metric, gateway, link);
        InsertForm(s.routes, r);
        assert r in Step(s, op).routes;
        assert !LiveLink(Step(s, op), r.link);
      case OpSetBcast(link) =>
        assert !LiveLink(Step(s, op), link);
    }
  }

  lemma StepKeeps(s: State, op: Op)
    requires Good(s) && CallerPassesLive(s, op)
    ensures Good(Step(s, op))
  {
    hide RouteAdd;
    hide RouteDel;
    hide LinkAdd;
    hide LinkDel;
    hide Sorted;
    match op
    case OpRouteAdd(dest, mask, gateway, metric, link) => RouteAddKeeps(s, dest, mask, gateway, metric, link);
    case OpRouteDel(dest, mask, metric) => RouteDelKeeps(s, dest, mask, metric);
    case OpLinkAdd(dev, address, mask) => LinkAddKeeps(s, dev, address, mask);
    case OpLinkDel(dev, address) => LinkDelKeeps(s, dev, address);
    case OpSetBcast(link) =>
      var t := SetBcast(s, link);
      forall r | r in t.routes ensures LiveLink(t, r.link) { assert LiveLink(s, r.link); }
      assert t.links == s.links;
  }

  ghost predicate LiveCallers(ops: seq<Op>) {
    forall i :: 0 <= i < |ops| ==> CallerPassesLive(Run(ops[..i]), ops[i])
  }

  /** Over every run whose callers pass live links nothing ever dangles. */
  lemma {:induction false} RunKeeps(ops: seq<Op>)
    requires LiveCallers(ops)
    ensures Good(Run(ops))
  {
    if ops != [] {
      var rest := ops[..|ops| - 1];
      forall i | 0 <= i < |rest| ensures CallerPassesLive(Run(rest[..i]), rest[i]) {
        assert rest[..i] == ops[..i];
        assert CallerPassesLive(Run(ops[..i]), ops[i]);
      }
      RunKeeps(rest);
      hide Step;
      hide Good;
      StepKeeps(Run(rest), ops[|ops| - 1]);
    }
  }

  // ---------- lookups are longest matches in every reachable table ----------

  predicate Address4(a: nat) { Right(a, 32) == 0 }

  ghost predicate PrefixMask(mask: nat) { exists p: nat :: p <= 32 && mask == Mask(32, p) }

  /** The caller passes prefix masks, and destinations without bits outside them. */
  ghost predicate PassesPrefix(op: Op) {
    match op
    case OpRouteAdd(dest, mask, _, _, _) => Address4(dest) && PrefixMask(mask) && And(dest, mask) == dest
    case OpLinkAdd(_, address, mask) => Address4(address) && PrefixMask(mask)
    case _ => true
  }

  ghost predicate AllPrefix(rs: seq<Route>) {
    forall r <- rs :: PrefixRoute(32, r) && MaskedRoute(r)
  }

  lemma McastMaskIsPrefix()
    ensures PrefixMask(MCAST_MASK)
  {
    LeftTwentyEight(15);
    assert Ones(2) == 3 && Ones(4) == 15;
    hide Left;
    hide Ones;
    assert Mask(32, 4) == MCAST_MASK;
  }

  lemma Fourteen()
    ensures And(14, 15) == 14 && And(0, 0) == 0 && Right(14, 4) == 0 && Right(0, 28) == 0
  {
    RightZero(28);
    assert And(3, 3) == 3;
    assert Right(3, 2) == 0;
  }

  lemma McastIsMasked()
    ensures Address4(MCAST_DEST) && And(MCAST_DEST, MCAST_MASK) == MCAST_DEST
  {
    Fourteen();
    hide And;
    hide Right;
    hide Left;
    LeftTwentyEight(14);
    LeftTwentyEight(15);
    RightLeft(14, 28);
    RightRight(MCAST_DEST, 28, 4);
    AndJoin(14, 0, 15, 0, 28);
  }

  lemma LeftTwentyEight(x: nat)
    ensures Left(x, 28) == 0x10000000 * x
  {
    LeftFour(x);
    LeftAdd(x, 8, 4);
    LeftEight(Left(x, 4));
    LeftAdd(x, 8, 12);
    LeftEight(Left(x, 12));
    LeftAdd(x, 8, 20);
    LeftEight(Left(x, 20));
  }

  lemma RouteAddPrefix(s: State, dest: nat, mask: nat, gateway: nat, metric: nat, link: Option<nat>)
    requires AllPrefix(s.routes) && Address4(dest) && PrefixMask(mask) && And(dest, mask) == dest
    ensures AllPrefix(RouteAdd(s, dest, mask, gateway, metric, link).0.routes)
  {
    hide LinkFor;
    hide And;
    hide Right;
    hide Mask;
    InsertForm(s.routes, Route(mask, dest, metric, gateway, LinkFor(s, gateway, link)));
  }

  lemma StepPrefix(s: State, op: Op)
    requires AllPrefix(s.routes) && PassesPrefix(op)
    ensures AllPrefix(Step(s, op).routes)
  {
    match op
    case OpRouteAdd(dest, mask, gateway, metric, link) => RouteAddPrefix(s, dest, mask, gateway, metric, link);
    case OpRouteDel(dest, mask, metric) => RouteDelPrefix(s, dest, mask, metric);
    case OpLinkAdd(dev, address, mask) => LinkAddPrefix(s, dev, address, mask);
    case OpLinkDel(dev, address) => LinkDelPrefix(s, dev, address);
    case OpSetBcast(link) =>
  }

  lemma RouteDelPrefix(s: State, dest: nat, mask: nat, metric: nat)
    requires AllPrefix(s.routes)
    ensures AllPrefix(RouteDel(s, dest, mask, metric).0.routes)
  {
    var k := Route(mask, dest, metric, 0, None);
    KeepForm(s.routes, NotKey(k));
  }

  lemma {:induction false} LinkAddPrefix(s: State, dev: Option<nat>, address: nat, mask: nat)
    requires AllPrefix(s.routes) && Address4(address) && PrefixMask(mask)
    ensures AllPrefix(LinkAdd(s, dev, address, mask).0.routes)
  {
    AndSmaller(address, mask, 32);
    AndTwice(address, mask);
    McastMaskIsPrefix();
    McastIsMasked();
    hide RouteAdd;
    hide FindLink;
    hide And;
    hide AllPrefix;
    hide Address4;
    hide PrefixMask;
    if dev.Some? && FindLink(s.links, address, dev.value).None? {
      var id := s.next;
      var s1 := s.(links := s.links + [Link(id, address, mask, dev.value)], next := id + 1);
      var m := s1.(mcast := Some(id));
      RouteAddPrefix(m, MCAST_DEST, MCAST_MASK, 0, 1, Some(id));
      var s2 := if s1.mcast.None? then RouteAdd(m, MCAST_DEST, MCAST_MASK, 0, 1, Some(id)).0 else s1;
      RouteAddPrefix(s2, And(address, mask), mask, 0, 1, Some(id));
    }
  }

  lemma LinkDelPrefix(s: State, dev: Option<nat>, address: nat)
    requires AllPrefix(s.routes)
    ensures AllPrefix(LinkDel(s, dev, address).0.routes)
  {
    if dev.Some? && FindLink(s.links, address, dev.value).Some? {
      var l := FindLink(s.links, address, dev.value).value;
      RouteDelPrefix(s.(mcast := None), MCAST_DEST, MCAST_MASK, 1);
      var s1 := if s.mcast == Some(l.id) then RouteDel(s.(mcast := None), MCAST_DEST, MCAST_MASK, 1).0 else s;
      KeepForm(s1.routes, NotOver(l.id));
    }
  }

  lemma {:induction false} RunPrefix(ops: seq<Op>)
    requires forall op <- ops :: PassesPrefix(op)
    ensures AllPrefix(Run(ops).routes)
  {
    hide Step;
    if ops != [] {
      RunPrefix(ops[..|ops| - 1]);
      StepPrefix(Run(ops[..|ops| - 1]), ops[|ops| - 1]);
    }
  }

  /** In every table a run can build from prefix masks, a lookup answers with a live link and
      the longest matching prefix, or with nothing exactly when no prefix matches. */
  lemma ReachableLookup(ops: seq<Op>, a: nat)
    requires LiveCallers(ops) && (forall op <- ops :: PassesPrefix(op)) && a < BCAST && Address4(a)
    ensures var s := Run(ops); var found := RouteFind(s, a);
            && (found.None? <==> forall r, p: nat :: r in s.routes ==> !Covers(32, r, p, a))
            && (found.Some? ==>
                  && found.value in s.routes && LongestMatch(32, s.routes, found.value, a)
                  && LiveLink(s, found.value.link))
  {
    RunKeeps(ops);
    RunPrefix(ops);
    Find4Longest(Run(ops).routes, BcastRoute(Run(ops)), a);
    if RouteFind(Run(ops), a).Some? { FoundIsLive(Run(ops), a); }
  }

  // ---------- the tables updated in place ----------

  class Tables {
    var routes: seq<Route>
    var links: seq<Link>
    var mcast: Option<nat>
    var bcast: Option<nat>
    var next: nat

    function View(): State
      reads this
    {
      State(routes, links, mcast, bcast, next)
    }

    constructor ()
      ensures View() == EMPTY
    {
      routes, links, mcast, bcast, next := [], [], None, None, 0;
    }

    /** The scan from the end of the tree. */
    method Lookup(a: nat) returns (found: Option<Route>)
      ensures found == RouteFind(View(), a)
    {
      if a == BCAST { return Some(BcastRoute(View())); }
      var i := |routes|;
      assert routes[..i] == routes;
      while i > 0
        invariant 0 <= i <= |routes|
        invariant Scan(routes[..i], r => Hits4(a, r)) == RouteFind(View(), a)
      {
        assert routes[..i][..i - 1] == routes[..i - 1];
        if Hits4(a, routes[i - 1]) { return Some(routes[i - 1]); }
        i := i - 1;
      }
      found := None;
    }

    method AddRoute(dest: nat, mask: nat, gateway: nat, metric: nat, link: Option<nat>) returns (ok: bool)
      modifies this
      ensures (View(), ok) == RouteAdd(old(View()), dest, mask, gateway, metric, link)
    {
      SameKeyOnly(routes, Route(mask, dest, metric, 0, None),
                  Route(mask, dest, metric, gateway, LinkFor(View(), gateway, link)));
      if HasKey(routes, Route(mask, dest, metric, 0, None)) { return false; }
      var via := link;
      if gateway != 0 {
        var r := Lookup(gateway);
        if r.None? { return false; }
        if r.value.gateway != 0 { return false; }
        via := r.value.link;
      }
      if via.None? { return false; }
      routes := InsertRoute(routes, Route(mask, dest, metric, gateway, via));
      ok := true;
    }

    method DelRoute(dest: nat, mask: nat, metric: nat) returns (ok: bool)
      modifies this
      ensures (View(), ok) == RouteDel(old(View()), dest, mask, metric)
    {
      var k := Route(mask, dest, metric, 0, None);
      ok := HasKey(routes, k);
      if ok { routes := RemoveKey(routes, k); }
    }

    /** Walks the tree and deletes by key every route over the link. */
    method CleanupRoutes(id: nat)
      requires Sorted(routes, Raw4)
      modifies this
      ensures View() == old(View()).(routes := DropLink(old(routes), id))
    {
      hide Sorted;
      hide RouteDel;
      hide Walked;
      var i, walk := 0, routes;
      WalkEnds(walk, id);
      while i < |walk|
        invariant 0 <= i <= |walk|
        invariant View() == old(View()).(routes := Walked(walk, i, id))
      {
        WalkStep(old(View()), walk, i, id);
        if walk[i].link == Some(id) {
          var _ := DelRoute(walk[i].dest, walk[i].mask, walk[i].metric);
        }
        i := i + 1;
      }
    }

    method SetBcastLink(link: Option<nat>)
      modifies this
      ensures View() == SetBcast(old(View()), link)
    {
      if link.Some? { bcast := link; }
    }

    method AddLink(dev: Option<nat>, address: nat, mask: nat) returns (ok: bool)
      modifies this
      ensures (View(), ok) == LinkAdd(old(View()), dev, address, mask)
    {
      hide RouteAdd;
      hide FindLink;
      if dev.None? { return false; }
      if FindLink(links, address, dev.value).Some? { return false; }
      var id := next;
      links := links + [Link(id, address, mask, dev.value)];
      next := next + 1;
      if mcast.None? {
        mcast := Some(id);
        var _ := AddRoute(MCAST_DEST, MCAST_MASK, 0, 1, Some(id));
      }
      var _ := AddRoute(And(address, mask), mask, 0, 1, Some(id));
      if bcast.None? { bcast := Some(id); }
      ok := true;
    }

    method DelLink(dev: Option<nat>, address: nat) returns (ok: bool)
      requires Sorted(routes, Raw4)
      modifies this
      ensures (View(), ok) == LinkDel(old(View()), dev, address)
    {
      hide RouteDel;
      hide FindLink;
      hide DropLink;
      hide RemoveLink;
      if dev.None? { return false; }
      var found := FindLink(links, address, dev.value);
      if found.None? { return false; }
      var id := found.value.id;
      if mcast == Some(id) {
        mcast := None;
        RouteDelSorted(View(), MCAST_DEST, MCAST_MASK, 1);
        var _ := DelRoute(MCAST_DEST, MCAST_MASK, 1);
      }
      CleanupRoutes(id);
      links := RemoveLink(links, id);
      if bcast == Some(id) { bcast := None; }
      ok := true;
    }
  }

  lemma KeysDiffer(a: Route, b: Route, k: Route)
    requires (Less(a, b, Raw4) || Less(b, a, Raw4)) && SameKey(b, k)
    ensures !SameKey(a, k)
  {}

  lemma OtherKeys(walk: seq<Route>, i: nat, k: Route)
    requires Sorted(walk, Raw4) && i < |walk| && SameKey(walk[i], k)
    ensures forall r :: r in walk[..i] || r in walk[i + 1..] ==> !SameKey(r, k)
  {
    hide SameKey;
    hide Less;
    forall r | r in walk[..i] || r in walk[i + 1..] ensures !SameKey(r, k) {
      var j :| 0 <= j < |walk| && j != i && walk[j] == r;
      KeysDiffer(r, walk[i], k);
    }
  }

  lemma {:induction false} KeepAllButOne<T>(xs: seq<T>, x: T, ys: seq<T>, stays: T -> bool)
    requires (forall y <- xs :: stays(y)) && !stays(x) && (forall y <- ys :: stays(y))
    ensures Keep(xs + ([x] + ys), stays) == xs + ys
  {
    var all := xs + ([x] + ys);
    if ys == [] {
      assert all[..|all| - 1] == xs;
      KeepAll(xs, stays);
    } else {
      var rest := ys[..|ys| - 1];
      assert all[..|all| - 1] == xs + ([x] + rest);
      KeepAllButOne(xs, x, rest, stays);
      assert ys == rest + [ys[|ys| - 1]];
    }
  }

  /** The table when the walk has reached the i-th route. */
  function Walked(walk: seq<Route>, i: nat, id: nat): seq<Route>
    requires i <= |walk|
  {
    DropLink(walk[..i], id) + walk[i..]
  }

  /** In an ordered table deleting by key deletes one route. */
  lemma {:induction false} DeletesOne(walk: seq<Route>, i: nat, id: nat, k: Route)
    requires Sorted(walk, Raw4) && i < |walk| && SameKey(walk[i], k)
    ensures HasKey(Walked(walk, i, id), k)
    ensures RemoveKey(Walked(walk, i, id), k) == DropLink(walk[..i], id) + walk[i + 1..]
  {
    hide SameKey;
    hide Keep;
    hide Sorted;
    var x, done, later := walk[i], DropLink(walk[..i], id), walk[i + 1..];
    OtherKeys(walk, i, k);
    KeepForm(walk[..i], NotOver(id));
    assert walk[i..] == [x] + later;
    assert x in Walked(walk, i, id);
    KeepAllButOne(done, x, later, NotKey(k));
  }

  lemma WalkEnds(walk: seq<Route>, id: nat)
    ensures Walked(walk, 0, id) == walk && Walked(walk, |walk|, id) == DropLink(walk, id)
  {
    assert walk[..0] == [] && walk[..|walk|] == walk;
  }

  lemma {:induction false} WalkNext(walk: seq<Route>, i: nat, id: nat)
    requires i < |walk|
    ensures DropLink(walk[..i + 1], id)
         == DropLink(walk[..i], id) + (if walk[i].link == Some(id) then [] else [walk[i]])
  {
    assert walk[..i + 1][..i] == walk[..i];
  }

  /** One route further: deleted by key if it is over the link, and kept if not. */
  lemma {:induction false} WalkStep(s: State, walk: seq<Route>, i: nat, id: nat)
    requires Sorted(walk, Raw4) && i < |walk|
    ensures if walk[i].link == Some(id)
            then RouteDel(s.(routes := Walked(walk, i, id)), walk[i].dest, walk[i].mask, walk[i].metric).0
                 == s.(routes := Walked(walk, i + 1, id))
            else Walked(walk, i + 1, id) == Walked(walk, i, id)
  {
    hide Sorted;
    hide Keep;
    hide DropLink;
    WalkNext(walk, i, id);
    if walk[i].link == Some(id) {
      DeletesOne(walk, i, id, Route(walk[i].mask, walk[i].dest, walk[i].metric, 0, None));
    } else {
      assert walk[i..] == [walk[i]] + walk[i + 1..];
      hide RouteDel;
    }
  }

  lemma RouteDelSorted(s: State, dest: nat, mask: nat, metric: nat)
    requires Sorted(s.routes, Raw4)
    ensures Sorted(RouteDel(s, dest, mask, metric).0.routes, Raw4)
  {
    KeepSorted(s.routes, NotKey(Route(mask, dest, metric, 0, None)));
  }

  lemma {:induction false} KeepAll<T>(xs: seq<T>, stays: T -> bool)
    requires forall x <- xs :: stays(x)
    ensures Keep(xs, stays) == xs
  {
    if xs != [] {
      var rest, last := xs[..|xs| - 1], xs[|xs| - 1];
      assert xs == rest + [last];
      KeepAll(rest, stays);
    }
  }
}
