/** What adding and deleting links and routes does to the tables, entry by entry, what becomes
    reachable by it, and what deleting again restores. */
module LinkEffects {
  import opened Wrappers
  import opened Bits
  import opened Routing
  import opened LinkTables

  // ---------- routes ----------

  lemma {:induction false} InsertBag(rs: seq<Route>, r: Route)
    ensures multiset(InsertRoute(rs, r)) == multiset(rs) + multiset{r}
  {
    hide Less;
    if rs != [] && !Less(rs[|rs| - 1], r, Raw4) {
      InsertBag(rs[..|rs| - 1], r);
      assert rs == rs[..|rs| - 1] + [rs[|rs| - 1]];
    }
  }

  /** The link a route to be added is to go over: the one given, or where its gateway is
      reached directly. */
  function Via(s: State, gateway: nat, link: Option<nat>): Option<nat> {
    if gateway == 0 then link
    else
      var found := RouteFind(s, gateway);
      if found.Some? && found.value.gateway == 0 then found.value.link else None
  }

  predicate Held(rs: seq<Route>, dest: nat, mask: nat, metric: nat) {
    exists r <- rs :: r.mask == mask && Raw4(r.dest) == Raw4(dest) && r.metric == metric
  }

  lemma HeldIff(rs: seq<Route>, r: Route)
    ensures HasKey(rs, r) <==> Held(rs, r.dest, r.mask, r.metric)
  {
    if HasKey(rs, r) {
      var x :| x in rs && SameKey(x, r);
      assert x.mask == r.mask;
    }
    if Held(rs, r.dest, r.mask, r.metric) {
      var x :| x in rs && x.mask == r.mask && Raw4(x.dest) == Raw4(r.dest) && x.metric == r.metric;
      assert SameKey(x, r);
    }
  }

  /** A route is added exactly when its key is free and there is a link for it, and then it is
      the one change. */
  lemma RouteAddForm(s: State, dest: nat, mask: nat, gateway: nat, metric: nat, link: Option<nat>)
    ensures var (t, ok) := RouteAdd(s, dest, mask, gateway, metric, link);
            var via := Via(s, gateway, link);
            && (ok <==> !Held(s.routes, dest, mask, metric) && via.Some?)
            && (!ok ==> t == s)
            && t == s.(routes := t.routes)
            && (ok ==> multiset(t.routes) == multiset(s.routes) + multiset{Route(mask, dest, metric, gateway, via)})
  {
    hide RouteFind;
    var r := Route(mask, dest, metric, gateway, Via(s, gateway, link));
    assert LinkFor(s, gateway, link) == r.link;
    HeldIff(s.routes, r);
    InsertBag(s.routes, r);
  }

  /** A route with a gateway goes over the link on which the longest matching prefix reaches
      that gateway, and is refused if nothing does or only through a further gateway. */
  lemma GatewayLink(s: State, dest: nat, mask: nat, gateway: nat, metric: nat, link: Option<nat>)
    requires Good(s) && AllPrefix(s.routes) && 0 < gateway < BCAST && Address4(gateway)
    ensures var (t, ok) := RouteAdd(s, dest, mask, gateway, metric, link);
            && (ok ==> exists best <- s.routes ::
                  && LongestMatch(32, s.routes, best, gateway) && best.gateway == 0 && LiveLink(s, best.link)
                  && Route(mask, dest, metric, gateway, best.link) in t.routes)
            && (!ok ==>
                  || Held(s.routes, dest, mask, metric)
                  || (forall r, p: nat :: r in s.routes ==> !Covers(32, r, p, gateway))
                  || (exists best <- s.routes :: LongestMatch(32, s.routes, best, gateway) && best.gateway != 0))
  {
    RouteAddForm(s, dest, mask, gateway, metric, link);
    Find4Longest(s.routes, BcastRoute(s), gateway);
    var found := RouteFind(s, gateway);
    if found.Some? { FoundIsLive(s, gateway); }
    hide LongestMatch;
    hide Covers;
    hide Good;
    hide Held;
    hide RouteAdd;
    var (t, ok) := RouteAdd(s, dest, mask, gateway, metric, link);
    if ok {
      assert Route(mask, dest, metric, gateway, found.value.link) in multiset(t.routes);
    }
  }

  /** Broadcasts go over the link remembered for them, which a caller can replace, and nothing
      else changes by that. */
  lemma BroadcastLink(s: State, link: Option<nat>)
    ensures var t := SetBcast(s, link);
            && RouteFind(t, 0xFFFFFFFF)
               == Some(Route(0xFFFFFFFF, 0xFFFFFFFF, 1000, 0, if link.Some? then link else s.bcast))
            && t.routes == s.routes && t.links == s.links && t.mcast == s.mcast
  {}

  // ---------- what deleting restores ----------

  lemma {:induction false} KeepInsert(rs: seq<Route>, r: Route, stays: Route -> bool)
    requires !stays(r)
    ensures Keep(InsertRoute(rs, r), stays) == Keep(rs, stays)
  {
    hide Less;
    if rs == [] || Less(rs[|rs| - 1], r, Raw4) {
      assert (rs + [r])[..|rs|] == rs;
    } else {
      var rest, last := rs[..|rs| - 1], rs[|rs| - 1];
      KeepInsert(rest, r, stays);
      var longer := InsertRoute(rest, r) + [last];
      assert longer[..|longer| - 1] == InsertRoute(rest, r);
    }
  }

  function Both(f: Route -> bool, g: Route -> bool): Route -> bool { (r: Route) => f(r) && g(r) }

  lemma {:induction false} KeepTwice(rs: seq<Route>, f: Route -> bool, g: Route -> bool)
    ensures Keep(Keep(rs, f), g) == Keep(rs, Both(f, g))
  {
    if rs != [] {
      var rest, last := rs[..|rs| - 1], rs[|rs| - 1];
      KeepTwice(rest, f, g);
      var kept := Keep(rest, f);
      assert Both(f, g)(last) == (f(last) && g(last));
      if f(last) {
        assert Keep(rs, f) == kept + [last] && (kept + [last])[..|kept|] == kept;
      } else {
        assert Keep(rs, f) == kept + [] == kept;
      }
    }
  }

  /** A route that was added and is deleted again leaves the table as it was. */
  lemma RouteAddThenDel(s: State, dest: nat, mask: nat, gateway: nat, metric: nat, link: Option<nat>)
    requires RouteAdd(s, dest, mask, gateway, metric, link).1
    ensures RouteDel(RouteAdd(s, dest, mask, gateway, metric, link).0, dest, mask, metric) == (s, true)
  {
    hide LinkFor;
    hide RouteFind;
    hide Less;
    hide Raw4;
    hide Keep;
    var r := Route(mask, dest, metric, gateway, LinkFor(s, gateway, link));
    var k := Route(mask, dest, metric, 0, None);
    SameKeyOnly(s.routes, r, k);
    InsertForm(s.routes, r);
    assert SameKey(r, k);
    KeepInsert(s.routes, r, NotKey(k));
    KeepAll(s.routes, NotKey(k));
  }

  // ---------- links ----------

  /** The link of an address, if the table has it. */
  lemma {:induction false} FindLinkIs(ls: seq<Link>, address: nat, dev: nat)
    ensures match FindLink(ls, address, dev)
            case None => forall l <- ls :: l.address == address ==> address == 0 && l.dev != dev
            case Some(l) => l in ls && l.address == address && (address == 0 ==> l.dev == dev)
  {
    if ls != [] {
      FindLinkIs(ls[..|ls| - 1], address, dev);
      assert ls == ls[..|ls| - 1] + [ls[|ls| - 1]];
    }
  }

  /** Adding a route unless its key is held. */
  function AddKey(rs: seq<Route>, r: Route): seq<Route> { if HasKey(rs, r) then rs else InsertRoute(rs, r) }

  /** The multicast route and the route of a network, over the link about to be added. */
  function McastRoute(s: State): Route { Route(MCAST_MASK, MCAST_DEST, 1, 0, Some(s.next)) }
  function NetRoute(s: State, address: nat, mask: nat): Route { Route(mask, And(address, mask), 1, 0, Some(s.next)) }

  predicate McastAdded(s: State) { s.mcast.None? && !Held(s.routes, MCAST_DEST, MCAST_MASK, 1) }

  predicate NetAdded(s: State, address: nat, mask: nat) {
    && !Held(s.routes, And(address, mask), mask, 1)
    && !(McastAdded(s) && mask == MCAST_MASK && Raw4(And(address, mask)) == Raw4(MCAST_DEST))
  }

  predicate AddedRoutes(s: State, address: nat, mask: nat, routes: seq<Route>) {
    multiset(routes) == multiset(s.routes)
                        + (if McastAdded(s) then multiset{McastRoute(s)} else multiset{})
                        + (if NetAdded(s, address, mask) then multiset{NetRoute(s, address, mask)} else multiset{})
  }

  /** The routes of a table with the new link. */
  function WithLink(s: State, address: nat, mask: nat): seq<Route> {
    AddKey(if s.mcast.Some? then s.routes else AddKey(s.routes, McastRoute(s)), NetRoute(s, address, mask))
  }

  lemma LinkAddRoutes(s: State, dev: Option<nat>, address: nat, mask: nat)
    requires LinkAdd(s, dev, address, mask).1
    ensures LinkAdd(s, dev, address, mask).0.routes == WithLink(s, address, mask)
  {
    hide HasKey;
    hide InsertRoute;
    hide And;
  }

  lemma AddKeyBag(rs: seq<Route>, r: Route)
    ensures multiset(AddKey(rs, r))
         == multiset(rs) + (if Held(rs, r.dest, r.mask, r.metric) then multiset{} else multiset{r})
  {
    hide HasKey;
    hide Held;
    HeldIff(rs, r);
    InsertBag(rs, r);
  }

  lemma RoutesAdded(s: State, address: nat, mask: nat)
    ensures AddedRoutes(s, address, mask, WithLink(s, address, mask))
  {
    var mc, net := McastRoute(s), NetRoute(s, address, mask);
    var between := if s.mcast.Some? then s.routes else AddKey(s.routes, mc);
    AddKeyBag(s.routes, mc);
    AddKeyBag(between, net);
    hide AddKey;
    hide Raw4;
    hide And;
    forall r ensures r in between <==> r in s.routes || (McastAdded(s) && r == mc) {
      assert r in between <==> r in multiset(between);
    }
    if Held(between, net.dest, mask, 1) {
      var r :| r in between && r.mask == mask && Raw4(r.dest) == Raw4(net.dest) && r.metric == 1;
      assert r in s.routes ==> Held(s.routes, net.dest, mask, 1);
    } else {
      assert forall r <- s.routes :: r in between;
    }
  }

  /** A link is added exactly when a device is given and its address is not taken. Then the
      routes are the old ones, the multicast route if no link was remembered for it, and the
      route of the link's own network, each unless its key is held; both go over the new link,
      which is remembered for multicast and broadcast if none was. */
  lemma LinkAddForm(s: State, dev: Option<nat>, address: nat, mask: nat)
    ensures var (t, ok) := LinkAdd(s, dev, address, mask);
            && (ok <==> dev.Some? && forall l <- s.links :: l.address == address ==> address == 0 && l.dev != dev.value)
            && (!ok ==> t == s)
            && (ok ==>
                  && t.links == s.links + [Link(s.next, address, mask, dev.value)] && t.next == s.next + 1
                  && t.mcast == (if s.mcast.None? then Some(s.next) else s.mcast)
                  && t.bcast == (if s.bcast.None? then Some(s.next) else s.bcast)
                  && AddedRoutes(s, address, mask, t.routes))
  {
    LinkAddFields(s, dev, address, mask);
    hide LinkAdd;
    hide AddedRoutes;
    hide And;
    var (t, ok) := LinkAdd(s, dev, address, mask);
    if ok {
      LinkAddRoutes(s, dev, address, mask);
      RoutesAdded(s, address, mask);
    }
  }

  lemma LinkAddFields(s: State, dev: Option<nat>, address: nat, mask: nat)
    ensures var (t, ok) := LinkAdd(s, dev, address, mask);
            && (ok <==> dev.Some? && forall l <- s.links :: l.address == address ==> address == 0 && l.dev != dev.value)
            && (!ok ==> t == s)
            && (ok ==>
                  && t.links == s.links + [Link(s.next, address, mask, dev.value)] && t.next == s.next + 1
                  && t.mcast == (if s.mcast.None? then Some(s.next) else s.mcast)
                  && t.bcast == (if s.bcast.None? then Some(s.next) else s.bcast))
  {
    if dev.Some? { FindLinkIs(s.links, address, dev.value); }
    hide FindLink;
    hide HasKey;
    hide InsertRoute;
    hide And;
  }

  lemma AddedMember(s: State, address: nat, mask: nat, routes: seq<Route>, r: Route)
    requires AddedRoutes(s, address, mask, routes)
    ensures r in routes <==>
            || r in s.routes || (McastAdded(s) && r == McastRoute(s))
            || (NetAdded(s, address, mask) && r == NetRoute(s, address, mask))
  {
    assert r in routes <==> r in multiset(routes);
  }

  // ---------- what a new link makes reachable ----------

  /** The two addresses agree in the first p bits. */
  predicate InNetwork(a: nat, address: nat, p: nat)
    requires p <= 32
  {
    Right(a, 32 - p) == Right(address, 32 - p)
  }

  lemma RawTwice(a: nat)
    requires a < 0x1_0000_0000
    ensures Raw4(Raw4(a)) == a
  {
    hide Raw4;
    var x := a / 256;
    var y := x / 256;
    RawBytes(y / 256, y % 256, x % 256, a % 256);
    RawBytes(a % 256, x % 256, y % 256, y / 256);
    assert a == 256 * x + a % 256 && x == 256 * y + x % 256 && y == 256 * (y / 256) + y % 256;
  }

  lemma Sixteen(a: nat, q: nat, d: nat, e: nat)
    requires a == 256 * (256 * q + d) + e && d < 256 && e < 256
    ensures a / 0x10000 == q
  {}

  lemma TwentyFour(a: nat, q: nat, d: nat, e: nat, f: nat)
    requires a == 256 * (256 * (256 * q + d) + e) + f && d < 256 && e < 256 && f < 256
    ensures a / 0x1000000 == q
  {}

  lemma RawBytes(b3: nat, b2: nat, b1: nat, b0: nat)
    requires b3 < 256 && b2 < 256 && b1 < 256 && b0 < 256
    ensures Raw4(b3 * 0x1000000 + b2 * 0x10000 + b1 * 256 + b0) == b0 * 0x1000000 + b1 * 0x10000 + b2 * 256 + b3
  {
    var y := 256 * b3 + b2;
    var x := 256 * y + b1;
    var a := b3 * 0x1000000 + b2 * 0x10000 + b1 * 256 + b0;
    assert a == 256 * x + b0;
    LastOctet(b3, b2);
    LastOctet(y, b1);
    LastOctet(x, b0);
    Sixteen(a, y, b1, b0);
    TwentyFour(a, b3, b2, b1, b0);
  }

  lemma ThirtyTwo(a: nat)
    requires Address4(a)
    ensures a < 0x1_0000_0000
  {
    RightBelow(a, 32);
    LeftTwentyEight(16);
    LeftFour(1);
    LeftAdd(1, 28, 4);
  }

  lemma RawInjective(a: nat, b: nat)
    requires Address4(a) && Address4(b) && Raw4(a) == Raw4(b)
    ensures a == b
  {
    ThirtyTwo(a);
    ThirtyTwo(b);
    RawTwice(a);
    RawTwice(b);
  }

  /** The network of a prefix mask covers every address that shares its first bits. */
  lemma NetCovers(s: State, address: nat, p: nat, a: nat)
    requires Address4(address) && Address4(a) && p <= 32 && InNetwork(a, address, p)
    ensures Covers(32, NetRoute(s, address, Mask(32, p)), p, a)
    ensures Address4(And(address, Mask(32, p)))
  {
    var mask := Mask(32, p);
    AndTwice(address, mask);
    AndSmaller(address, mask, 32);
    MaskedEqualIff(32, p, address, And(address, mask));
  }

  /** A route under the key of the new network covers what that network covers. */
  lemma HeldCovers(s: State, address: nat, p: nat, a: nat, r: Route)
    requires Address4(address) && Address4(a) && p <= 32 && InNetwork(a, address, p) && PrefixRoute(32, r)
    requires r.mask == Mask(32, p) && Raw4(r.dest) == Raw4(And(address, Mask(32, p)))
    ensures Covers(32, r, p, a)
  {
    NetCovers(s, address, p, a);
    RawInjective(r.dest, And(address, Mask(32, p)));
  }

  /** Some route in the table covers the address with the new prefix, and it is over the new
      link unless one did so before. */
  lemma NetHeld(s: State, address: nat, p: nat, a: nat, routes: seq<Route>) returns (r: Route)
    requires AllPrefix(s.routes) && AllPrefix(routes) && Address4(address) && Address4(a)
    requires p <= 32 && InNetwork(a, address, p) && AddedRoutes(s, address, Mask(32, p), routes)
    ensures r in routes && Covers(32, r, p, a)
    ensures r in s.routes || r.link == Some(s.next)
  {
    var mask := Mask(32, p);
    NetCovers(s, address, p, a);
    r := NetRoute(s, address, mask);
    hide Raw4;
    hide Right;
    hide Mask;
    hide And;
    if !NetAdded(s, address, mask) {
      if Held(s.routes, And(address, mask), mask, 1) {
        r :| r in s.routes && r.mask == mask && Raw4(r.dest) == Raw4(And(address, mask)) && r.metric == 1;
      } else {
        r := McastRoute(s);
      }
      AddedMember(s, address, mask, routes, r);
      assert PrefixRoute(32, r);
      HeldCovers(s, address, p, a, r);
    } else {
      AddedMember(s, address, mask, routes, r);
    }
  }

  /** After a link is added every address of its network, broadcast apart, has a route, and no
      shorter than its prefix; it goes over the new link unless the old table held one that is
      no shorter. */
  lemma LinkAddReaches(s: State, dev: Option<nat>, address: nat, p: nat, a: nat)
    requires Good(s) && AllPrefix(s.routes) && Address4(address) && p <= 32
    requires LinkAdd(s, dev, address, Mask(32, p)).1
    requires a < BCAST && Address4(a) && InNetwork(a, address, p)
    ensures var t := LinkAdd(s, dev, address, Mask(32, p)).0; var found := RouteFind(t, a);
            && found.Some? && found.value in t.routes && LongestMatch(32, t.routes, found.value, a)
            && (exists q: nat :: p <= q && Covers(32, found.value, q, a))
            && ((forall r, q: nat :: r in s.routes && Covers(32, r, q, a) ==> q < p) ==>
                  found.value.link == Some(s.next))
  {
    var mask := Mask(32, p);
    LinkAddForm(s, dev, address, mask);
    LinkAddKeeps(s, dev, address, mask);
    assert PrefixMask(mask);
    LinkAddPrefix(s, dev, address, mask);
    hide LinkAdd;
    hide Right;
    hide Mask;
    hide And;
    hide Raw4;
    var t := LinkAdd(s, dev, address, mask).0;
    var r := NetHeld(s, address, p, a, t.routes);
    Find4Longest(t.routes, BcastRoute(t), a);
    var best := RouteFind(t, a).value;
    AddedMember(s, address, mask, t.routes, best);
    var q: nat :| Covers(32, best, q, a) && forall x, y: nat :: x in t.routes && Covers(32, x, y, a) ==> y <= q;
    assert p <= q && Covers(32, best, q, a);
  }

  // ---------- deleting a link ----------

  /** What is left without a link: the links of other numbers and the routes over them, except
      the one under the key of the multicast route if the link was remembered for it. */
  ghost predicate Without(s: State, l: Link, t: State) {
    && t.next == s.next
    && t.mcast == (if s.mcast == Some(l.id) then None else s.mcast)
    && t.bcast == (if s.bcast == Some(l.id) then None else s.bcast)
    && (forall x :: x in t.links <==> x in s.links && x.id != l.id)
    && (forall r :: r in t.routes <==>
          r in s.routes && r.link != Some(l.id) && !(s.mcast == Some(l.id) && SameKey(r, McastRoute(s))))
  }

  /** A link is deleted exactly when its address is held, and with it all that hangs on it. */
  lemma LinkDelForm(s: State, dev: Option<nat>, address: nat)
    ensures var (t, ok) := LinkDel(s, dev, address);
            && (ok <==> dev.Some? && exists l <- s.links ::
                  l.address == address && (address == 0 ==> l.dev == dev.value))
            && (!ok ==> t == s)
            && (ok ==> exists l <- s.links ::
                  l.address == address && (address == 0 ==> l.dev == dev.value) && Without(s, l, t))
  {
    if dev.Some? {
      FindLinkIs(s.links, address, dev.value);
      if FindLink(s.links, address, dev.value).Some? { DeletesLink(s, dev, address); }
    }
    hide FindLink;
    hide Without;
  }

  lemma DeletesLink(s: State, dev: Option<nat>, address: nat)
    requires dev.Some? && FindLink(s.links, address, dev.value).Some?
    ensures Without(s, FindLink(s.links, address, dev.value).value, LinkDel(s, dev, address).0)
  {
    hide FindLink;
    hide SameKey;
    hide Keep;
    hide HasKey;
    var l := FindLink(s.links, address, dev.value).value;
    LinkDelRoutes(s, l.id, McastRoute(s));
    KeepForm(s.links, NotLink(l.id));
  }

  lemma LinkDelRoutes(s: State, id: nat, k: Route)
    ensures var s1 := if s.mcast == Some(id) then RouteDel(s.(mcast := None), k.dest, k.mask, k.metric).0 else s;
            forall r :: r in DropLink(s1.routes, id) <==>
              r in s.routes && r.link != Some(id) && !(s.mcast == Some(id) && SameKey(r, k))
  {
    var s1 := if s.mcast == Some(id) then RouteDel(s.(mcast := None), k.dest, k.mask, k.metric).0 else s;
    var key := Route(k.mask, k.dest, k.metric, 0, None);
    KeepForm(s.routes, NotKey(key));
    KeepForm(s1.routes, NotOver(id));
    forall r ensures SameKey(r, key) == SameKey(r, k) {}
  }

  // ---------- adding and deleting again ----------

  lemma {:induction false} KeptLinks(ls: seq<Link>, l: Link)
    requires forall x <- ls :: x.id != l.id
    ensures Keep(ls + [l], NotLink(l.id)) == ls
  {
    assert (ls + [l])[..|ls|] == ls;
    KeepAll(ls, NotLink(l.id));
  }

  /** No route goes over a link that is not in the table yet. */
  lemma NoneOverNext(s: State)
    requires Good(s)
    ensures forall r <- s.routes :: r.link != Some(s.next)
    ensures forall l <- s.links :: l.id != s.next
    ensures s.mcast != Some(s.next) && s.bcast != Some(s.next)
  {}

  lemma KeepAddKey(rs: seq<Route>, r: Route, stays: Route -> bool)
    requires !stays(r)
    ensures Keep(AddKey(rs, r), stays) == Keep(rs, stays)
  {
    hide HasKey;
    hide Keep;
    KeepInsert(rs, r, stays);
  }

  /** What is left of the routes when the new link goes again. */
  lemma RoutesRestored(s: State, address: nat, mask: nat)
    requires Good(s)
    ensures var routes, k := WithLink(s, address, mask), McastRoute(s);
            && DropLink(routes, s.next) == s.routes
            && DropLink(RemoveKey(routes, k), s.next) == Keep(s.routes, NotKey(k))
  {
    var routes, k, id := WithLink(s, address, mask), McastRoute(s), s.next;
    var both := Both(NotKey(k), NotOver(id));
    var net := NetRoute(s, address, mask);
    NoneOverNext(s);
    assert !NotOver(id)(k) && !NotOver(id)(net) && !both(k) && !both(net);
    hide Good;
    hide AddKey;
    hide Keep;
    hide NotKey;
    hide NotOver;
    hide Both;
    var first := if s.mcast.Some? then s.routes else AddKey(s.routes, k);
    KeepAddKey(s.routes, k, NotOver(id));
    KeepAddKey(s.routes, k, both);
    KeepAddKey(first, net, NotOver(id));
    KeepAddKey(first, net, both);
    KeepTwice(routes, NotKey(k), NotOver(id));
    OverNone(s.routes, id);
    AllOver(s.routes, k, id);
  }

  lemma OverNone(rs: seq<Route>, id: nat)
    requires forall r <- rs :: r.link != Some(id)
    ensures Keep(rs, NotOver(id)) == rs
  {
    KeepAll(rs, NotOver(id));
  }

  lemma {:induction false} AllOver(rs: seq<Route>, k: Route, id: nat)
    requires forall r <- rs :: r.link != Some(id)
    ensures Keep(rs, Both(NotKey(k), NotOver(id))) == Keep(rs, NotKey(k))
  {
    if rs != [] {
      var last := rs[|rs| - 1];
      assert rs == rs[..|rs| - 1] + [last];
      AllOver(rs[..|rs| - 1], k, id);
      assert Both(NotKey(k), NotOver(id))(last) == NotKey(k)(last);
    }
  }

  lemma RouteDelRoutes(s: State, dest: nat, mask: nat, metric: nat, k: Route)
    requires k.dest == dest && k.mask == mask && k.metric == metric
    ensures RouteDel(s, dest, mask, metric).0 == s.(routes := RemoveKey(s.routes, k))
  {
    var key := Route(mask, dest, metric, 0, None);
    SameKept(s.routes, key, k);
    if !HasKey(s.routes, key) { KeepAll(s.routes, NotKey(key)); }
  }

  lemma {:induction false} SameKept(rs: seq<Route>, a: Route, b: Route)
    requires a.mask == b.mask && a.dest == b.dest && a.metric == b.metric
    ensures Keep(rs, NotKey(a)) == Keep(rs, NotKey(b))
  {
    if rs != [] {
      SameKept(rs[..|rs| - 1], a, b);
      assert NotKey(a)(rs[|rs| - 1]) == NotKey(b)(rs[|rs| - 1]);
    }
  }

  lemma KeptIff(rs: seq<Route>, k: Route)
    ensures Keep(rs, NotKey(k)) == rs <==> !HasKey(rs, k)
  {
    KeepForm(rs, NotKey(k));
    if HasKey(rs, k) {
      var x :| x in rs && SameKey(x, k);
      assert x !in Keep(rs, NotKey(k));
    } else {
      KeepAll(rs, NotKey(k));
    }
  }

  /** The table without its last link. */
  lemma Undone(t: State, dev: nat, l: Link, k: Route)
    requires t.links != [] && t.links[|t.links| - 1] == l && (l.address == 0 ==> l.dev == dev)
    requires k.dest == MCAST_DEST && k.mask == MCAST_MASK && k.metric == 1
    ensures LinkDel(t, Some(dev), l.address)
         == (State(DropLink(if t.mcast == Some(l.id) then RemoveKey(t.routes, k) else t.routes, l.id),
                   RemoveLink(t.links, l.id),
                   if t.mcast == Some(l.id) then None else t.mcast,
                   if t.bcast == Some(l.id) then None else t.bcast,
                   t.next), true)
  {
    hide RouteDel;
    hide Keep;
    RouteDelRoutes(t.(mcast := None), MCAST_DEST, MCAST_MASK, 1, k);
    assert FindLink(t.links, l.address, dev) == Some(l);
  }

  /** Deleting a link that was just added restores routes, links and the remembered links if and
      only if the multicast route was not there before under another link: where no link was
      remembered for multicast, a route under its key is deleted with the new link. */
  lemma AddThenDelIff(s: State, dev: Option<nat>, address: nat, mask: nat)
    requires Good(s) && LinkAdd(s, dev, address, mask).1
    ensures LinkDel(LinkAdd(s, dev, address, mask).0, dev, address) == (s.(next := s.next + 1), true)
            <==> !(s.mcast.None? && Held(s.routes, MCAST_DEST, MCAST_MASK, 1))
  {
    var k := McastRoute(s);
    var l := Link(s.next, address, mask, dev.value);
    var t := LinkAdd(s, dev, address, mask).0;
    LinkAddForm(s, dev, address, mask);
    LinkAddRoutes(s, dev, address, mask);
    RoutesRestored(s, address, mask);
    NoneOverNext(s);
    hide LinkAdd;
    hide LinkDel;
    hide Good;
    hide Keep;
    hide AddedRoutes;
    hide Held;
    KeptLinks(s.links, l);
    HeldIff(s.routes, k);
    KeptIff(s.routes, k);
    Undone(t, dev.value, l, k);
  }
}
