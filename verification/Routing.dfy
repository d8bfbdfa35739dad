/** Route lookup for both address families: the reverse scan of an ordered table against
    longest-prefix match. Addresses are numbers in host order. */
module Routing {
  import opened Wrappers
  import opened Bits

  datatype Route = Route(mask: nat, dest: nat, metric: nat, gateway: nat, link: Option<nat>)

  // ---------- prefix masks ----------

  function Ones(p: nat): nat { if p == 0 then 0 else 2 * Ones(p - 1) + 1 }

  /** The contiguous mask of a prefix length in addresses of the given width. */
  function Mask(width: nat, p: nat): nat
    requires p <= width
  {
    Left(Ones(p), width - p)
  }

  /** Longer prefixes have larger masks. */
  lemma {:induction false} MaskMono(width: nat, p: nat, q: nat)
    requires p < q <= width
    ensures Mask(width, p) < Mask(width, q)
    decreases q - p
  {
    if p + 1 < q { MaskMono(width, p + 1, q); }
    LeftDouble(Ones(p), width - p - 1);
    LeftMono(2 * Ones(p), Ones(p + 1), width - p - 1);
  }

  lemma {:induction false} AndOnes(a: nat, p: nat)
    requires Right(a, p) == 0
    ensures And(a, Ones(p)) == a
  {
    if p > 0 { AndOnes(a / 2, p - 1); }
  }

  lemma {:induction false} AndLeft(a: nat, p: nat, k: nat)
    requires Right(Right(a, k), p) == 0
    ensures And(a, Left(Ones(p), k)) == Left(Right(a, k), k)
  {
    if k == 0 { AndOnes(a, p); } else { AndLeft(a / 2, p, k - 1); }
  }

  /** Masking with a prefix mask and comparing is comparing the first p bits. */
  lemma MaskedEqualIff(width: nat, p: nat, a: nat, b: nat)
    requires p <= width && Right(a, width) == 0 && Right(b, width) == 0
    ensures And(a, Mask(width, p)) == And(b, Mask(width, p)) <==> Right(a, width - p) == Right(b, width - p)
  {
    var k := width - p;
    RightRight(a, k, p);
    RightRight(b, k, p);
    AndLeft(a, p, k);
    AndLeft(b, p, k);
    RightLeft(Right(a, k), k);
    RightLeft(Right(b, k), k);
  }

  // ---------- the ordered table ----------

  /** The comparators: netmask, then destination, then metric. The destination is compared
      through `rank`, the number the comparator reads it as. */
  predicate Less(a: Route, b: Route, rank: nat -> nat) {
    || a.mask < b.mask
    || (a.mask == b.mask && rank(a.dest) < rank(b.dest))
    || (a.mask == b.mask && rank(a.dest) == rank(b.dest) && a.metric < b.metric)
  }

  /** The table in tree order. Keys are unique. */
  ghost predicate Sorted(rs: seq<Route>, rank: nat -> nat) {
    forall i, j :: 0 <= i < j < |rs| ==> Less(rs[i], rs[j], rank)
  }

  /** The first hit from the end of the table. */
  function Scan(rs: seq<Route>, hits: Route -> bool): Option<Route> {
    if rs == [] then None
    else if hits(rs[|rs| - 1]) then Some(rs[|rs| - 1])
    else Scan(rs[..|rs| - 1], hits)
  }

  lemma {:induction false} ScanIsGreatest(rs: seq<Route>, hits: Route -> bool, rank: nat -> nat)
    requires Sorted(rs, rank)
    ensures Scan(rs, hits).None? ==> forall r <- rs :: !hits(r)
    ensures Scan(rs, hits).Some? ==>
              var best := Scan(rs, hits).value;
              best in rs && hits(best) && forall r <- rs :: hits(r) ==> r == best || Less(r, best, rank)
  {
    if rs != [] {
      var rest := rs[..|rs| - 1];
      assert rs == rest + [rs[|rs| - 1]];
      ScanIsGreatest(rest, hits, rank);
    }
  }

  /** The first p bits of the address are those of the route's destination. */
  predicate Covers(width: nat, r: Route, p: nat, a: nat) {
    p <= width && r.mask == Mask(width, p) && Right(a, width - p) == Right(r.dest, width - p)
  }

  ghost predicate PrefixRoute(width: nat, r: Route) {
    Right(r.dest, width) == 0 && exists p: nat :: p <= width && r.mask == Mask(width, p)
  }

  /** The route covers the address, and no route does so with a longer prefix. */
  ghost predicate LongestMatch(width: nat, rs: seq<Route>, best: Route, a: nat) {
    exists p: nat ::
      && Covers(width, best, p, a)
      && forall r, q: nat :: r in rs && Covers(width, r, q, a) ==> q <= p
  }

  lemma {:induction false} LeftOrder(width: nat, p: nat, q: nat)
    requires p <= width && q <= width && Mask(width, q) <= Mask(width, p)
    ensures q <= p
  {
    if p < q { MaskMono(width, p, q); }
  }

  lemma GreatestIsLongest(width: nat, rs: seq<Route>, hits: Route -> bool, rank: nat -> nat, a: nat)
    requires Sorted(rs, rank)
    requires forall r <- rs :: PrefixRoute(width, r)
    requires forall r, p: nat :: r in rs && p <= width && r.mask == Mask(width, p) ==>
               (hits(r) <==> Covers(width, r, p, a))
    ensures Scan(rs, hits).None? ==> forall r, p: nat :: r in rs ==> !Covers(width, r, p, a)
    ensures Scan(rs, hits).Some? ==> Scan(rs, hits).value in rs && LongestMatch(width, rs, Scan(rs, hits).value, a)
  {
    ScanIsGreatest(rs, hits, rank);
    if Scan(rs, hits).Some? {
      var best := Scan(rs, hits).value;
      assert PrefixRoute(width, best);
      var p: nat :| p <= width && best.mask == Mask(width, p);
      forall r, q: nat | r in rs && Covers(width, r, q, a) ensures q <= p {
        assert hits(r);
        LeftOrder(width, p, q);
      }
    }
  }

  // ---------- IPv4 ----------

  const BCAST: nat := 0xFFFFFFFF

  /** A host-order address as the 32-bit comparison of the raw field reads it. */
  function Raw4(a: nat): nat {
    a % 256 * 0x1000000 + a / 256 % 256 * 0x10000 + a / 0x10000 % 256 * 256 + a / 0x1000000
  }

  predicate Hits4(a: nat, r: Route) { And(a, r.mask) == r.dest }

  /** The route a destination takes; the broadcast address has a route of its own. */
  function Find4(rs: seq<Route>, bcast: Route, a: nat): Option<Route> {
    if a != BCAST then Scan(rs, r => Hits4(a, r)) else Some(bcast)
  }

  /** A route whose destination has no bits outside its mask. */
  ghost predicate MaskedRoute(r: Route) { And(r.dest, r.mask) == r.dest }

  /** For every destination but broadcast: the route of longest matching prefix, or none
      exactly when no prefix matches. */
  lemma Find4Longest(rs: seq<Route>, bcast: Route, a: nat)
    requires Sorted(rs, Raw4) && a < BCAST && Right(a, 32) == 0
    requires forall r <- rs :: PrefixRoute(32, r) && MaskedRoute(r)
    ensures var found := Find4(rs, bcast, a);
            && (found.None? <==> forall r, p: nat :: r in rs ==> !Covers(32, r, p, a))
            && (found.Some? ==> found.value in rs && LongestMatch(32, rs, found.value, a))
  {
    hide Mask;
    hide Right;
    hide And;
    hide Raw4;
    forall r, p: nat | r in rs && p <= 32 && r.mask == Mask(32, p)
      ensures Hits4(a, r) <==> Covers(32, r, p, a)
    {
      assert PrefixRoute(32, r) && MaskedRoute(r);
      MaskedEqualIff(32, p, a, r.dest);
    }
    GreatestIsLongest(32, rs, r => Hits4(a, r), Raw4, a);
  }

  /** Between two hits of one mask the destination is the same and the larger metric wins. */
  lemma LargerMetricWins(rs: seq<Route>, bcast: Route, a: nat, r: Route)
    requires Sorted(rs, Raw4) && a != BCAST && r in rs && Hits4(a, r)
    ensures var found := Find4(rs, bcast, a);
            && found.Some? && found.value in rs && Hits4(a, found.value)
            && (found.value.mask == r.mask ==> found.value.dest == r.dest && found.value.metric >= r.metric)
  {
    ScanIsGreatest(rs, r => Hits4(a, r), Raw4);
  }

  // ---------- IPv6 ----------

  type Address = b: seq<byte> | |b| == 16 witness seq(16, _ => 0)

  /** Octets as one number, most significant first. */
  function Num(b: seq<byte>): nat {
    if b == [] then 0 else 256 * Num(b[..|b| - 1]) + b[|b| - 1]
  }

  lemma AndOctet(a: byte, m: byte)
    ensures And(a, m) < 256
  {
    Octet(m);
    AndFits(a, m, 8);
    RightBelow(And(a, m), 8);
    LeftEight(1);
  }

  lemma AndEight(x: nat, y: byte, u: nat, v: byte)
    ensures And(256 * x + y, 256 * u + v) == 256 * And(x, u) + And(y, v)
  {
    hide And;
    hide Left;
    hide Right;
    Octet(y);
    Octet(v);
    AndJoin(x, y, u, v, 8);
    LeftEight(x);
    LeftEight(u);
    LeftEight(And(x, u));
  }

  lemma NumLast(b: seq<byte>)
    requires b != []
    ensures Num(b) == 256 * Num(b[..|b| - 1]) + b[|b| - 1]
  {}

  lemma {:induction false} NumAndLast(a: seq<byte>, m: seq<byte>)
    requires |a| == |m| > 0
    ensures var n := |m| - 1;
            And(Num(a), Num(m)) == 256 * And(Num(a[..n]), Num(m[..n])) + And(a[n], m[n])
  {
    hide And;
    NumLast(a);
    NumLast(m);
    hide Num;
    var n := |m| - 1;
    var x, u := Num(a[..n]), Num(m[..n]);
    AndEight(x, a[n], u, m[n]);
    assert Num(a) == 256 * x + a[n] && Num(m) == 256 * u + m[n];
  }

  /** Octets compared under their masks, and the numbers compared under theirs. */
  lemma {:induction false} NumAnd(a: seq<byte>, b: seq<byte>, m: seq<byte>)
    requires |a| == |b| == |m|
    ensures And(Num(a), Num(m)) == And(Num(b), Num(m))
       <==> forall i :: 0 <= i < |m| ==> And(a[i], m[i]) == And(b[i], m[i])
  {
    if m == [] {
      assert a == b;
    } else {
      hide And;
      hide Num;
      var n := |m| - 1;
      NumAnd(a[..n], b[..n], m[..n]);
      NumAndLast(a, m);
      NumAndLast(b, m);
      AndOctet(a[n], m[n]);
      AndOctet(b[n], m[n]);
    }
  }

  /** The loop over the sixteen octets. */
  method MaskedEqual6(a: Address, dest: Address, mask: Address) returns (ok: bool)
    ensures ok <==> And(Num(a), Num(mask)) == And(Num(dest), Num(mask))
  {
    NumAnd(a, dest, mask);
    for i := 0 to 16
      invariant forall j :: 0 <= j < i ==> And(a[j], mask[j]) == And(dest[j], mask[j])
    {
      if And(a[i], mask[i]) != And(dest[i], mask[i]) { return false; }
    }
    ok := true;
  }

  lemma {:induction false} NumBound(a: seq<byte>)
    ensures Num(a) < Left(1, 8 * |a|)
  {
    if a != [] {
      NumBound(a[..|a| - 1]);
      RightLeft(1, 0);
      LeftAdd(1, 8, 8 * (|a| - 1));
      LeftEight(Left(1, 8 * (|a| - 1)));
    }
  }

  /** Comparing byte by byte is comparing the numbers. */
  lemma {:induction false} NumOrder(a: seq<byte>, b: seq<byte>, i: nat)
    requires |a| == |b| && i < |a| && a[..i] == b[..i] && a[i] < b[i]
    ensures Num(a) < Num(b)
  {
    var n := |a| - 1;
    if i < n {
      assert a[..n][..i] == a[..i];
      assert b[..n][..i] == b[..i];
      NumOrder(a[..n], b[..n], i);
    }
  }

  method Compare6(a: Address, b: Address) returns (c: int)
    ensures (c < 0 <==> Num(a) < Num(b)) && (c > 0 <==> Num(a) > Num(b))
  {
    hide Num;
    for i := 0 to 16
      invariant a[..i] == b[..i]
    {
      if a[i] < b[i] { NumOrder(a, b, i); return -1; }
      if a[i] > b[i] { NumOrder(b, a, i); return 1; }
      assert a[..i + 1] == a[..i] + [a[i]] && b[..i + 1] == b[..i] + [b[i]];
    }
    assert a[..16] == a && b[..16] == b;
    c := 0;
  }

  predicate LocalOnly(a: Address) {
    Num(a) != 1 && a[0] == 0xFE && (a[1] / 64 == 2 || a[1] / 64 == 3)
  }

  /** The networks fe80::/10 and fec0::/10 as the top ten bits of an address. */
  const LINK_LOCAL: nat := 0x3FA
  const SITE_LOCAL: nat := 0x3FB

  function LocalNetwork(bits: nat): Route { Route(Mask(128, 10), Left(bits, 118), 0, 0, None) }

  /** The address lies in one of them. */
  predicate InLocalNetwork(a: Address) {
    Covers(128, LocalNetwork(LINK_LOCAL), 10, Num(a)) || Covers(128, LocalNetwork(SITE_LOCAL), 10, Num(a))
  }

  lemma {:induction false} NumRight(b: seq<byte>, n: nat)
    requires n <= |b|
    ensures Right(Num(b), 8 * (|b| - n)) == Num(b[..n])
    decreases |b| - n
  {
    if n < |b| {
      var front := b[..|b| - 1];
      NumRight(front, n);
      assert front[..n] == b[..n];
      LeftEight(Num(front));
      RightEight(Num(b), Num(front), b[|b| - 1]);
      RightRight(Num(b), 8, 8 * (|front| - n));
    } else {
      assert b[..n] == b;
    }
  }

  lemma RightEight(a: nat, x: nat, y: byte)
    requires a == 256 * x + y
    ensures Right(a, 8) == x
  {
    var a1 := a / 2;
    var a2 := a1 / 2;
    var a3 := a2 / 2;
    var a4 := a3 / 2;
    assert a4 == 16 * x + y / 16;
    assert Right(a, 8) == Right(a1, 7) == Right(a2, 6) == Right(a3, 5) == Right(a4, 4);
    assert Right(a4, 4) == Right(a4 / 2, 3) == Right(a4 / 4, 2) == Right(a4 / 8, 1) == a4 / 16;
  }

  lemma NumTwo(b: seq<byte>)
    requires |b| == 2
    ensures Num(b) == 256 * b[0] as nat + b[1] as nat
  {
    NumLast(b);
    NumLast(b[..1]);
    assert b[..1][..0] == [];
  }

  /** The top ten bits of an address are in its first two octets. */
  lemma TopTen(a: Address)
    ensures Right(Num(a), 118) == 4 * a[0] as nat + a[1] as nat / 64
  {
    hide Num;
    hide Right;
    NumRight(a, 2);
    NumTwo(a[..2]);
    RightRight(Num(a), 112, 6);
    RightSix(a[0], a[1]);
  }

  /** The tests of the two octets are membership in those networks, and none of their addresses
      is the loopback one. */
  lemma LocalIff(a: Address)
    ensures LocalOnly(a) <==> InLocalNetwork(a)
  {
    TopTen(a);
    RightLeft(LINK_LOCAL, 118);
    RightLeft(SITE_LOCAL, 118);
    RightOne(118);
    hide Num;
    hide Right;
    hide Left;
    hide Mask;
    assert a[1] as nat / 64 < 4;
  }

  lemma {:induction false} RightOne(k: nat)
    requires k > 0
    ensures Right(1, k) == 0
  {
    RightZero(k - 1);
  }

  lemma RightSix(x: byte, y: byte)
    ensures Right(256 * x + y, 6) == 4 * x + y / 64
  {
    var a := 256 * x + y;
    assert Right(a, 6) == Right(a / 2, 5) == Right(a / 2 / 2, 4) == Right(a / 2 / 2 / 2, 3);
    assert Right(a / 8, 3) == Right(a / 8 / 2, 2) == Right(a / 8 / 2 / 2, 1) == a / 8 / 2 / 2 / 2;
    assert a / 2 / 2 / 2 == a / 8 && a / 8 / 2 / 2 / 2 == a / 64;
  }

  predicate Hits6(a: nat, r: Route) { And(a, r.mask) == And(r.dest, r.mask) }

  /** Link-local and site-local destinations never take a route. */
  function Find6(rs: seq<Route>, a: Address): Option<Route> {
    if LocalOnly(a) then None else Scan(rs, r => Hits6(Num(a), r))
  }

  function Same(a: nat): nat { a }

  /** Outside fe80::/10 and fec0::/10, where it answers with nothing, the IPv6 table answers with
      the longest matching prefix, destinations masked or not. */
  lemma Find6Longest(rs: seq<Route>, a: Address)
    requires Sorted(rs, Same) && forall r <- rs :: PrefixRoute(128, r)
    ensures var found := Find6(rs, a);
            && (found.None? <==> InLocalNetwork(a) || forall r, p: nat :: r in rs ==> !Covers(128, r, p, Num(a)))
            && (found.Some? ==> found.value in rs && LongestMatch(128, rs, found.value, Num(a)))
  {
    LocalIff(a);
    hide LocalOnly;
    hide InLocalNetwork;
    NumBound(a);
    BelowRight(Num(a), 128);
    hide Num;
    hide Mask;
    hide Right;
    hide And;
    hide Left;
    forall r, p: nat | r in rs && p <= 128 && r.mask == Mask(128, p)
      ensures Hits6(Num(a), r) <==> Covers(128, r, p, Num(a))
    {
      assert PrefixRoute(128, r);
      MaskedEqualIff(128, p, Num(a), r.dest);
    }
    GreatestIsLongest(128, rs, r => Hits6(Num(a), r), Same, Num(a));
  }
}
