/** The internet checksum over a header of any length, and what forwarding does to it. */
module Checksum {
  import opened Bits

  function Times(k: nat, x: nat): nat { k * x }

  function Word(low: nat, high: nat): nat { low + 256 * high }

  /** The sum of the octets, those at even offsets weighted by one factor and those at odd
      offsets by another: (1, 256) reads little-endian words, (256, 1) big-endian ones. */
  function Sum(b: seq<byte>, even: nat, odd: nat): nat {
    if b == [] then 0 else Times(even, b[0]) + Sum(b[1..], odd, even)
  }

  function LittleSum(b: seq<byte>): nat { Sum(b, 1, 256) }
  function BigSum(b: seq<byte>): nat { Sum(b, 256, 1) }

  /** Carries folded back in until sixteen bits are left. */
  function Fold(sum: nat): (r: nat)
    ensures r < 0x10000
    decreases sum
  {
    if sum < 0x10000 then sum else Fold(sum % 0x10000 + sum / 0x10000)
  }

  /** The test of section 4 of RFC 1071, with either reading of the words. */
  predicate LittleVerifies(b: seq<byte>) { Fold(LittleSum(b)) == 0xFFFF }
  predicate BigVerifies(b: seq<byte>) { Fold(BigSum(b)) == 0xFFFF }

  // ---------- ones'-complement arithmetic ----------

  lemma {:induction false} FoldForm(sum: nat)
    ensures Fold(sum) == if sum == 0 then 0 else (sum - 1) % 0xFFFF + 1
    decreases sum
  {
    if sum >= 0x10000 {
      var next := sum % 0x10000 + sum / 0x10000;
      assert sum == next + 0xFFFF * (sum / 0x10000);
      FoldForm(next);
      ModShift(next - 1, sum / 0x10000);
    }
  }

  lemma {:induction false} ModShift(x: nat, k: nat)
    ensures (x + 0xFFFF * k) % 0xFFFF == x % 0xFFFF
  {
    if k > 0 {
      ModShift(x, k - 1);
      assert x + 0xFFFF * k == x + 0xFFFF * (k - 1) + 0xFFFF;
    }
  }

  lemma AllOnesIff(sum: nat)
    ensures Fold(sum) == 0xFFFF <==> sum > 0 && sum % 0xFFFF == 0
  {
    FoldForm(sum);
  }

  lemma {:induction false} SumPut(b: seq<byte>, i: nat, v: byte, even: nat, odd: nat)
    requires i < |b|
    ensures var weight := if i % 2 == 0 then even else odd;
            Sum(b[i := v], even, odd) == Sum(b, even, odd) - Times(weight, b[i]) + Times(weight, v)
  {
    hide Times;
    var c := b[i := v];
    if i == 0 {
      assert c[1..] == b[1..];
    } else {
      assert c[1..] == b[1..][i - 1 := v];
      SumPut(b[1..], i - 1, v, odd, even);
    }
  }

  /** Swapping the octets of every word multiplies the sum by 256, up to a multiple of 65535. */
  lemma {:induction false} SumSwap(b: seq<byte>)
    ensures 256 * Sum(b, 1, 256) == Sum(b, 256, 1) + 0xFFFF * Sum(b, 0, 1)
    ensures 256 * Sum(b, 256, 1) == Sum(b, 1, 256) + 0xFFFF * Sum(b, 1, 0)
  {
    if b != [] { SumSwap(b[1..]); }
  }

  lemma MultipleSwap(x: nat, y: nat, k: nat)
    requires 256 * x == y + 0xFFFF * k && x > 0 && x % 0xFFFF == 0 && (y == 0 ==> x == 0)
    ensures y > 0 && y % 0xFFFF == 0
  {
    var q := x / 0xFFFF;
    assert y == 0xFFFF * (256 * q - k);
    ModShift(0, 256 * q - k);
  }

  /** A header verifies under either byte order or under neither. */
  lemma ByteOrderIrrelevant(b: seq<byte>)
    ensures LittleVerifies(b) <==> BigVerifies(b)
  {
    SumSwap(b);
    AllOnesIff(LittleSum(b));
    AllOnesIff(BigSum(b));
    if LittleVerifies(b) { MultipleSwap(LittleSum(b), BigSum(b), Sum(b, 0, 1)); }
    if BigVerifies(b) { MultipleSwap(BigSum(b), LittleSum(b), Sum(b, 1, 0)); }
  }

  // ---------- the IPv4 header ----------

  /** A header: at least twenty octets and whole words. */
  type Header = h: seq<byte> | |h| >= 20 && |h| % 4 == 0 witness seq(20, _ => 0)

  /** One less in eight bits. */
  function Less(x: int): byte { (x + 255) % 256 }

  /** One more in sixteen bits. */
  function More(x: nat): (r: nat)
    ensures r < 0x10000
  {
    (x + 1) % 0x10000
  }

  function Ttl(h: Header): byte { h[8] }

  /** The checksum field as a little-endian machine reads it. */
  function Crc(h: Header): (c: nat)
    ensures c < 0x10000
  {
    Word(h[10], h[11])
  }

  function PutCrc(h: Header, c: nat): (r: Header)
    requires c < 0x10000
    ensures |r| == |h| && Crc(r) == c && r[..10] == h[..10] && r[12..] == h[12..]
  {
    h[10 := c % 256][11 := c / 256]
  }

  function PutTtl(h: Header, ttl: byte): (r: Header)
    ensures |r| == |h| && Crc(r) == Crc(h) && Ttl(r) == ttl
  {
    h[8 := ttl]
  }

  /** The eight-bit TTL less one and the sixteen-bit field plus one, both wrapping. */
  function Hop(h: Header): (r: Header)
    ensures |r| == |h|
  {
    PutCrc(PutTtl(h, Less(Ttl(h))), More(Crc(h)))
  }

  function Hops(h: Header, k: nat): (r: Header)
    ensures |r| == |h|
  {
    if k == 0 then h else Hop(Hops(h, k - 1))
  }

  /** The field zeroed and then set to the complement of the folded sum. */
  function Stamp(h: Header): (r: Header)
    ensures |r| == |h|
  {
    PutCrc(PutCrc(h, 0), 0xFFFF - Fold(LittleSum(PutCrc(h, 0))))
  }

  lemma PutCrcSum(h: Header, c: nat)
    requires c < 0x10000
    ensures LittleSum(PutCrc(h, c)) == LittleSum(h) - Crc(h) + c
  {
    hide Sum;
    SumPut(h, 10, c % 256, 1, 256);
    SumPut(h[10 := c % 256], 11, c / 256, 1, 256);
  }

  lemma PutTtlSum(h: Header, ttl: byte)
    ensures LittleSum(PutTtl(h, ttl)) == LittleSum(h) - Ttl(h) + ttl
  {
    hide Sum;
    SumPut(h, 8, ttl, 1, 256);
  }

  lemma HopSum(h: Header)
    ensures LittleSum(Hop(h)) == LittleSum(h) - Ttl(h) + Less(Ttl(h)) - Crc(h) + More(Crc(h))
    ensures Ttl(Hop(h)) == Less(Ttl(h)) && Crc(Hop(h)) == More(Crc(h))
  {
    hide LittleSum;
    hide Less;
    hide More;
    hide Crc;
    hide Word;
    var g := PutTtl(h, Less(Ttl(h)));
    PutTtlSum(h, Less(Ttl(h)));
    PutCrcSum(g, More(Crc(h)));
    assert Hop(h)[..10][8] == g[8];
  }

  /** A header that verified still verifies after one hop exactly when its TTL had not run
      out and its checksum field was not all ones. */
  lemma HopVerifiesIff(h: Header)
    requires BigVerifies(h)
    ensures BigVerifies(Hop(h)) <==> Ttl(h) >= 1 && Crc(h) != 0xFFFF
  {
    hide Sum;
    hide Fold;
    hide Hop;
    hide Hops;
    hide Crc;
    hide Ttl;
    ByteOrderIrrelevant(h);
    ByteOrderIrrelevant(Hop(h));
    AllOnesIff(LittleSum(h));
    AllOnesIff(LittleSum(Hop(h)));
    HopSum(h);
  }

  lemma {:induction false} HopsSum(h: Header, k: nat)
    requires k <= Ttl(h)
    ensures Ttl(Hops(h, k)) == Ttl(h) - k && Crc(Hops(h, k)) == (Crc(h) + k) % 0x10000
    ensures LittleSum(Hops(h, k)) == LittleSum(h) - k - Crc(h) + (Crc(h) + k) % 0x10000
  {
    hide LittleSum;
    hide Hop;
    hide Crc;
    hide Ttl;
    if k > 0 {
      HopsSum(h, k - 1);
      HopSum(Hops(h, k - 1));
    }
  }

  /** Over a whole path: after k hops the header verifies exactly when the field has not
      wrapped, and a header spoilt by the wrap stays spoilt for the rest of the path. */
  lemma HopsVerifyIff(h: Header, k: nat)
    requires BigVerifies(h) && k <= Ttl(h)
    ensures BigVerifies(Hops(h, k)) <==> Crc(h) + k <= 0xFFFF
  {
    hide Sum;
    hide Fold;
    hide Hop;
    hide Hops;
    hide Crc;
    hide Ttl;
    ByteOrderIrrelevant(h);
    ByteOrderIrrelevant(Hops(h, k));
    AllOnesIff(LittleSum(h));
    AllOnesIff(LittleSum(Hops(h, k)));
    HopsSum(h, k);
  }

  lemma StampSum(h: Header)
    ensures var sum := LittleSum(PutCrc(h, 0));
            && LittleSum(Stamp(h)) == sum + 0xFFFF - Fold(sum)
            && Crc(Stamp(h)) == 0xFFFF - Fold(sum)
            && PutCrc(Stamp(h), 0) == PutCrc(h, 0)
  {
    hide Sum;
    hide Fold;
    hide Crc;
    FoldForm(LittleSum(PutCrc(h, 0)));
    PutCrcSum(PutCrc(h, 0), 0xFFFF - Fold(LittleSum(PutCrc(h, 0))));
  }

  /** Every stamped header verifies. Its field is all ones only over an all-zero header, and
      stamping again changes nothing. */
  lemma StampVerifies(h: Header)
    ensures BigVerifies(Stamp(h))
    ensures Crc(Stamp(h)) == 0xFFFF <==> LittleSum(PutCrc(h, 0)) == 0
    ensures Stamp(Stamp(h)) == Stamp(h)
  {
    StampSum(h);
    assert Stamp(Stamp(h)) == Stamp(h) by {
      hide Sum;
      hide Fold;
      hide Crc;
      hide LittleSum;
    }
    hide LittleSum;
    hide PutCrc;
    hide Stamp;
    hide Crc;
    var sum := LittleSum(PutCrc(h, 0));
    FoldForm(sum);
    AllOnesIff(LittleSum(Stamp(h)));
    ByteOrderIrrelevant(Stamp(h));
    hide Fold;
    if sum > 0 { Complement(sum); }
  }

  lemma Complement(sum: nat)
    requires sum > 0
    ensures (sum + 0xFFFF - ((sum - 1) % 0xFFFF + 1)) % 0xFFFF == 0
  {
    var q := (sum - 1) / 0xFFFF;
    assert sum + 0xFFFF - ((sum - 1) % 0xFFFF + 1) == 0xFFFF * (q + 1);
    ModShift(0, q + 1);
  }

  // ---------- the loops ----------

  lemma {:induction false} SumAppend(a: seq<byte>, b: seq<byte>, even: nat, odd: nat)
    requires |a| % 2 == 0
    ensures Sum(a + b, even, odd) == Sum(a, even, odd) + Sum(b, even, odd)
  {
    if a == [] {
      assert a + b == b;
    } else {
      assert (a + b)[1..][1..] == a[2..] + b && a[1..][1..] == a[2..];
      SumAppend(a[2..], b, even, odd);
    }
  }

  lemma {:induction false} SumBound(b: seq<byte>)
    ensures Sum(b, 1, 256) <= 0xFFFF * ((|b| + 1) / 2)
  {
    if |b| >= 2 {
      assert b[1..][1..] == b[2..];
      SumBound(b[2..]);
    } else if |b| == 1 {
      assert b[1..] == [];
    }
  }

  lemma TwoOctets(b: seq<byte>)
    requires |b| == 2
    ensures LittleSum(b) == Word(b[0], b[1])
  {
    var rest := b[1..];
    assert Sum(rest, 256, 1) == Times(256, rest[0]) + Sum(rest[1..], 1, 256);
    assert rest[1..] == [];
  }

  lemma OneOctet(b: seq<byte>)
    requires |b| == 1
    ensures LittleSum(b) == b[0]
  {
    assert b[1..] == [];
    assert Sum(b, 1, 256) == Times(1, b[0]) + Sum(b[1..], 256, 1);
    assert Times(1, b[0]) == b[0];
  }

  lemma NextWord(b: seq<byte>, i: nat, len: nat)
    requires i % 2 == 0 && i + 2 <= len <= |b|
    ensures LittleSum(b[..i + 2]) == LittleSum(b[..i]) + Word(b[i], b[i + 1])
    ensures LittleSum(b[..i + 2]) <= LittleSum(b[..len])
  {
    hide Sum;
    assert b[..i + 2] == b[..i] + b[i..i + 2];
    SumAppend(b[..i], b[i..i + 2], 1, 256);
    TwoOctets(b[i..i + 2]);
    assert b[..len] == b[..i + 2] + b[i + 2..len];
    SumAppend(b[..i + 2], b[i + 2..len], 1, 256);
  }

  /** The last byte of an odd number of octets. */
  function Odd(b: seq<byte>): nat { if |b| % 2 == 1 then b[|b| - 1] else 0 }

  function Even(n: nat): nat { n - n % 2 }

  lemma OddFirst(b: seq<byte>)
    requires |b| <= 0x10000
    ensures LittleSum(b) == LittleSum(b[..Even(|b|)]) + Odd(b)
    ensures LittleSum(b[..0]) == 0 && LittleSum(b) < 0x1_0000_0000
  {
    SumBound(b);
    if |b| % 2 == 1 {
      OneOctet(b[|b| - 1..]);
      assert b == b[..|b| - 1] + b[|b| - 1..];
      SumAppend(b[..|b| - 1], b[|b| - 1..], 1, 256);
    } else {
      assert b[..|b|] == b;
    }
  }

  /** The words, the odd byte first, in thirty-two bits that never overflow here. */
  method AddWords(b: seq<byte>) returns (sum: nat)
    requires |b| <= 0x10000
    ensures sum == LittleSum(b) < 0x1_0000_0000
  {
    hide LittleSum;
    hide Word;
    var len := |b|;
    sum := 0;
    if len % 2 == 1 {
      len := len - 1;
      sum := b[len];
    }
    OddFirst(b);
    var i := 0;
    while i < len
      invariant 0 <= i <= len && i % 2 == 0
      invariant sum == LittleSum(b[..i]) + Odd(b)
    {
      NextWord(b, i, len);
      sum := (sum + Word(b[i], b[i + 1])) % 0x1_0000_0000;
      i := i + 2;
    }
  }

  method FoldCarries(sum: nat) returns (r: nat)
    ensures r == 0xFFFF - Fold(sum) && r < 0x10000
  {
    var s := sum;
    while s >= 0x10000
      invariant Fold(s) == Fold(sum)
    {
      s := s % 0x10000 + s / 0x10000;
    }
    r := 0xFFFF - s;
  }

  /** Accepts a received header exactly when it verifies on the wire. */
  method CrcCheck(h: Header) returns (ok: bool)
    requires |h| <= 60
    ensures ok <==> BigVerifies(h)
  {
    var sum := AddWords(h);
    var c := FoldCarries(sum);
    ByteOrderIrrelevant(h);
    ok := c == 0;
  }

  method WriteCrc(a: array<byte>, c: nat)
    requires a.Length >= 20 && a.Length % 4 == 0 && c < 0x10000
    modifies a
    ensures a[..] == PutCrc(old(a[..]), c)
  {
    a[10], a[11] := c % 256, c / 256;
  }

  /** The header of a frame, rewritten in place. */
  method StampInPlace(a: array<byte>)
    requires 20 <= a.Length <= 60 && a.Length % 4 == 0
    modifies a
    ensures a[..] == Stamp(old(a[..]))
  {
    hide PutCrc;
    hide LittleSum;
    hide Fold;
    WriteCrc(a, 0);
    var sum := AddWords(a[..]);
    var c := FoldCarries(sum);
    WriteCrc(a, c);
  }

  // ---------- the checks before forwarding ----------

  /** Source, destination, identification and protocol, as octets of the header. */
  datatype Flow = Flow(src: seq<byte>, dst: seq<byte>, id: seq<byte>, proto: byte)

  function FlowOf(h: Header): Flow { Flow(h[12..16], h[16..20], h[4..6], h[9]) }

  /** What the checks make of a header: pass it on or not, the header as it then is, and the
      flow remembered. A TTL of zero wraps and passes. */
  function Checked(h: Header, local: bool, last: Flow): (bool, Header, Flow) {
    if Ttl(h) == 1 then (false, PutTtl(h, 0), last)
    else if local || FlowOf(h) == last then (false, Hop(h), last)
    else (true, Hop(h), FlowOf(h))
  }

  class Forwarder {
    var last: Flow

    constructor ()
      ensures last == Flow([0, 0, 0, 0], [0, 0, 0, 0], [0, 0], 0)
    {
      last := Flow([0, 0, 0, 0], [0, 0, 0, 0], [0, 0], 0);
    }

    method PreForward(a: array<byte>, local: bool) returns (ok: bool)
      requires a.Length >= 20 && a.Length % 4 == 0
      modifies this, a
      ensures (ok, a[..], last) == Checked(old(a[..]), local, old(last))
    {
      ghost var h: Header := a[..];
      a[8] := Less(a[8]);
      assert a[..] == PutTtl(h, Less(Ttl(h)));
      if a[8] < 1 { return false; }
      var c := More(Word(a[10], a[11]));
      WriteCrc(a, c);
      if local { return false; }
      var flow := FlowOf(a[..]);
      assert flow == FlowOf(h);
      if last == flow { return false; }
      last := flow;
      ok := true;
    }
  }

  /** What is passed on came in verifying and goes out verifying exactly when its TTL was at
      least two and its field not all ones. */
  lemma PassedOnVerifiesIff(h: Header, local: bool, last: Flow)
    requires BigVerifies(h) && Checked(h, local, last).0
    ensures BigVerifies(Checked(h, local, last).1) <==> Ttl(h) >= 2 && Crc(h) != 0xFFFF
  {
    HopVerifiesIff(h);
  }

  /** A header that arrives, and whether its source is an address of the host itself. */
  datatype Received = Received(header: Header, local: bool)

  /** Source and destination address, identification and protocol agree, octet by octet. */
  predicate OneFlow(g: Header, h: Header) {
    && g[4] == h[4] && g[5] == h[5] && g[9] == h[9]
    && forall i :: 12 <= i < 20 ==> g[i] == h[i]
  }

  lemma FlowIff(g: Header, h: Header)
    ensures FlowOf(g) == FlowOf(h) <==> OneFlow(g, h)
  {
    if FlowOf(g) == FlowOf(h) {
      assert g[4..6][0] == h[4..6][0] && g[4..6][1] == h[4..6][1];
      forall i | 12 <= i < 20 ensures g[i] == h[i] {
        assert i < 16 ==> g[12..16][i - 12] == h[12..16][i - 12];
        assert i >= 16 ==> g[16..20][i - 16] == h[16..20][i - 16];
      }
    }
  }

  /** The flow remembered after a run, and the headers passed on in it, as they came. */
  function Remembered(rs: seq<Received>, last: Flow): Flow {
    if rs == [] then last
    else Checked(rs[|rs| - 1].header, rs[|rs| - 1].local, Remembered(rs[..|rs| - 1], last)).2
  }

  function PassedOn(rs: seq<Received>, last: Flow): seq<Header> {
    if rs == [] then []
    else
      var front, r := rs[..|rs| - 1], rs[|rs| - 1];
      PassedOn(front, last) +
      (if Checked(r.header, r.local, Remembered(front, last)).0 then [r.header] else [])
  }

  lemma {:induction false} LastRemembered(rs: seq<Received>, last: Flow)
    ensures var passed := PassedOn(rs, last);
            Remembered(rs, last) == (if passed == [] then last else FlowOf(passed[|passed| - 1]))
  {
    if rs != [] {
      hide FlowOf;
      hide Hop;
      LastRemembered(rs[..|rs| - 1], last);
    }
  }

  lemma CheckedIff(h: Header, local: bool, flow: Flow)
    ensures Checked(h, local, flow).0 <==> h[8] != 1 && !local && FlowOf(h) != flow
  {
    hide Hop;
    hide PutTtl;
    hide FlowOf;
  }

  lemma PassedOneMore(rs: seq<Received>, last: Flow, r: Received)
    ensures PassedOn(rs + [r], last)
         == PassedOn(rs, last) + (if Checked(r.header, r.local, Remembered(rs, last)).0 then [r.header] else [])
  {
    hide Checked;
    assert (rs + [r])[..|rs|] == rs;
  }

  /** After any run a header is passed on if and only if its TTL is not one, its source is not
      the host itself, and it is not of the flow passed on last, or before any, remembered at
      the start. */
  lemma PassesIff(rs: seq<Received>, last: Header, r: Received)
    ensures var before, after := PassedOn(rs, FlowOf(last)), PassedOn(rs + [r], FlowOf(last));
            var latest := if before == [] then last else before[|before| - 1];
            after == before + (if r.header[8] != 1 && !r.local && !OneFlow(r.header, latest) then [r.header] else [])
  {
    hide Checked;
    hide Remembered;
    hide PassedOn;
    hide FlowOf;
    hide OneFlow;
    PassedOneMore(rs, FlowOf(last), r);
    CheckedIff(r.header, r.local, Remembered(rs, FlowOf(last)));
    var before := PassedOn(rs, FlowOf(last));
    LastRemembered(rs, FlowOf(last));
    FlowIff(r.header, if before == [] then last else before[|before| - 1]);
  }

  /** Over every run no two headers of one flow are passed on in a row. */
  lemma {:induction false} NoImmediateRepeat(rs: seq<Received>, last: Header)
    ensures var passed := PassedOn(rs, FlowOf(last));
            && (forall i :: 0 < i < |passed| ==> !OneFlow(passed[i], passed[i - 1]))
            && (passed != [] ==> !OneFlow(passed[0], last))
  {
    if rs != [] {
      var front, r := rs[..|rs| - 1], rs[|rs| - 1];
      assert rs == front + [r];
      NoImmediateRepeat(front, last);
      PassesIff(front, last, r);
      hide OneFlow;
    }
  }
}
