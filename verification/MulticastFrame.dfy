/** The IGMPv3 membership report as bytes (section 4.2 of RFC 3376): its layout, its checksum,
    and the buffer allocated for it by the eight-bit counter. */
module MulticastFrame {
  import opened Bits
  import opened Wrappers
  import opened Checksum
  import opened Multicast

  const REPORT_V3: byte := 0x22

  type Address4 = a: nat | a < 0x1_0000_0000

  /** Four bytes, most significant first. */
  function Octets(a: Address4): (b: seq<byte>)
    ensures |b| == 4
  {
    [a / 256 / 256 / 256, a / 256 / 256 % 256, a / 256 % 256, a % 256]
  }

  function Join(b: byte, c: nat): nat { 256 * c + b }

  function Number(b: seq<byte>): nat
    requires |b| == 4
  {
    Join(b[3], Join(b[2], Join(b[1], b[0])))
  }

  lemma NumberOctets(a: Address4)
    ensures Number(Octets(a)) == a
  {}

  predicate Addresses(s: seq<nat>) { forall i :: 0 <= i < |s| ==> s[i] < 0x1_0000_0000 }

  function AllOctets(sources: seq<nat>): (b: seq<byte>)
    requires Addresses(sources)
    ensures |b| == 4 * |sources|
  {
    if sources == [] then []
    else Octets(sources[0]) + AllOctets(sources[1..])
  }

  lemma {:induction false} AllOctetsMore(front: seq<nat>, a: Address4)
    requires Addresses(front)
    ensures Addresses(front + [a]) && AllOctets(front + [a]) == AllOctets(front) + Octets(a)
  {
    hide Octets;
    if front == [] {
      assert front + [a] == [a] && [a][1..] == [];
    } else {
      assert (front + [a])[1..] == front[1..] + [a];
      AllOctetsMore(front[1..], a);
    }
  }

  function KindCode(kind: Kind): byte {
    match kind
    case Untyped => 0
    case ToInclude => 3
    case ToExclude => 4
    case Allow => 5
    case Block => 6
  }

  /** Report and record headers with the given checksum field, then the sources. */
  function Body(r: Report, group: Address4, crc: nat): (b: seq<byte>)
    requires crc < 0x10000 && r.count < 256 && Addresses(r.sources)
    ensures |b| == 16 + 4 * |r.sources|
  {
    [REPORT_V3, 0, crc % 256, crc / 256, 0, 0, 0, 1, KindCode(r.kind), 0, 0, r.count]
    + Octets(group) + AllOctets(r.sources)
  }

  function ReportBytes(r: Report, group: Address4): (b: seq<byte>)
    requires r.count < 256 && Addresses(r.sources)
    ensures |b| == 16 + 4 * |r.sources|
  {
    Body(r, group, 0xFFFF - Fold(LittleSum(Body(r, group, 0))))
  }

  /** What is allocated for the report, by its counter. */
  function Allocated(r: Report): nat { 16 + 4 * r.count }

  /** The sources are written into a buffer sized by the counter: they fit exactly when there
      are fewer than 256. */
  lemma FrameFitsIff(was: Mode, a: seq<nat>, now: Mode, b: Option<seq<nat>>, event: Event)
    ensures var r := Change(was, a, now, b, event);
            r.Sent? ==> (16 + 4 * |r.report.sources| <= Allocated(r.report) <==> |r.report.sources| < 256)
  {
    CounterAgrees(was, a, now, b, event);
  }

  /** MLD refuses by the wrapped counter first: a report passes its checks exactly when the
      number of sources in eight bits is at most 89, and of those that pass the ones with no
      more than 89 sources in all fit a buffer sized by the counter, and no others. */
  lemma MldFitsIff(was: Mode, a: seq<nat>, now: Mode, b: Option<seq<nat>>, event: Event)
    ensures var r := Change(was, a, now, b, event);
            r.Sent? ==>
              var n := |r.report.sources|;
              && (MldChecked(r) == r <==> n % 256 <= 89)
              && (MldChecked(r) == r ==> (16 * n <= 16 * r.report.count <==> n <= 89))
  {
    CounterAgrees(was, a, now, b, event);
  }

  lemma CrcSum(r: Report, group: Address4, crc: nat)
    requires crc < 0x10000 && r.count < 256 && Addresses(r.sources)
    ensures LittleSum(Body(r, group, crc)) == LittleSum(Body(r, group, 0)) + crc
  {
    hide AllOctets;
    hide Octets;
    hide KindCode;
    hide Sum;
    var zero := Body(r, group, 0);
    var low: byte, high: byte := crc % 256, crc / 256;
    var half := zero[2 := low];
    SumPut(zero, 2, low, 1, 256);
    SumPut(half, 3, high, 1, 256);
    assert Body(r, group, crc) == half[3 := high];
  }

  /** Every report sent verifies. */
  lemma ReportVerifies(r: Report, group: Address4)
    requires r.count < 256 && Addresses(r.sources)
    ensures BigVerifies(ReportBytes(r, group))
  {
    hide Body;
    hide LittleSum;
    var sum := LittleSum(Body(r, group, 0));
    CrcSum(r, group, 0xFFFF - Fold(sum));
    FoldForm(sum);
    hide Fold;
    if sum > 0 { Complement(sum); }
    AllOnesIff(LittleSum(ReportBytes(r, group)));
    ByteOrderIrrelevant(ReportBytes(r, group));
  }

  /** The loop that writes the sources behind the headers, stopped where it would leave the
      buffer. */
  method WriteSources(buf: array<byte>, sources: seq<nat>) returns (ok: bool)
    requires buf.Length >= 16 && Addresses(sources)
    modifies buf
    ensures ok <==> 16 + 4 * |sources| <= buf.Length
    ensures ok ==> buf[16..16 + 4 * |sources|] == AllOctets(sources)
    ensures buf[..16] == old(buf[..16])
  {
    hide Octets;
    hide AllOctets;
    for i := 0 to |sources|
      invariant 16 + 4 * i <= buf.Length && buf[..16] == old(buf[..16])
      invariant buf[16..16 + 4 * i] == AllOctets(sources[..i])
    {
      if 16 + 4 * i + 4 > buf.Length { return false; }
      assert sources[..i + 1] == sources[..i] + [sources[i]];
      AllOctetsMore(sources[..i], sources[i]);
      PutFour(buf, 16 + 4 * i, Octets(sources[i]));
    }
    assert sources[..|sources|] == sources;
    ok := true;
  }

  method PutFour(buf: array<byte>, at: nat, a: seq<byte>)
    requires 16 <= at && at + 4 <= buf.Length && |a| == 4
    modifies buf
    ensures buf[..16] == old(buf[..16]) && buf[16..at + 4] == old(buf[16..at]) + a
  {
    buf[at], buf[at + 1], buf[at + 2], buf[at + 3] := a[0], a[1], a[2], a[3];
    assert buf[16..at + 4] == buf[16..at] + buf[at..at + 4];
  }

  // ---------- reading a report ----------

  function KindOf(code: byte): Option<Kind> {
    if code == 0 then Some(Untyped)
    else if code == 3 then Some(ToInclude)
    else if code == 4 then Some(ToExclude)
    else if code == 5 then Some(Allow)
    else if code == 6 then Some(Block)
    else None
  }

  function Numbers(b: seq<byte>, n: nat): (r: seq<nat>)
    requires 4 * n <= |b|
    ensures |r| == n
    decreases n
  {
    if n == 0 then [] else [Number(b[..4])] + Numbers(b[4..], n - 1)
  }

  function CountOf(b: seq<byte>): nat
    requires |b| >= 16
  {
    b[11]
  }

  /** A report of one record: its kind, its group and as many sources as it says. */
  function ReadReport(b: seq<byte>): Option<(Report, nat)> {
    if |b| < 16 || b[0] != REPORT_V3 || KindOf(b[8]).None? || |b| < 16 + 4 * CountOf(b) then None
    else Some((Report(KindOf(b[8]).value, CountOf(b), Numbers(b[16..], CountOf(b))), Number(b[12..16])))
  }

  lemma {:induction false} NumbersOctets(sources: seq<nat>)
    requires Addresses(sources)
    ensures Numbers(AllOctets(sources), |sources|) == sources
  {
    if sources != [] {
      hide Number;
      hide Octets;
      var a, b := sources[0], AllOctets(sources);
      assert b[..4] == Octets(a) && b[4..] == AllOctets(sources[1..]);
      NumberOctets(a);
      NumbersOctets(sources[1..]);
    }
  }

  /** With fewer than 256 sources a listener reads exactly what was to be reported. */
  lemma ReportRoundTrip(r: Report, group: Address4)
    requires r.count == |r.sources| < 256 && Addresses(r.sources)
    ensures ReadReport(ReportBytes(r, group)) == Some((r, group))
  {
    hide AllOctets;
    hide Number;
    hide Numbers;
    hide Octets;
    hide LittleSum;
    hide Fold;
    var b := ReportBytes(r, group);
    assert b[12..16] == Octets(group) && b[16..] == AllOctets(r.sources);
    NumberOctets(group);
    NumbersOctets(r.sources);
  }

  // ---------- what a listener makes of the octets ----------

  /** The sources of the first record, four octets each behind the sixteenth, as many as octets
      10 and 11 say. */
  ghost predicate ListsSource(b: seq<byte>, x: nat)
    requires |b| >= 16
  {
    exists i: nat ::
      && i < 256 * b[10] as nat + b[11] as nat && 20 + 4 * i <= |b|
      && x == SourceAt(b, i)
  }

  function SourceAt(b: seq<byte>, i: nat): nat
    requires 20 + 4 * i <= |b|
  {
    0x1000000 * b[16 + 4 * i] as nat + 0x10000 * b[17 + 4 * i] as nat
    + 256 * b[18 + 4 * i] as nat + b[19 + 4 * i] as nat
  }

  /** Section 4.2.12 of RFC 3376 on the octets: record types 3 and 4 give the new filter, 5 and
      6 what to add and to drop. */
  ghost predicate HeardOnWire(mode: Mode, a: seq<nat>, b: seq<byte>, x: nat)
    requires |b| >= 16
  {
    if b[8] == 3 then ListsSource(b, x)
    else if b[8] == 4 then !ListsSource(b, x)
    else if b[8] == 5 then Hears(mode, a, x) || ListsSource(b, x)
    else if b[8] == 6 then Hears(mode, a, x) && !ListsSource(b, x)
    else Hears(mode, a, x)
  }

  lemma {:induction false} AllOctetsAt(sources: seq<nat>, i: nat)
    requires Addresses(sources) && i < |sources|
    ensures AllOctets(sources)[4 * i..4 * i + 4] == Octets(sources[i])
  {
    hide Octets;
    var b, rest := AllOctets(sources), AllOctets(sources[1..]);
    if i == 0 {
      assert b[..4] == Octets(sources[0]);
    } else {
      AllOctetsAt(sources[1..], i - 1);
      assert b[4 * i..4 * i + 4] == rest[4 * (i - 1)..4 * (i - 1) + 4];
    }
  }

  lemma SourceOctets(r: Report, group: Address4, crc: nat, i: nat)
    requires crc < 0x10000 && r.count < 256 && Addresses(r.sources) && i < |r.sources|
    ensures SourceAt(Body(r, group, crc), i) == r.sources[i]
  {
    hide AllOctets;
    var b, a := Body(r, group, crc), r.sources[i];
    AllOctetsAt(r.sources, i);
    assert b[16..] == AllOctets(r.sources);
    var four := Octets(a);
    assert b[16 + 4 * i..16 + 4 * i + 4] == b[16..][4 * i..4 * i + 4] == four;
    assert b[16 + 4 * i] == four[0] && b[17 + 4 * i] == four[1] && b[18 + 4 * i] == four[2] && b[19 + 4 * i] == four[3];
    NumberOctets(a);
  }

  lemma Lists(r: Report, group: Address4, x: nat)
    requires r.count == |r.sources| < 256 && Addresses(r.sources)
    ensures ListsSource(ReportBytes(r, group), x) <==> x in r.sources
  {
    var crc := 0xFFFF - Fold(LittleSum(Body(r, group, 0)));
    hide Fold;
    hide LittleSum;
    var b := Body(r, group, crc);
    assert b[10] == 0 && b[11] == r.count;
    if x in r.sources {
      var i :| 0 <= i < |r.sources| && r.sources[i] == x;
      SourceOctets(r, group, crc, i);
      assert SourceAt(b, i) == x;
    }
    if ListsSource(b, x) {
      var i: nat :| i < r.count && 20 + 4 * i <= |b| && x == SourceAt(b, i);
      SourceOctets(r, group, crc, i);
    }
  }

  /** A listener that reads the octets hears what the report means, and about its group. */
  lemma WireMeans(was: Mode, a: seq<nat>, r: Report, group: Address4, x: nat)
    requires r.count == |r.sources| < 256 && Addresses(r.sources)
    ensures HeardOnWire(was, a, ReportBytes(r, group), x) <==> HeardAfter(was, a, Sent(r), x)
    ensures var b := ReportBytes(r, group);
            && b[0] == 0x22 && b[6] == 0 && b[7] == 1
            && group == 0x1000000 * b[12] as nat + 0x10000 * b[13] as nat + 256 * b[14] as nat + b[15] as nat
  {
    Lists(r, group, x);
    NumberOctets(group);
    hide ListsSource;
    hide AllOctets;
    hide Fold;
    hide LittleSum;
  }

  /** So a change of mode or a deletion of fewer than 256 sources reaches the listener whole. */
  lemma ModeChangeHeard(was: Mode, a: seq<nat>, now: Mode, b: Option<seq<nat>>, event: Event, group: Address4, x: nat)
    requires !event.Query? && (event.Delete? || was != now) && |OrEmpty(b)| < 256 && Addresses(OrEmpty(b))
    ensures var r := Change(was, a, now, b, event);
            && r.Sent? && r.report.count < 256 && Addresses(r.report.sources)
            && (HeardOnWire(was, a, ReportBytes(r.report, group), x)
                <==> if event.Delete? then false else Hears(now, OrEmpty(b), x))
  {
    var r := Change(was, a, now, b, event);
    ModeChangeConveys(was, a, now, b, event);
    hide HeardOnWire;
    hide ReportBytes;
    WireMeans(was, a, r.report, group, x);
  }
}
