/** Compressing all names of a packet preserves what the packet says. */
module DnsPacket {
  import opened Bits
  import opened Wrappers
  import opened DnsNames
  import opened DnsLoop
  import opened DnsCompression

  datatype Kind = Question | Record

  /** A question or a resource record: its name, and everything after the name (type and
      class; for a record also the time to live, the data length and the data). */
  datatype Entry = Entry(kind: Kind, name: seq<byte>, tail: seq<byte>)

  function DataLength(hi: byte, lo: byte): nat { (hi as int) * 256 + (lo as int) }

  predicate WellFormed(e: Entry) {
    && Labels(e.name) && |e.name| <= MAX_NAME
    && match e.kind
       case Question => |e.tail| == 4
       case Record => |e.tail| >= 10 && |e.tail| == 10 + DataLength(e.tail[8], e.tail[9])
  }

  type Item = e: Entry | WellFormed(e) witness Entry(Question, [0], [0, 0, 0, 0])

  // ---------- packets as meaning ----------

  function TailLength(pkt: seq<byte>, pos: nat, kind: Kind): Option<nat> {
    match kind
    case Question => Some(4)
    case Record =>
      if pos + 10 > |pkt| then None else Some(10 + DataLength(pkt[pos + 8], pkt[pos + 9]))
  }

  /** Reading entries of the given kinds one after the other, names decompressed. */
  function Parse(pkt: seq<byte>, pos: nat, kinds: seq<Kind>, rounds: nat): Option<seq<Entry>>
    decreases |kinds|
  {
    if kinds == [] then Some([])
    else
      match Decode(pkt, pos, rounds)
      case None => None
      case Some(name) =>
        match SkipName(pkt, pos)
        case None => None
        case Some(after) =>
          match TailLength(pkt, after, kinds[0])
          case None => None
          case Some(len) =>
            if after + len > |pkt| then None
            else
              match Parse(pkt, after + len, kinds[1..], rounds)
              case None => None
              case Some(rest) => Some([Entry(kinds[0], name, pkt[after..after + len])] + rest)
  }

  function Kinds(items: seq<Item>): seq<Kind> {
    if items == [] then [] else [items[0].kind] + Kinds(items[1..])
  }

  /** The packet body before compression. */
  function Encode(items: seq<Item>): seq<byte> {
    if items == [] then [] else items[0].name + items[0].tail + Encode(items[1..])
  }

  lemma TailStands(pkt: seq<byte>, pos: nat, e: Item)
    requires StandsAt(pkt, pos, e.tail)
    ensures TailLength(pkt, pos, e.kind) == Some(|e.tail|)
  {
    if e.kind.Record? {
      StandsByte(pkt, pos, e.tail, 8);
      StandsByte(pkt, pos, e.tail, 9);
    }
  }

  lemma {:induction false} ParseStep(pkt: seq<byte>, pos: nat, e: Item, len: nat,
                                     kinds: seq<Kind>, rest: seq<Entry>, rounds: nat)
    requires ReadsAs(pkt, pos, e.name, len, rounds) && StandsAt(pkt, pos + len, e.tail)
    requires Parse(pkt, pos + len + |e.tail|, kinds, rounds) == Some(rest)
    ensures Parse(pkt, pos, [e.kind] + kinds, rounds) == Some([e] + rest)
  {
    TailStands(pkt, pos + len, e);
    hide TailLength;
    hide Decode;
    hide SkipName;
    hide WellFormed;
    hide Labels;
    var after, all := pos + len, [e.kind] + kinds;
    assert Decode(pkt, pos, rounds) == Some(e.name) && SkipName(pkt, pos) == Some(after);
    assert pkt[after..after + |e.tail|] == e.tail;
    hide ReadsAs;
    hide StandsAt;
    assert all[0] == e.kind && all[1..] == kinds;
  }

  const ROUNDS: nat := MAX_NAME + 1

  lemma {:induction false} EncodedStands(pkt: seq<byte>, pos: nat, items: seq<Item>)
    requires items != [] && StandsAt(pkt, pos, Encode(items))
    ensures var e := items[0]; var after := pos + |e.name|;
            && StandsAt(pkt, pos, e.name) && StandsAt(pkt, after, e.tail)
            && StandsAt(pkt, after + |e.tail|, Encode(items[1..]))
  {
    hide StandsAt;
    hide WellFormed;
    var e := items[0];
    StandsConcat(pkt, pos, e.name + e.tail, Encode(items[1..]));
    StandsConcat(pkt, pos, e.name, e.tail);
  }

  /** An uncompressed packet says what was put into it. */
  lemma {:induction false} ParsePlain(pkt: seq<byte>, pos: nat, items: seq<Item>, rounds: nat)
    requires StandsAt(pkt, pos, Encode(items)) && rounds >= ROUNDS
    ensures Parse(pkt, pos, Kinds(items), rounds) == Some(items)
    decreases |items|
  {
    hide ReadsAs;
    hide StandsAt;
    hide WellFormed;
    hide Labels;
    hide Encode;
    if items != [] {
      hide Parse;
      hide Kinds;
      var e := items[0];
      EncodedStands(pkt, pos, items);
      NameOf(e);
      ReadsPlain(pkt, pos, e.name, rounds);
      ParsePlain(pkt, pos + |e.name| + |e.tail|, items[1..], rounds);
      EntryReads(pkt, pos, items, |e.name|, rounds);
    }
  }

  lemma NameOf(e: Item)
    ensures Labels(e.name) && |e.name| <= MAX_NAME
  {}

  // ---------- compressing ----------

  /** The packet after compressing the names of `items`, which follow `done`. */
  function CompressRest(done: seq<byte>, items: seq<Item>): Option<seq<byte>>
    requires |done| + |Encode(items)| <= 0x4000
    decreases |items|
  {
    if items == [] then Some(done)
    else
      var e := items[0];
      match Shorten(done, e.name)
      case None => None
      case Some(c) =>
        ShortenShorter(done, e.name);
        CompressRest(done + c + e.tail, items[1..])
  }

  /** The first name is left alone. */
  function CompressPacket(header: seq<byte>, items: seq<Item>): Option<seq<byte>>
    requires |header| == HEADER && |header| + |Encode(items)| <= 0x4000
  {
    if items == [] then Some(header)
    else CompressRest(header + items[0].name + items[0].tail, items[1..])
  }

  lemma PrefixStands(pkt: seq<byte>, a: seq<byte>, b: seq<byte>)
    requires StandsAt(pkt, 0, a + b)
    ensures StandsAt(pkt, 0, a) && StandsAt(pkt, |a|, b)
  {
    StandsConcat(pkt, 0, a, b);
  }

  lemma ThreeStand(pkt: seq<byte>, a: seq<byte>, b: seq<byte>, c: seq<byte>)
    requires StandsAt(pkt, 0, a + b + c)
    ensures StandsAt(pkt, 0, a) && StandsAt(pkt, |a|, b) && StandsAt(pkt, |a| + |b|, c)
  {
    hide StandsAt;
    PrefixStands(pkt, a + b, c);
    PrefixStands(pkt, a, b);
  }

  /** What the rest of a packet reads as, read with one entry in front of it. */
  lemma {:induction false} EntryReads(pkt: seq<byte>, pos: nat, items: seq<Item>, len: nat, rounds: nat)
    requires items != []
    requires ReadsAs(pkt, pos, items[0].name, len, rounds) && StandsAt(pkt, pos + len, items[0].tail)
    requires Parse(pkt, pos + len + |items[0].tail|, Kinds(items[1..]), rounds) == Some(items[1..])
    ensures Parse(pkt, pos, Kinds(items), rounds) == Some(items)
  {
    hide WellFormed;
    hide ReadsAs;
    hide StandsAt;
    hide Parse;
    var e := items[0];
    assert Kinds(items) == [e.kind] + Kinds(items[1..]);
    hide Kinds;
    ParseStep(pkt, pos, e, len, Kinds(items[1..]), items[1..], rounds);
    assert [e] + items[1..] == items;
  }

  /** One item further. */
  lemma {:induction false} CompressStep(done: seq<byte>, items: seq<Item>)
    requires |done| + |Encode(items)| <= 0x4000 && items != []
    requires CompressRest(done, items).Some?
    ensures var e := items[0];
            && Shorten(done, e.name).Some?
            && var next := done + Shorten(done, e.name).value + e.tail;
            && |next| + |Encode(items[1..])| <= |done| + |Encode(items)|
            && CompressRest(done, items) == CompressRest(next, items[1..])
  {
    var e := items[0];
    NameOf(e);
    hide WellFormed;
    ShortenShorter(done, e.name);
    hide Shorten;
    hide Labels;
  }

  /** Whatever comes out begins with `done`, is no longer than before, and behind `done`
      says exactly what the items said. */
  lemma {:induction false} CompressRestReads(done: seq<byte>, items: seq<Item>, rounds: nat)
    requires |done| + |Encode(items)| <= 0x4000 && rounds >= ROUNDS
    requires CompressRest(done, items).Some?
    ensures var pkt := CompressRest(done, items).value;
            && StandsAt(pkt, 0, done)
            && |pkt| <= |done| + |Encode(items)|
            && Parse(pkt, |done|, Kinds(items), rounds) == Some(items)
    decreases |items|
  {
    hide StandsAt;
    hide Kinds;
    hide Parse;
    hide CompressRest;
    hide Encode;
    hide ReadsAs;
    hide WellFormed;
    hide Shorten;
    hide Labels;
    if items == [] {
      NothingReads(done, rounds);
    } else {
      CompressStep(done, items);
      var e := items[0];
      NameOf(e);
      var c := Shorten(done, e.name).value;
      var pkt := CompressRest(done, items).value;
      CompressRestReads(done + c + e.tail, items[1..], rounds);
      ItemReads(done, e, c, pkt, rounds);
      assert |done + c + e.tail| == |done| + |c| + |e.tail|;
      EntryReads(pkt, |done|, items, |c|, rounds);
    }
  }

  lemma NothingReads(done: seq<byte>, rounds: nat)
    requires |done| <= 0x4000
    ensures CompressRest(done, []) == Some(done) && StandsAt(done, 0, done) && Encode([]) == []
    ensures Parse(done, |done|, Kinds([]), rounds) == Some([])
  {
    assert done[0..|done|] == done;
  }

  /** One item, from a packet that goes on as it should behind it. */
  lemma {:induction false} ItemReads(done: seq<byte>, e: Item, c: seq<byte>, pkt: seq<byte>, rounds: nat)
    requires |done| <= 0x4000 && rounds >= ROUNDS && Shorten(done, e.name) == Some(c)
    requires StandsAt(pkt, 0, done + c + e.tail)
    ensures StandsAt(pkt, 0, done) && ReadsAs(pkt, |done|, e.name, |c|, rounds) && StandsAt(pkt, |done| + |c|, e.tail)
  {
    NameOf(e);
    hide StandsAt;
    hide ReadsAs;
    hide WellFormed;
    hide Shorten;
    hide Labels;
    ThreeStand(pkt, done, c, e.tail);
    ShortenReads(done, e.name, pkt, |done|, rounds);
  }

  lemma {:induction false} CompressPacketReads(header: seq<byte>, items: seq<Item>, rounds: nat)
    requires |header| == HEADER && |header| + |Encode(items)| <= 0x4000 && rounds >= ROUNDS
    requires items != [] && CompressPacket(header, items).Some?
    ensures var after := CompressPacket(header, items).value;
            && StandsAt(after, 0, header) && |after| <= |header| + |Encode(items)|
            && Parse(after, HEADER, Kinds(items), rounds) == Some(items)
  {
    hide WellFormed;
    hide ReadsAs;
    hide Parse;
    hide Kinds;
    hide StandsAt;
    hide CompressRest;
    var e, rest := items[0], items[1..];
    CompressRestReads(header + e.name + e.tail, rest, rounds);
    var after := CompressPacket(header, items).value;
    ThreeStand(after, header, e.name, e.tail);
    NameOf(e);
    ReadsPlain(after, HEADER, e.name, rounds);
    EntryReads(after, HEADER, items, |e.name|, rounds);
  }

  /** When compression succeeds, header and items read the same before and after: every name
      decompresses to its original, all suffixes and data are unchanged, and the reading
      loop ends within ROUNDS passes. */
  lemma CompressionPreservesMeaning(header: seq<byte>, items: seq<Item>, rounds: nat)
    requires |header| == HEADER && |header| + |Encode(items)| <= 0x4000 && rounds >= ROUNDS
    requires CompressPacket(header, items).Some?
    ensures var before, after := header + Encode(items), CompressPacket(header, items).value;
            && StandsAt(after, 0, header) && |after| <= |before|
            && Parse(after, HEADER, Kinds(items), rounds) == Parse(before, HEADER, Kinds(items), rounds) == Some(items)
  {
    var before := header + Encode(items);
    assert StandsAt(before, HEADER, Encode(items));
    ParsePlain(before, HEADER, items, rounds);
    if items == [] {
      assert header[0..|header|] == header;
      assert StandsAt(header, 0, header);
    } else {
      hide CompressPacket;
      CompressPacketReads(header, items, rounds);
    }
  }

  /** Where the name of the k-th entry stands. */
  function NamePos(pkt: seq<byte>, pos: nat, kinds: seq<Kind>, k: nat): Option<nat>
    requires k < |kinds|
    decreases k
  {
    if k == 0 then Some(pos)
    else
      match SkipName(pkt, pos)
      case None => None
      case Some(after) =>
        match TailLength(pkt, after, kinds[0])
        case None => None
        case Some(len) => NamePos(pkt, after + len, kinds[1..], k - 1)
  }

  /** What a packet parses to is what the reading loop yields, name by name. */
  lemma {:induction false} NamesRead(pkt: seq<byte>, pos: nat, items: seq<Item>, rounds: nat, k: nat)
    requires Parse(pkt, pos, Kinds(items), rounds) == Some(items) && k < |items|
    ensures |Kinds(items)| == |items|
    ensures var at := NamePos(pkt, pos, Kinds(items), k);
            at.Some? && ReadName(pkt, at.value) == Read(items[k].name)
    decreases k
  {
    hide WellFormed;
    hide Parse;
    hide SkipName;
    hide TailLength;
    hide ReadName;
    hide Decode;
    hide Labels;
    KindsSize(items);
    KindsFirst(items);
    hide Kinds;
    ParseFirst(pkt, pos, Kinds(items), items, rounds);
    if k == 0 {
      NameOf(items[0]);
      ReadsName(pkt, pos, items[0].name, rounds);
    } else {
      var after := SkipName(pkt, pos).value;
      var next := after + TailLength(pkt, after, items[0].kind).value;
      NamesRead(pkt, next, items[1..], rounds, k - 1);
      assert NamePos(pkt, pos, Kinds(items), k) == NamePos(pkt, next, Kinds(items[1..]), k - 1);
      hide NamePos;
    }
  }

  lemma KindsFirst(items: seq<Item>)
    requires items != []
    ensures Kinds(items) != [] && Kinds(items)[0] == items[0].kind && Kinds(items)[1..] == Kinds(items[1..])
  {}

  lemma {:induction false} KindsSize(items: seq<Item>)
    ensures |Kinds(items)| == |items|
  {
    if items != [] { KindsSize(items[1..]); }
  }

  lemma ParseFirst(pkt: seq<byte>, pos: nat, kinds: seq<Kind>, es: seq<Entry>, rounds: nat)
    requires kinds != [] && Parse(pkt, pos, kinds, rounds) == Some(es)
    ensures es != [] && Decode(pkt, pos, rounds) == Some(es[0].name) && SkipName(pkt, pos).Some?
    ensures var after := SkipName(pkt, pos).value; var len := TailLength(pkt, after, kinds[0]);
            && len.Some?
            && Parse(pkt, after + len.value, kinds[1..], rounds) == Some(es[1..])
  {
    hide Decode;
    hide SkipName;
    hide TailLength;
  }

  /** The loop yields every name of the compressed packet as it was, from where it then is. */
  lemma CompressedNamesRead(header: seq<byte>, items: seq<Item>, k: nat)
    requires |header| == HEADER && |header| + |Encode(items)| <= 0x4000
    requires CompressPacket(header, items).Some? && k < |items|
    ensures |Kinds(items)| == |items|
    ensures var before, after := header + Encode(items), CompressPacket(header, items).value;
            var p, q := NamePos(before, HEADER, Kinds(items), k), NamePos(after, HEADER, Kinds(items), k);
            && p.Some? && q.Some?
            && ReadName(before, p.value) == ReadName(after, q.value) == Read(items[k].name)
  {
    hide Parse;
    hide Kinds;
    hide CompressPacket;
    hide ReadName;
    CompressionPreservesMeaning(header, items, ROUNDS);
    NamesRead(header + Encode(items), HEADER, items, ROUNDS, k);
    NamesRead(CompressPacket(header, items).value, HEADER, items, ROUNDS, k);
  }

  // ---------- when compression succeeds ----------

  /** Every name after the first ends in the first name's last label. */
  predicate ShareLastLabel(items: seq<Item>) {
    forall i :: 0 < i < |items| ==>
      && NotRootName(items[0]) && NotRootName(items[i])
      && LastLabel(items[i].name) == LastLabel(items[0].name)
  }

  predicate NotRootName(e: Item) { e.name[0] != 0 }

  lemma {:induction false} CompressRestSucceeds(done: seq<byte>, items: seq<Item>, lastLabel: seq<byte>)
    requires |done| + |Encode(items)| <= 0x4000 && Occurs(done, lastLabel)
    requires forall i :: 0 <= i < |items| ==> NotRootName(items[i]) && LastLabel(items[i].name) == lastLabel
    ensures CompressRest(done, items).Some?
    decreases |items|
  {
    hide Shorten;
    hide LastLabel;
    if items != [] {
      var e := items[0];
      ShortenIff(done, e.name);
      ShortenShorter(done, e.name);
      var c := Shorten(done, e.name).value;
      OccursExtends(done, c + e.tail, lastLabel);
      assert done + (c + e.tail) == done + c + e.tail;
      CompressRestSucceeds(done + c + e.tail, items[1..], lastLabel);
    }
  }

  lemma OccursExtends(done: seq<byte>, more: seq<byte>, lastLabel: seq<byte>)
    requires Occurs(done, lastLabel)
    ensures Occurs(done + more, lastLabel)
  {
    var p: nat :| HEADER <= p && StandsAt(done, p, lastLabel);
    assert (done + more)[p..p + |lastLabel|] == done[p..p + |lastLabel|];
    assert StandsAt(done + more, p, lastLabel);
  }

  lemma Stands(a: seq<byte>, b: seq<byte>, c: seq<byte>, d: seq<byte>)
    ensures StandsAt(a + (b + c) + d, |a| + |b|, c)
  {}

  lemma {:induction false} OwnLabelOccurs(header: seq<byte>, n: Name, tail: seq<byte>)
    requires |header| == HEADER && n[0] != 0
    ensures Occurs(header + n + tail, LastLabel(n))
  {
    hide Labels;
    hide LastLabel;
    LastLabelIsSuffix(n);
    var lastLabel := LastLabel(n);
    var k := |n| - |lastLabel|;
    assert n == n[..k] + lastLabel;
    hide StandsAt;
    Stands(header, n[..k], lastLabel, tail);
    assert StandsAt(header + n + tail, |header| + k, lastLabel);
  }

  /** A sufficient condition that can be read off the input. */
  lemma SharedLabelSuffices(header: seq<byte>, items: seq<Item>)
    requires |header| == HEADER && |header| + |Encode(items)| <= 0x4000 && ShareLastLabel(items)
    ensures CompressPacket(header, items).Some?
  {
    hide LastLabel;
    hide CompressRest;
    if |items| >= 2 {
      assert NotRootName(items[1]);
      OwnLabelOccurs(header, items[0].name, items[0].tail);
      CompressRestSucceeds(header + items[0].name + items[0].tail, items[1..], LastLabel(items[0].name));
    } else if |items| == 1 {
      CompressNothing(header + items[0].name + items[0].tail);
    }
  }

  lemma {:induction false} EncodePrefix(items: seq<Item>, k: nat)
    requires k <= |items|
    ensures |Encode(items[..k])| <= |Encode(items)|
  {
    if k > 0 {
      assert items[..k][1..] == items[1..][..k - 1];
      EncodePrefix(items[1..], k - 1);
    }
  }

  /** The last label of the k-th name stands behind the header of the packet as it is when
      the names before have been compressed. */
  ghost predicate LastLabelKnown(done: seq<byte>, items: seq<Item>, k: nat)
    requires |done| + |Encode(items)| <= 0x4000 && k < |items|
  {
    EncodePrefix(items, k);
    && NotRootName(items[k])
    && CompressRest(done, items[..k]).Some?
    && Occurs(CompressRest(done, items[..k]).value, LastLabel(items[k].name))
  }

  lemma {:induction false} KnownFirst(done: seq<byte>, items: seq<Item>)
    requires |done| + |Encode(items)| <= 0x4000 && items != []
    ensures LastLabelKnown(done, items, 0) <==> Shorten(done, items[0].name).Some?
  {
    assert items[..0] == [];
    CompressNothing(done);
    NameOf(items[0]);
    ShortenIff(done, items[0].name);
    hide Shorten;
    hide CompressRest;
    hide LastLabel;
    hide Encode;
  }

  lemma {:induction false} KnownLater(done: seq<byte>, items: seq<Item>, k: nat)
    requires |done| + |Encode(items)| <= 0x4000 && 0 < k < |items| && Shorten(done, items[0].name).Some?
    ensures var next := done + Shorten(done, items[0].name).value + items[0].tail;
            && |next| + |Encode(items[1..])| <= 0x4000
            && (LastLabelKnown(done, items, k) <==> LastLabelKnown(next, items[1..], k - 1))
  {
    var e := items[0];
    NameOf(e);
    ShortenShorter(done, e.name);
    hide Shorten;
    hide LastLabel;
    hide Labels;
    EncodePrefix(items, k);
    EncodePrefix(items[1..], k - 1);
    assert items[..k][1..] == items[1..][..k - 1] && items[..k][0] == e;
    assert items[1..][k - 1] == items[k];
  }

  /** Compression of any number of later names succeeds exactly when each of them finds its
      last label in the packet as it is when its turn comes. */
  lemma {:induction false} CompressRestIff(done: seq<byte>, items: seq<Item>)
    requires |done| + |Encode(items)| <= 0x4000
    ensures CompressRest(done, items).Some? <==> forall k :: 0 <= k < |items| ==> LastLabelKnown(done, items, k)
    decreases |items|
  {
    if items != [] {
      var e, rest := items[0], items[1..];
      NameOf(e);
      KnownFirst(done, items);
      if Shorten(done, e.name).Some? {
        ShortenShorter(done, e.name);
        hide Shorten;
        hide Labels;
        var next := done + Shorten(done, e.name).value + e.tail;
        CompressRestIff(next, rest);
        assert CompressRest(done, items) == CompressRest(next, rest);
        hide CompressRest;
        hide Encode;
        forall k | 0 < k < |items|
          ensures LastLabelKnown(done, items, k) <==> LastLabelKnown(next, rest, k - 1)
        {
          KnownLater(done, items, k);
        }
        hide LastLabelKnown;
        if forall k :: 0 <= k < |items| ==> LastLabelKnown(done, items, k) {
          forall j | 0 <= j < |rest| ensures LastLabelKnown(next, rest, j) {
            assert LastLabelKnown(done, items, j + 1);
          }
        }
      }
    }
  }

  /** The same for a whole packet, whose first name is left alone. */
  lemma CompressPacketIff(header: seq<byte>, items: seq<Item>)
    requires |header| == HEADER && |header| + |Encode(items)| <= 0x4000 && items != []
    ensures var done := header + items[0].name + items[0].tail;
            CompressPacket(header, items).Some? <==>
            forall k :: 0 <= k < |items| - 1 ==> LastLabelKnown(done, items[1..], k)
  {
    hide CompressRest;
    CompressRestIff(header + items[0].name + items[0].tail, items[1..]);
  }

  lemma CompressNothing(done: seq<byte>)
    requires |done| <= 0x4000
    ensures CompressRest(done, []) == Some(done)
  {}

  /** Two entries: the second name is handled exactly when its last label stands somewhere
      behind the header. */
  lemma TwoEntriesIff(header: seq<byte>, a: Item, b: Item)
    requires |header| == HEADER && |header| + |Encode([a, b])| <= 0x4000
    ensures CompressPacket(header, [a, b]).Some? <==>
            NotRootName(b) && Occurs(header + a.name + a.tail, LastLabel(b.name))
  {
    hide Shorten;
    hide LastLabel;
    var done := header + a.name + a.tail;
    assert [a, b][1..] == [b] && [b][1..] == [];
    assert Encode([b]) == b.name + b.tail;
    assert Encode([a, b]) == a.name + a.tail + Encode([b]);
    ShortenIff(done, b.name);
    assert CompressRest(done, [b]).Some? <==> Shorten(done, b.name).Some?;
  }

  lemma OccursBytes(done: seq<byte>, s: seq<byte>, i: nat)
    requires Occurs(done, s) && i < |s|
    ensures s[i] in done
  {
    var p: nat :| HEADER <= p && StandsAt(done, p, s);
    StandsByte(done, p, s, i);
    assert done[p + i] in done;
  }

  /** It is not handled when that label has a byte the packet did not contain before, as with
      the names "a" and "b". */
  lemma UnrelatedNamesFail(header: seq<byte>, a: Item, b: Item, i: nat)
    requires |header| == HEADER && |header| + |Encode([a, b])| <= 0x4000
    requires NotRootName(b) && i < |LastLabel(b.name)|
    requires LastLabel(b.name)[i] !in header + a.name + a.tail
    ensures CompressPacket(header, [a, b]) == None
  {
    hide LastLabel;
    hide CompressPacket;
    TwoEntriesIff(header, a, b);
    if Occurs(header + a.name + a.tail, LastLabel(b.name)) {
      OccursBytes(header + a.name + a.tail, LastLabel(b.name), i);
    }
  }
}
