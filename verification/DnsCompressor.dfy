/** The in-place compressor: it rewrites names in the packet buffer, moves the tail of the
    packet up behind each pointer, and shrinks the length as it goes. */
module DnsCompressor {
  import opened Bits
  import opened Wrappers
  import opened DnsNames
  import opened DnsCompression
  import opened DnsPacket

  // ---------- names as C strings ----------

  method StrLen(pkt: array<byte>, pos: nat, ghost n: Name) returns (len: nat)
    requires StandsAt(pkt[..], pos, n)
    ensures len == |n| - 1
  {
    NameBytes(n);
    len := 0;
    StandsByte(pkt[..], pos, n, 0);
    while pkt[pos + len] != 0
      invariant len < |n|
      invariant pos + |n| <= pkt.Length
      decreases |n| - len
    {
      StandsByte(pkt[..], pos, n, len);
      len := len + 1;
      StandsByte(pkt[..], pos, n, len);
    }
    StandsByte(pkt[..], pos, n, len);
  }

  /** A match before the name ends before the bytes being rewritten: its zero byte cannot
      lie among the non-zero bytes from `start` to `name`, nor inside the name. */
  lemma NoOverlap(pkt: seq<byte>, start: nat, name: nat, n: Name, it: nat)
    requires start <= name && StandsAt(pkt, name, n) && it < name && StandsAt(pkt, it, n)
    requires forall i :: start <= i < name ==> pkt[i] != 0
    ensures it + |n| <= start
  {
    NameBytes(n);
    var last := it + |n| - 1;
    StandsByte(pkt, it, n, |n| - 1);
    if last >= name {
      StandsByte(pkt, name, n, last - name);
    }
  }

  lemma StandsPrefix(pkt: seq<byte>, start: nat, it: nat, s: seq<byte>)
    requires start <= |pkt| && it + |s| <= start
    ensures StandsAt(pkt[..start], it, s) <==> StandsAt(pkt, it, s)
  {
    assert pkt[..start][it..it + |s|] == pkt[it..it + |s|];
  }

  /** One step of the search over positions. */
  lemma FindStep(pkt: seq<byte>, start: nat, name: nat, n: Name, it: nat)
    requires start <= name && StandsAt(pkt, name, n) && it < name
    requires forall i :: start <= i < name ==> pkt[i] != 0
    ensures Find(pkt[..start], n, it) ==
            if StandsAt(pkt, it, n) then it else Find(pkt[..start], n, it + 1)
  {
    if StandsAt(pkt, it, n) {
      NoOverlap(pkt, start, name, n, it);
    }
    if it + |n| <= start {
      StandsPrefix(pkt, start, it, n);
    }
  }

  /** Searches for the name between the header and the name itself; `start` is where the
      whole name being compressed begins. */
  method FindPtr(pkt: array<byte>, name: nat, ghost start: nat, ghost n: Name) returns (ptr: int)
    requires HEADER <= start <= name && StandsAt(pkt[..], name, n)
    requires forall i :: start <= i < name ==> pkt[i] != 0
    ensures ptr == Find(pkt[..start], n, HEADER)
  {
    hide Labels;
    hide Find;
    var it := HEADER;
    var size := StrLen(pkt, name, n);
    assert pkt[..][..start] == pkt[..start];
    assert pkt[..][name..name + |n|] == pkt[name..name + |n|];
    while it < name
      invariant HEADER <= it <= name
      invariant Find(pkt[..start], n, HEADER) == Find(pkt[..start], n, it)
    {
      FindStep(pkt[..], start, name, n, it);
      assert pkt[..][it..it + |n|] == pkt[it..it + |n|];
      if pkt[it..it + size + 1] == pkt[name..name + size + 1] {
        return it;
      }
      it := it + 1;
    }
    FindNone(pkt[..start], n, it);
    ptr := -1;
  }

  lemma FindNone(done: seq<byte>, s: seq<byte>, it: nat)
    requires it >= |done|
    ensures Find(done, s, it) == -1
  {}

  // ---------- one name ----------

  /** Moves pkt[from..len] down to `to`. */
  method MoveUp(pkt: array<byte>, to: nat, from: nat, len: nat)
    requires to <= from <= len <= pkt.Length
    modifies pkt
    ensures pkt[..to + len - from] == old(pkt[..to]) + old(pkt[from..len])
  {
    var difference := from - to;
    for i := from to len
      invariant pkt[..to] == old(pkt[..to])
      invariant pkt[to..i - difference] == old(pkt[from..i])
      invariant forall k :: i <= k < len ==> pkt[k] == old(pkt[k])
    {
      pkt[i - difference] := pkt[i];
      assert pkt[to..i + 1 - difference] == pkt[to..i - difference] + [pkt[i - difference]];
      assert old(pkt[from..i + 1]) == old(pkt[from..i]) + [old(pkt[i])];
    }
    assert pkt[..to + len - from] == pkt[..to] + pkt[to..len - difference];
  }

  function Prepend(kept: seq<byte>, o: Option<seq<byte>>): Option<seq<byte>> {
    match o
    case None => None
    case Some(r) => Some(kept + r)
  }

  lemma PrependNext(done: seq<byte>, kept: seq<byte>, rest: Name)
    requires |done| <= 0x4000 && rest[0] != 0 && Find(done, rest, HEADER) < 0
    ensures Prepend(kept, Shorten(done, rest)) == Prepend(kept + FirstLabel(rest), Shorten(done, Rest(rest)))
  {
    hide Find;
    hide Labels;
    var r := Shorten(done, Rest(rest));
    if r.Some? {
      assert kept + (FirstLabel(rest) + r.value) == kept + FirstLabel(rest) + r.value;
    }
  }

  lemma FoundForm(done: seq<byte>, n: Name)
    requires |done| <= 0x4000 && n[0] != 0 && Find(done, n, HEADER) >= 0
    ensures Find(done, n, HEADER) < 0x4000
    ensures Shorten(done, n) == Some(PointerBytes(Find(done, n, HEADER)))
  {
    FindForm(done, n, HEADER);
  }

  /** Writes the pointer at `lbl` and closes the gap behind it. */
  method PutPointer(pkt: array<byte>, lbl: nat, size: nat, ptr: nat, len: nat) returns (newLen: nat)
    requires ptr < 0x4000 && 2 <= size && lbl + size <= len <= pkt.Length
    modifies pkt
    ensures newLen == len - (size - 2)
    ensures pkt[..newLen] == old(pkt[..lbl]) + PointerBytes(ptr) + old(pkt[lbl + size..len])
  {
    pkt[lbl] := 192 + ptr / 256;
    pkt[lbl + 1] := ptr % 256;
    assert pkt[..lbl + 2] == old(pkt[..lbl]) + PointerBytes(ptr);
    assert pkt[lbl + size..len] == old(pkt[lbl + size..len]);
    MoveUp(pkt, lbl + 2, lbl + size, len);
    newLen := len - (size - 2);
  }

  /** `kept` and then `rest` stand where the name stood. */
  ghost predicate Placed(pkt: seq<byte>, name: nat, kept: seq<byte>, rest: Name) {
    StandsAt(pkt, name, kept) && StandsAt(pkt, name + |kept|, rest)
  }

  predicate NoZero(pkt: seq<byte>, from: nat, to: nat) {
    to <= |pkt| && forall i :: from <= i < to ==> pkt[i] != 0
  }

  /** Shortening the rest shortens the name. */
  ghost predicate Reduced(done: seq<byte>, n: Name, kept: seq<byte>, rest: Name)
    requires |done| <= 0x4000
  {
    Shorten(done, n) == Prepend(kept, Shorten(done, rest))
  }

  /** The labels `kept` at the front of `n` have been passed, and `rest` is still to do. */
  ghost predicate Passed(pkt: seq<byte>, name: nat, n: Name, kept: seq<byte>, rest: Name) {
    && name <= |pkt| && name <= 0x4000 && |kept| + |rest| == |n|
    && Placed(pkt, name, kept, rest)
    && Reduced(pkt[..name], n, kept, rest)
    && NoZero(pkt, name, name + |kept|)
  }

  lemma PassedNone(pkt: seq<byte>, name: nat, n: Name)
    requires name <= 0x4000 && StandsAt(pkt, name, n)
    ensures Passed(pkt, name, n, [], n)
  {
    PrependNone(Shorten(pkt[..name], n));
  }

  lemma {:induction false} PlacedNext(pkt: seq<byte>, name: nat, kept: seq<byte>, rest: Name)
    requires Placed(pkt, name, kept, rest) && rest[0] != 0
    ensures Placed(pkt, name, kept + FirstLabel(rest), Rest(rest))
    ensures NoZero(pkt, name, name + |kept|) ==> NoZero(pkt, name, name + |kept + FirstLabel(rest)|)
  {
    LabelNonZero(pkt, name + |kept|, rest);
    StandsEnd(pkt, name + |kept|, rest);
    hide Labels;
    hide StandsAt;
    StandsLabels(pkt, name + |kept|, rest, Rest(rest));
    StandsJoin(pkt, name, kept, FirstLabel(rest));
  }

  lemma StandsEnd(pkt: seq<byte>, pos: nat, s: seq<byte>)
    requires StandsAt(pkt, pos, s)
    ensures pos + |s| <= |pkt|
  {}

  lemma {:induction false} PassedNext(pkt: seq<byte>, name: nat, n: Name, kept: seq<byte>, rest: Name)
    requires Passed(pkt, name, n, kept, rest) && rest[0] != 0 && Find(pkt[..name], rest, HEADER) < 0
    ensures Passed(pkt, name, n, kept + FirstLabel(rest), Rest(rest))
  {
    hide Find;
    hide Shorten;
    hide Labels;
    hide StandsAt;
    PrependNext(pkt[..name], kept, rest);
    PlacedNext(pkt, name, kept, rest);
    hide Placed;
    hide NoZero;
  }

  lemma PassedByte(pkt: seq<byte>, name: nat, n: Name, kept: seq<byte>, rest: Name)
    requires Passed(pkt, name, n, kept, rest)
    ensures name + |kept| < |pkt| && |rest| > 0 && pkt[name + |kept|] == rest[0]
  {
    NonEmpty(rest);
    StandsByte(pkt, name + |kept|, rest, 0);
  }

  /** Goes from label to label until the rest of the name is found earlier in the packet;
      -1 when only the root is left. */
  method FindSuffix(pkt: array<byte>, name: nat, ghost n: Name)
      returns (lbl: nat, ptr: int, ghost kept: seq<byte>, ghost rest: Name)
    requires HEADER <= name <= 0x4000 && StandsAt(pkt[..], name, n)
    ensures lbl == name + |kept| && Passed(pkt[..], name, n, kept, rest)
    ensures if ptr < 0 then rest[0] == 0 else rest[0] != 0 && ptr == Find(pkt[..][..name], rest, HEADER)
  {
    hide Labels;
    hide Shorten;
    hide Find;
    hide Prepend;
    PassedNone(pkt[..], name, n);
    kept, rest, lbl := [], n, name;
    PassedByte(pkt[..], name, n, kept, rest);
    while pkt[lbl] != 0
      invariant lbl == name + |kept| < pkt.Length && Passed(pkt[..], name, n, kept, rest)
      invariant |rest| > 0 && rest[0] == pkt[lbl]
      decreases |rest|
    {
      ptr := FindPtr(pkt, lbl, name, rest);
      assert pkt[..][..name] == pkt[..name];
      if ptr >= 0 {
        return;
      }
      hide Passed;
      PassedNext(pkt[..], name, n, kept, rest);
      lbl := lbl + pkt[lbl] as int + 1;
      kept, rest := kept + FirstLabel(rest), Rest(rest);
      PassedByte(pkt[..], name, n, kept, rest);
    }
    ptr := -1;
  }

  /** Compresses the name at `name`. A failure means the search came to the root, where the
      original reads and writes outside the name. */
  method CompressName(pkt: array<byte>, len: nat, name: nat, ghost n: Name) returns (newLen: nat, ok: bool)
    requires HEADER <= name && name + |n| <= len <= pkt.Length && name <= 0x4000
    requires StandsAt(pkt[..], name, n)
    modifies pkt
    ensures ok <==> Shorten(old(pkt[..name]), n).Some?
    ensures ok ==>
              && newLen <= len
              && pkt[..newLen] == old(pkt[..name]) + Shorten(old(pkt[..name]), n).value + old(pkt[name + |n|..len])
  {
    hide Shorten;
    hide Labels;
    hide Find;
    ghost var done := pkt[..name];
    var lbl, ptr, kept, rest := FindSuffix(pkt, name, n);
    assert pkt[..][..name] == done;
    if ptr < 0 {
      RootFails(done, rest);
      return len, false;
    }
    FoundForm(done, rest);
    NotRoot(rest);
    var size := StrLen(pkt, lbl, rest);
    assert pkt[..lbl] == done + kept;
    newLen := PutPointer(pkt, lbl, size + 1, ptr, len);
    assert done + kept + PointerBytes(ptr) == done + (kept + PointerBytes(ptr));
    ok := true;
  }

  lemma NonEmpty(n: Name)
    ensures |n| >= 1
  {}

  lemma PrependNone(o: Option<seq<byte>>)
    ensures Prepend([], o) == o
  {
    if o.Some? { assert [] + o.value == o.value; }
  }

  lemma RootFails(done: seq<byte>, n: Name)
    requires |done| <= 0x4000 && n[0] == 0
    ensures Shorten(done, n) == None
  {}

  lemma LabelNonZero(pkt: seq<byte>, pos: nat, n: Name)
    requires StandsAt(pkt, pos, n) && n[0] != 0
    ensures forall i :: pos <= i < pos + |FirstLabel(n)| ==> pkt[i] != 0
  {
    forall i | pos <= i < pos + |FirstLabel(n)|
      ensures pkt[i] != 0
    {
      StandsByte(pkt, pos, n, i - pos);
    }
  }

  lemma StandsJoin(pkt: seq<byte>, pos: nat, a: seq<byte>, b: seq<byte>)
    requires StandsAt(pkt, pos, a) && StandsAt(pkt, pos + |a|, b)
    ensures StandsAt(pkt, pos, a + b)
  {
    assert pkt[pos..pos + |a + b|] == pkt[pos..pos + |a|] + pkt[pos + |a|..pos + |a| + |b|];
  }

  // ---------- the whole packet ----------

  /** The length of a name in the packet as if its pointer's second byte were the final zero
      byte: one less than the bytes it takes, unless counting stops at 255; none when the
      count runs out of the packet. */
  function CompLen(pkt: seq<byte>, name: nat, at: nat): Option<nat>
    requires name <= at
    decreases |pkt| - at
  {
    if at >= |pkt| then None
    else if pkt[at] == 0 then Some(at - name)
    else if at - name >= 255 || pkt[at] >= 64 then Some(at - name + 1)
    else CompLen(pkt, name, at + 1 + pkt[at])
  }

  /** A label starts 255 bytes or more behind the name. */
  predicate LateLabel(pkt: seq<byte>, name: nat, at: nat)
    requires name <= at
    decreases |pkt| - at
  {
    at < |pkt| && 0 < pkt[at] < 64 && (at - name >= 255 || LateLabel(pkt, name, at + 1 + pkt[at]))
  }

  /** The count is right if and only if no label starts that late, and too small otherwise. */
  lemma {:induction false} CompLenIff(pkt: seq<byte>, name: nat, at: nat, after: nat)
    requires name <= at && SkipName(pkt, at) == Some(after)
    ensures CompLen(pkt, name, at).Some? && CompLen(pkt, name, at).value <= after - name - 1
    ensures CompLen(pkt, name, at) == Some(after - name - 1) <==> !LateLabel(pkt, name, at)
    decreases |pkt| - at
  {
    SkipProgress(pkt, at, after);
    if 0 < pkt[at] < 64 {
      SkipAhead(pkt, at, after);
      if at - name < 255 { CompLenIff(pkt, name, at + 1 + pkt[at], after); }
    }
  }

  lemma {:induction false} NotLate(pkt: seq<byte>, name: nat, at: nat, after: nat)
    requires name <= at && SkipName(pkt, at) == Some(after) && after <= name + 255
    ensures !LateLabel(pkt, name, at)
    decreases |pkt| - at
  {
    SkipProgress(pkt, at, after);
    if 0 < pkt[at] < 64 {
      SkipAhead(pkt, at, after);
      NotLate(pkt, name, at + 1 + pkt[at], after);
    }
  }

  method NameLenComp(pkt: array<byte>, len: nat, name: nat) returns (n: Option<nat>)
    requires len <= pkt.Length
    ensures n == CompLen(pkt[..len], name, name)
  {
    var at := name;
    while at < len && pkt[at] != 0 && at - name < 255
      invariant name <= at && CompLen(pkt[..len], name, at) == CompLen(pkt[..len], name, name)
      decreases len - at
    {
      if pkt[at] >= 64 {
        break;
      }
      at := at + pkt[at] as int + 1;
    }
    if at >= len { return None; }
    n := Some(at - name);
    if pkt[at] != 0 {
      n := Some(at - name + 1);
    }
  }

  lemma SkipAhead(pkt: seq<byte>, at: nat, after: nat)
    requires at < |pkt| && 0 < pkt[at] < 64 && SkipName(pkt, at) == Some(after)
    ensures var next := at + 1 + pkt[at]; next < |pkt| && next < after && SkipName(pkt, next) == Some(after)
  {
    SkipProgress(pkt, at + 1 + pkt[at], after);
  }

  lemma SkipProgress(pkt: seq<byte>, at: nat, after: nat)
    requires SkipName(pkt, at) == Some(after)
    ensures at < |pkt| && at < after
    decreases |pkt| - at
  {
    if pkt[at] != 0 && pkt[at] < 64 {
      SkipProgress(pkt, at + 1 + pkt[at], after);
    }
  }

  /** What one round of the packet loops leaves in place of a name. */
  function NewName(done: seq<byte>, n: Name, first: bool): Option<seq<byte>>
    requires |done| <= 0x4000
  {
    if first then Some(n) else Shorten(done, n)
  }

  lemma NewNameReads(done: seq<byte>, n: Name, first: bool, more: seq<byte>)
    requires |done| <= 0x4000 && NewName(done, n, first).Some? && |n| <= MAX_NAME
    ensures var c := NewName(done, n, first).value;
            |c| <= |n| && SkipName(done + c + more, |done|) == Some(|done| + |c|)
  {
    var c := NewName(done, n, first).value;
    var pkt := done + c + more;
    assert StandsAt(pkt, 0, done) && StandsAt(pkt, |done|, c);
    hide StandsAt;
    hide Decode;
    hide SkipName;
    hide Shorten;
    if first {
      ReadsPlain(pkt, |done|, n, ROUNDS);
    } else {
      ShortenReads(done, n, pkt, |done|, ROUNDS);
      ShortenShorter(done, n);
    }
  }

  lemma InPlace(pkt: seq<byte>, len: nat, done: seq<byte>, n: seq<byte>, more: seq<byte>)
    requires len <= |pkt| && pkt[..len] == done + n + more
    ensures pkt[..|done|] == done && StandsAt(pkt, |done|, n) && pkt[|done| + |n|..len] == more
  {
    var at := |done|;
    assert pkt[..at] == pkt[..len][..at];
    assert pkt[at..at + |n|] == pkt[..len][at..at + |n|];
    assert pkt[at + |n|..len] == pkt[..len][at + |n|..];
  }

  lemma NewNameCounts(done: seq<byte>, n: Name, first: bool, more: seq<byte>)
    requires |done| <= 0x4000 && NewName(done, n, first).Some? && |n| <= MAX_NAME
    ensures var c := NewName(done, n, first).value;
            |c| > 0 && CompLen(done + c + more, |done|, |done|) == Some(|c| - 1)
  {
    hide CompLen;
    hide SkipName;
    NewNameReads(done, n, first, more);
    var c := NewName(done, n, first).value;
    var pkt, at := done + c + more, |done|;
    SkipProgress(pkt, at, at + |c|);
    CompLenIff(pkt, at, at, at + |c|);
    NotLate(pkt, at, at, at + |c|);
  }

  /** Compresses the name at `at` unless it is the very first one, and finds its end. */
  method NextName(pkt: array<byte>, len: nat, at: nat, first: bool,
                  ghost done: seq<byte>, ghost n: Name, ghost more: seq<byte>)
      returns (newLen: nat, after: nat, ok: bool)
    requires HEADER <= at == |done| && len <= pkt.Length && len <= 0x4000 && |n| <= MAX_NAME
    requires pkt[..len] == done + n + more
    modifies pkt
    ensures ok <==> NewName(done, n, first).Some?
    ensures ok ==>
              var c := NewName(done, n, first).value;
              newLen <= len && after == at + |c| && pkt[..newLen] == done + c + more
  {
    hide Labels;
    hide Shorten;
    hide SkipName;
    hide CompLen;
    InPlace(pkt[..], len, done, n, more);
    assert pkt[..][..at] == pkt[..at] && pkt[..][..len] == pkt[..len] && pkt[..][at + |n|..len] == pkt[at + |n|..len];
    hide StandsAt;
    newLen, ok := len, true;
    if !first {
      newLen, ok := CompressName(pkt, len, at, n);
      if !ok {
        return newLen, at, false;
      }
    }
    NewNameCounts(done, n, first, more);
    var l := NameLenComp(pkt, newLen, at);
    after := at + l.value + 1;
  }

  /** Where the loops stand before item k. */
  ghost predicate Reached(header: seq<byte>, items: seq<Item>, k: nat, done: seq<byte>, pkt: seq<byte>) {
    && k <= |items| && |header| == HEADER && |header| + |Encode(items)| <= 0x4000
    && |done| >= HEADER && pkt == done + Encode(items[k..]) && |pkt| <= 0x4000
    && (if k == 0 then done == header
        else CompressPacket(header, items) == CompressRest(done, items[k..]))
  }

  lemma ReachedStart(header: seq<byte>, items: seq<Item>)
    requires |header| == HEADER && |header + Encode(items)| <= 0x4000
    ensures Reached(header, items, 0, header, header + Encode(items))
  {
    assert items[0..] == items;
  }

  lemma ReachedNext(header: seq<byte>, items: seq<Item>, k: nat, done: seq<byte>, pkt: seq<byte>)
    requires Reached(header, items, k, done, pkt) && k < |items|
    requires |done| <= 0x4000
    ensures var o := NewName(done, items[k].name, k == 0);
            if o.None? then CompressPacket(header, items) == None
            else
              var next := done + o.value + items[k].tail;
              |next + Encode(items[k + 1..])| <= 0x4000 ==>
                Reached(header, items, k + 1, next, next + Encode(items[k + 1..]))
  {
    hide Shorten;
    hide WellFormed;
    assert items[k..][1..] == items[k + 1..];
    if k == 0 {
      assert items[0..] == items;
    }
  }

  lemma ReachedEnd(header: seq<byte>, items: seq<Item>, done: seq<byte>, pkt: seq<byte>)
    requires Reached(header, items, |items|, done, pkt)
    ensures CompressPacket(header, items) == Some(pkt)
  {
    assert Encode(items[|items|..]) == [];
    assert done + [] == done;
  }

  lemma ReachedItem(header: seq<byte>, items: seq<Item>, k: nat, done: seq<byte>, pkt: seq<byte>)
    requires Reached(header, items, k, done, pkt) && k < |items|
    ensures HEADER <= |done| <= 0x4000 && |pkt| <= 0x4000
    ensures pkt == done + items[k].name + (items[k].tail + Encode(items[k + 1..]))
  {
    hide WellFormed;
    assert items[k..][1..] == items[k + 1..];
    var e := items[k];
    assert done + (e.name + e.tail + Encode(items[k + 1..])) == done + e.name + (e.tail + Encode(items[k + 1..]));
  }

  /** One question or record: the name, then over its fixed part and its data. */
  method HandleItem(pkt: array<byte>, len: nat, at: nat, k: nat, kind: Kind,
                    ghost header: seq<byte>, ghost items: seq<Item>, ghost done: seq<byte>)
      returns (newLen: nat, next: nat, ok: bool, ghost done': seq<byte>)
    requires len <= pkt.Length && at == |done|
    requires k < |items| && items[k].kind == kind && Reached(header, items, k, done, pkt[..len])
    modifies pkt
    ensures |header| == HEADER && |header| + |Encode(items)| <= 0x4000
    ensures if ok then newLen <= len && next == |done'| && Reached(header, items, k + 1, done', pkt[..newLen])
            else CompressPacket(header, items) == None
  {
    assert |header| == HEADER && |header| + |Encode(items)| <= 0x4000;
    ReachedItem(header, items, k, done, pkt[..len]);
    ReachedNext(header, items, k, done, pkt[..len]);
    hide Reached;
    hide Shorten;
    hide Encode;
    hide CompressPacket;
    hide WellFormed;
    ghost var e, more := items[k], items[k].tail + Encode(items[k + 1..]);
    NameOf(e);
    var after;
    newLen, after, ok := NextName(pkt, len, at, k == 0, done, e.name, more);
    done' := done;
    next := after;
    if !ok {
      return;
    }
    ghost var c := NewName(done, e.name, k == 0).value;
    done' := done + c + e.tail;
    Regroup(done + c, e.tail, Encode(items[k + 1..]));
    next := SkipTail(pkt, newLen, after, kind, e);
  }

  lemma Regroup(a: seq<byte>, tail: seq<byte>, rest: seq<byte>)
    ensures a + (tail + rest) == a + tail + rest
    ensures StandsAt(a + (tail + rest), |a|, tail)
  {}

  method SkipTail(pkt: array<byte>, len: nat, after: nat, kind: Kind, ghost e: Item) returns (next: nat)
    requires len <= pkt.Length && e.kind == kind && StandsAt(pkt[..len], after, e.tail)
    ensures next == after + |e.tail|
  {
    TailStands(pkt[..len], after, e);
    match kind
    case Question => next := after + 4;
    case Record => next := after + 10 + DataLength(pkt[after + 8], pkt[after + 9]);
  }

  /** Goes over questions and then records. The items are what the packet holds on entry;
      on success the buffer holds the specified compressed packet. */
  method CompressInPlace(pkt: array<byte>, len: nat, qdcount: nat, rcount: nat,
                         ghost header: seq<byte>, ghost items: seq<Item>)
      returns (newLen: nat, ok: bool)
    requires len <= pkt.Length && len <= 0x4000 && |header| == HEADER
    requires pkt[..len] == header + Encode(items) && |items| == qdcount + rcount
    requires forall i :: 0 <= i < |items| ==> items[i].kind == if i < qdcount then Question else Record
    modifies pkt
    ensures ok <==> CompressPacket(header, items).Some?
    ensures ok ==> newLen <= len && pkt[..newLen] == CompressPacket(header, items).value
  {
    hide Reached;
    hide Encode;
    hide CompressPacket;
    hide WellFormed;
    var position := HEADER;
    newLen := len;
    ghost var done := header;
    ReachedStart(header, items);
    for i := 0 to qdcount
      invariant |done| == position && newLen <= len
      invariant Reached(header, items, i, done, pkt[..newLen])
    {
      newLen, position, ok, done := HandleItem(pkt, newLen, position, i, Question, header, items, done);
      if !ok {
        return;
      }
    }
    for i := 0 to rcount
      invariant |done| == position && newLen <= len
      invariant Reached(header, items, qdcount + i, done, pkt[..newLen])
    {
      newLen, position, ok, done := HandleItem(pkt, newLen, position, qdcount + i, Record, header, items, done);
      if !ok {
        return;
      }
    }
    ReachedEnd(header, items, done, pkt[..newLen]);
    ok := true;
  }
}
