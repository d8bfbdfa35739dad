/** What the IPv6 text parser makes of every text: which it accepts and as what, which it
    refuses, and on which it writes past its buffer. */
module Ipv6Accept {
  import opened Bits
  import opened Ipv6Text

  // ---------- the shape of a text ----------

  predicate Plain(c: char) { IsHex(c) || c == ':' }

  /** Everything before the first character that is neither a hex digit nor a colon. */
  function Body(text: string): (b: string)
    ensures b <= text && (forall c <- b :: Plain(c)) && (|b| < |text| ==> !Plain(text[|b|]))
  {
    if text == [] || !Plain(text[0]) then [] else [text[0]] + Body(text[1..])
  }

  function Tail(text: string): (t: string)
    ensures text == Body(text) + t && (t != [] ==> !Plain(t[0]))
  {
    text[|Body(text)|..]
  }

  predicate HexText(s: string) { forall c <- s :: IsHex(c) }

  type Field = s: string | HexText(s) witness ""

  /** The stretches of digits between the colons of a body. */
  function Fields(b: string): (fs: seq<Field>)
    requires forall c <- b :: Plain(c)
    ensures |fs| > 0
  {
    if b == [] then [""]
    else
      var fs, c := Fields(b[..|b| - 1]), b[|b| - 1];
      assert c in b && Plain(c);
      if c == ':' then fs + [""]
      else
        assert HexText(fs[|fs| - 1]) && IsHex(c);
        var longer: Field := fs[|fs| - 1] + [c];
        fs[..|fs| - 1] + [longer]
  }

  lemma {:induction false} JoinLonger(init: seq<string>, last: string, c: char)
    ensures Join(init + [last] + [""]) == Join(init + [last]) + ":"
    ensures Join(init + [last + [c]]) == Join(init + [last]) + [c]
  {
    hide Join;
    hide Colons;
    JoinStep(init, last);
    JoinStep(init + [last], "");
    JoinStep(init, last + [c]);
    assert Colons(init) + (last + [c]) == Colons(init) + last + [c];
  }

  lemma {:induction false} FieldsLonger(b: string)
    requires b != [] && forall c <- b :: Plain(c)
    ensures var fs, c := Fields(b[..|b| - 1]), b[|b| - 1];
            var init, last := fs[..|fs| - 1], fs[|fs| - 1];
            && fs == init + [last]
            && Fields(b) == if c == ':' then init + [last] + [""] else init + [last + [c]]
  {}

  lemma {:induction false} JoinFields(b: string)
    requires b != [] && forall c <- b :: Plain(c)
    ensures Join(Fields(b)) == Join(Fields(b[..|b| - 1])) + [b[|b| - 1]]
  {
    hide Join;
    hide HexText;
    hide Plain;
    FieldsLonger(b);
    var fs := Fields(b[..|b| - 1]);
    hide Fields;
    JoinLonger(fs[..|fs| - 1], fs[|fs| - 1], b[|b| - 1]);
  }

  lemma NoFields()
    ensures Join(Fields("")) == ""
  {
    JoinStep([], "");
  }

  lemma {:induction false} FieldsSpell(b: string)
    requires forall c <- b :: Plain(c)
    ensures Join(Fields(b)) == b
  {
    hide Plain;
    hide HexText;
    hide Join;
    hide Fields;
    if b == [] {
      NoFields();
    } else {
      JoinFields(b);
      FieldsSpell(b[..|b| - 1]);
    }
  }

  /** One more digit or colon behind fields that come apart. */
  lemma {:induction false} FieldsSnoc(fs: seq<Field>, rest: string, c: char)
    requires (forall x <- rest :: Plain(x)) && Plain(c) && |fs| > 0 && Fields(rest) == fs
    ensures forall x <- rest + [c] :: Plain(x)
    ensures Fields(rest + [c]) == if c == ':' then fs + [""] else fs[..|fs| - 1] + [fs[|fs| - 1] + [c]]
  {
    assert (rest + [c])[..|rest|] == rest;
    FieldsLonger(rest + [c]);
  }

  /** Fields that are put together come apart again. */
  lemma {:induction false} FieldsJoin(fs: seq<Field>)
    requires |fs| > 0
    ensures (forall c <- Join(fs) :: Plain(c)) && Fields(Join(fs)) == fs
    decreases |Join(fs)|
  {
    var init, last := fs[..|fs| - 1], fs[|fs| - 1];
    assert fs == init + [last];
    if last != [] {
      var shorter, c := FieldWithout(last), last[|last| - 1];
      var less := init + [shorter];
      assert less[..|init|] == init;
      JoinLonger(init, shorter, c);
      hide HexText;
      hide Fields;
      hide Join;
      FieldsJoin(less);
      FieldsSnoc(less, Join(less), c);
    } else if init != [] {
      var first, x := init[..|init| - 1], init[|init| - 1];
      assert init == first + [x];
      JoinLonger(first, x, ':');
      hide HexText;
      hide Fields;
      hide Join;
      FieldsJoin(init);
      FieldsSnoc(init, Join(init), ':');
    } else {
      assert Join(fs) == "";
    }
  }

  function FieldWithout(f: Field): (g: Field)
    requires f != []
    ensures f == g + [f[|f| - 1]] && IsHex(f[|f| - 1]) && f[|f| - 1] != ':'
  {
    assert HexText(f[..|f| - 1]);
    f[..|f| - 1]
  }

  lemma {:induction false} BodyOf(b: string, tail: string)
    requires (forall c <- b :: Plain(c)) && (tail != [] ==> !Plain(tail[0]))
    ensures Body(b + tail) == b && Tail(b + tail) == tail
  {
    hide Plain;
    if b == [] {
      assert b + tail == tail;
    } else {
      assert (b + tail)[1..] == b[1..] + tail && b[0] in b;
      BodyOf(b[1..], tail);
    }
  }

  // ---------- what decides ----------

  /** The bytes of the non-empty fields. */
  function Stored(fs: seq<Field>): (b: seq<byte>)
    ensures |b| % 2 == 0
  {
    if fs == [] then []
    else Stored(fs[..|fs| - 1]) + (if fs[|fs| - 1] == [] then [] else Pair(fs[|fs| - 1]))
  }

  /** Where the last empty field stands, in bytes; zero also for none. */
  function Mark(fs: seq<Field>): (m: nat)
    ensures m <= |Stored(fs)|
  {
    if fs == [] then 0
    else if fs[|fs| - 1] == [] then |Stored(fs[..|fs| - 1])|
    else Mark(fs[..|fs| - 1])
  }

  /** Every digit of a field that starts at byte `at` lands in the buffer. */
  predicate HasRoom(at: nat, digits: nat) { digits == 0 || at + (digits - 1) / 2 < 16 }

  predicate Room(fs: seq<Field>, i: nat)
    requires i < |fs|
  {
    HasRoom(|Stored(fs[..i])|, |fs[i]|)
  }

  /** Colons read when the field ends: its own included, if it is not the last. */
  function ColonsAt(fs: seq<Field>, i: nat): nat { if i + 1 < |fs| then i + 1 else i }

  /** At most four digits, room for them, and no second double colon, except that one mark may
      be made again while only two colons have been read. */
  predicate Sound(fs: seq<Field>, i: nat)
    requires i < |fs|
  {
    && |fs[i]| <= 4 && Room(fs, i)
    && (fs[i] == [] ==> Mark(fs[..i]) == 0 || ColonsAt(fs, i) == 2)
  }

  predicate AllSound(fs: seq<Field>, n: nat)
    requires n <= |fs|
  {
    forall i :: 0 <= i < n ==> Sound(fs, i)
  }

  /** The fields that are closed: all, but for an empty one behind a final colon. */
  function Closed(fs: seq<Field>, tail: string): (n: nat)
    requires |fs| > 0
    ensures |fs| - 1 <= n <= |fs|
  {
    if tail == [] && fs[|fs| - 1] == [] then |fs| - 1 else |fs|
  }

  /** Some digit lands past the buffer before anything else stops the parser. */
  predicate Overruns(fs: seq<Field>) {
    exists i :: 0 <= i < |fs| && AllSound(fs, i) && !Room(fs, i)
  }

  /** At most one further character, two colons, and every closed field sound. */
  predicate Accepted(fs: seq<Field>, tail: string)
    requires |fs| > 0
  {
    |tail| <= 1 && |fs| > 2 && AllSound(fs, Closed(fs, tail))
  }

  /** The stored bytes with zeros where the mark is. */
  function Spread(fs: seq<Field>): seq<byte> {
    var b := Stored(fs);
    b[..Mark(fs)] + Zeros(if |b| <= 16 then 16 - |b| else 0) + b[Mark(fs)..]
  }

  // ---------- one field ----------

  /** The digits of a field and its end. */
  function EndField(p: Parser, f: string, colon: bool): Parser
    requires p.Going?
  {
    var q := Digits(p, f);
    if q.Going? then EndGroup(q, colon) else q
  }

  lemma {:induction false} DigitsCount(p: Parser, f: string)
    requires p.Going? && Even(p.nibble)
    ensures var q := Digits(p, f);
            if HasRoom(p.byte, |f|)
            then q.Going? && q.byte == p.byte + |f| / 2 && q.nibble == p.nibble + |f|
                 && q.hex == p.hex && q.colons == p.colons && q.dcolon == p.dcolon
            else q == Overrun
  {
    if f != [] {
      var h := f[..|f| - 1];
      DigitsCount(p, h);
      var q := Digits(p, h);
      assert Digits(p, f) == if q.Going? then Digit(q, HexValue(f[|f| - 1])) else q;
      hide Digits;
      hide HexValue;
      hide Shift;
      Halves(p.nibble, |f|);
      hide Even;
    }
  }

  lemma Halves(nibble: nat, n: nat)
    requires n > 0 && Even(nibble)
    ensures Even(nibble + (n - 1) + 1) <==> n / 2 == (n - 1) / 2 + 1
    ensures !Even(nibble + (n - 1) + 1) <==> n / 2 == (n - 1) / 2
    ensures n > 1 ==> (n - 2) / 2 <= (n - 1) / 2
  {}

  lemma {:induction false} EndEmpty(out: seq<byte>, hex: nat, colons: nat, dcolon: nat, colon: bool)
    requires |out| <= 16
    ensures var read := if colon then colons + 1 else colons;
            EndField(Between(out, hex, colons, dcolon), "", colon)
            == if dcolon != 0 && read != 2 then Rejected else Between(out, hex + 1, read, |out|)
  {
    hide Zeros;
  }

  /** A field too long for the buffer or for a group. */
  lemma {:induction false} EndLong(out: seq<byte>, hex: nat, colons: nat, dcolon: nat, f: Field, colon: bool)
    requires |out| <= 16 && (|f| > 4 || !HasRoom(|out|, |f|))
    ensures EndField(Between(out, hex, colons, dcolon), f, colon)
         == if HasRoom(|out|, |f|) then Rejected else Overrun
  {
    hide EndField;
    hide HexText;
    hide HasRoom;
    EndTooLong(Between(out, hex, colons, dcolon), f, colon);
  }

  lemma {:induction false} EndTooLong(p: Parser, f: Field, colon: bool)
    requires p.Going? && p.nibble == 4 * p.hex && (|f| > 4 || !HasRoom(p.byte, |f|))
    ensures EndField(p, f, colon) == if HasRoom(p.byte, |f|) then Rejected else Overrun
  {
    hide Digits;
    hide HexText;
    hide HasRoom;
    hide Even;
    hide EndGroup;
    FourEven(p.hex);
    DigitsCount(p, f);
    var q := Digits(p, f);
    if q.Going? { EndsBeyond(q, colon); }
  }

  lemma TwiceEven(n: nat, half: nat)
    requires n == half + half
    ensures Even(n)
  {}

  lemma FourEven(n: nat)
    ensures Even(4 * n)
  {
    hide Even;
    TwiceEven(4 * n, n + n);
  }

  lemma EndsBeyond(p: Parser, colon: bool)
    requires p.Going? && p.nibble > 4 * (p.hex + 1)
    ensures EndGroup(p, colon) == Rejected
  {
    hide Shift;
    hide Or;
    hide Low;
  }

  /** How a field ends, by its length, the bytes before it, the mark and the colons. */
  lemma {:induction false} EndFieldForm(out: seq<byte>, hex: nat, colons: nat, dcolon: nat, f: Field, colon: bool)
    requires |out| <= 16 && |out| % 2 == 0
    ensures var read := if colon then colons + 1 else colons;
            EndField(Between(out, hex, colons, dcolon), f, colon)
            == if !HasRoom(|out|, |f|) then Overrun
               else if |f| > 4 || (f == [] && dcolon != 0 && read != 2) then Rejected
               else if f == [] then Between(out, hex + 1, read, |out|)
               else Between(out + Pair(f), hex + 1, read, dcolon)
  {
    hide Digits;
    hide EndGroup;
    hide Pair;
    hide Between;
    if f == [] {
      EndEmpty(out, hex, colons, dcolon, colon);
    } else if |f| > 4 || !HasRoom(|out|, |f|) {
      EndLong(out, hex, colons, dcolon, f, colon);
    } else {
      GroupStores(out, hex, colons, dcolon, f, colon);
    }
  }

  lemma {:induction false} FeedClosed(p: Parser, f: Field, more: bool)
    requires p.Going?
    ensures FeedAll(p, f + ":", more) == EndField(p, f, true)
  {
    FeedDigits(p, f);
    FeedAppend(p, f, ":", more);
    FeedOne(Digits(p, f), ':', more);
    assert !IsHex(':');
    hide FeedAll;
    hide Digits;
    hide EndGroup;
  }

  /** The last field: closed by its own last digit or by one other character; two or more
      other characters are refused. */
  lemma {:induction false} FeedLast(p: Parser, f: Field, tail: string)
    requires p.Going? && (f != [] || tail != []) && (tail != [] ==> !Plain(tail[0]))
    ensures FeedAll(p, f + tail, false)
         == if |tail| <= 1 then EndField(p, f, false)
            else if Digits(p, f).Going? then Rejected else Digits(p, f)
  {
    hide EndGroup;
    hide Digit;
    if tail == [] {
      assert f + tail == f;
      var h, c := f[..|f| - 1], f[|f| - 1];
      assert f == h + [c] && IsHex(c) && c != ':';
      FeedDigits(p, h);
      FeedAppend(p, h, [c], false);
      FeedOne(Digits(p, h), c, false);
      hide FeedAll;
    } else {
      var c, rest := tail[0], tail[1..];
      FeedDigits(p, f);
      FeedAppend(p, f, tail, false);
      hide Digits;
      var q := Digits(p, f);
      assert FeedAll(q, tail, false) == FeedAll(Feed(q, c, |tail| == 1), rest, false);
      if |tail| == 1 {
        assert rest == [];
      } else {
        FeedStopped(Feed(q, c, false), rest, false);
      }
    }
  }

  // ---------- whole texts ----------

  lemma StoredNext(fs: seq<Field>, i: nat)
    requires i < |fs|
    ensures Stored(fs[..i + 1]) == if fs[i] == [] then Stored(fs[..i]) else Stored(fs[..i]) + Pair(fs[i])
    ensures Mark(fs[..i + 1]) == if fs[i] == [] then |Stored(fs[..i])| else Mark(fs[..i])
  {
    hide Pair;
    assert fs[..i + 1][..i] == fs[..i] && fs[..i + 1][i] == fs[i];
    assert Stored(fs[..i]) + [] == Stored(fs[..i]);
  }

  lemma ColonsNext(fs: seq<Field>, i: nat)
    requires i < |fs|
    ensures Colons(fs[..i + 1]) == Colons(fs[..i]) + (fs[i] + ":")
  {
    assert fs[..i + 1][..i] == fs[..i] && fs[..i + 1][i] == fs[i];
  }

  function Start(): (p: Parser)
    ensures p.Going?
  {
    Between([], 0, 0, 0)
  }

  /** The parser when `colons` of the first i fields have been read. */
  function Reaching(fs: seq<Field>, i: nat, colons: nat): (p: Parser)
    requires i <= |fs| && |Stored(fs[..i])| <= 16
    ensures p.Going?
  {
    Between(Stored(fs[..i]), i, colons, Mark(fs[..i]))
  }

  /** From field i, sound or not. */
  lemma {:induction false} FieldStep(fs: seq<Field>, i: nat, colon: bool)
    requires i < |fs| && |Stored(fs[..i])| <= 16 && colon == (i + 1 < |fs|)
    ensures var q := EndField(Reaching(fs, i, i), fs[i], colon);
            if Sound(fs, i) then |Stored(fs[..i + 1])| <= 16 && q == Reaching(fs, i + 1, ColonsAt(fs, i))
            else q == if Room(fs, i) then Rejected else Overrun
  {
    hide Stored;
    hide Mark;
    hide EndField;
    hide Between;
    hide Colons;
    hide Pair;
    EndFieldForm(Stored(fs[..i]), i, i, Mark(fs[..i]), fs[i], colon);
    StoredNext(fs, i);
    PairSize(fs[i]);
    assert Stored(fs[..i]) + [] == Stored(fs[..i]);
  }

  lemma PairSize(f: string)
    ensures |Pair(f)| == 2
  {}

  /** Sound fields bring the parser to the next one. */
  lemma {:induction false} FeedSound(fs: seq<Field>, i: nat, more: bool)
    requires i < |fs| && AllSound(fs, i)
    ensures |Stored(fs[..i])| <= 16
    ensures FeedAll(Start(), Colons(fs[..i]), more) == Reaching(fs, i, i)
  {
    hide HexText;
    hide Sound;
    if i == 0 {
      assert fs[..0] == [];
    } else {
      hide Between;
      hide Mark;
      hide Stored;
      hide EndField;
      hide FeedAll;
      hide Colons;
      FeedSound(fs, i - 1, true);
      FieldStep(fs, i - 1, true);
      ColonsNext(fs, i - 1);
      FeedAppend(Start(), Colons(fs[..i - 1]), fs[i - 1] + ":", more);
      FeedClosed(Reaching(fs, i - 1, i - 1), fs[i - 1], more);
    }
  }

  /** An unsound field before the last stops the parser for good. */
  lemma {:induction false} FeedUnsound(fs: seq<Field>, i: nat, rest: string)
    requires i + 1 < |fs| && AllSound(fs, i) && !Sound(fs, i)
    ensures FeedAll(Start(), Colons(fs[..i + 1]) + rest, false) == if Room(fs, i) then Rejected else Overrun
  {
    FeedSound(fs, i, true);
    FieldStep(fs, i, true);
    ColonsNext(fs, i);
    hide Stored;
    hide Sound;
    hide Room;
    hide EndField;
    hide Colons;
    var more := rest != [];
    var head := Colons(fs[..i]);
    FeedAppend(Start(), head, fs[i] + ":", more);
    FeedClosed(Reaching(fs, i, i), fs[i], more);
    var stopped := EndField(Reaching(fs, i, i), fs[i], true);
    if more {
      FeedAppend(Start(), head + (fs[i] + ":"), rest, false);
      FeedStopped(stopped, rest, false);
    } else {
      assert head + (fs[i] + ":") + rest == head + (fs[i] + ":");
    }
  }

  lemma {:induction false} ColonsSplit(fs: seq<Field>, i: nat) returns (rest: string)
    requires i < |fs|
    ensures Colons(fs) == Colons(fs[..i + 1]) + rest
    decreases |fs| - i
  {
    if i + 1 == |fs| {
      assert fs[..i + 1] == fs;
      rest := "";
    } else {
      var init := fs[..|fs| - 1];
      rest := ColonsSplit(init, i);
      assert init[..i + 1] == fs[..i + 1];
      rest := rest + fs[|fs| - 1] + ":";
    }
  }

  lemma FirstUnsound(fs: seq<Field>, n: nat) returns (i: nat)
    requires n <= |fs| && !AllSound(fs, n)
    ensures i < n && AllSound(fs, i) && !Sound(fs, i)
  {
    hide Sound;
    i := 0;
    while Sound(fs, i)
      invariant i < n && AllSound(fs, i)
      decreases n - i
    {
      i := i + 1;
    }
  }

  lemma OverrunsAt(fs: seq<Field>, i: nat)
    requires i < |fs| && AllSound(fs, i) && !Sound(fs, i)
    ensures Overruns(fs) <==> !Room(fs, i)
  {
    if Room(fs, i) {
      forall j | 0 <= j < |fs| && AllSound(fs, j) ensures Room(fs, j) {
        if j < i { assert Sound(fs, j); }
      }
    }
  }

  /** The verdict on a text by its fields and what follows them. */
  function Verdict(fs: seq<Field>, tail: string): Outcome
    requires |fs| > 0
  {
    if Overruns(fs) then Overflowed
    else if !Accepted(fs, tail) then Refused
    else
      var b := Spread(fs[..Closed(fs, tail)]);
      if |b| == 16 then Address(b) else Refused
  }

  lemma {:induction false} SpreadForm(fs: seq<Field>, hex: nat, colons: nat)
    requires |Stored(fs)| <= 16
    ensures |Spread(fs)| == 16
    ensures Finish(Between(Stored(fs), hex, colons, Mark(fs))) == if colons < 2 then Refused else Address(Spread(fs))
  {
    if colons >= 2 { FinishForm(Stored(fs), hex, colons, Mark(fs)); }
  }

  lemma JoinLast(fs: seq<Field>, tail: string)
    requires |fs| > 0
    ensures var k := |fs| - 1;
            Join(fs) + tail == Colons(fs[..k]) + (fs[k] + tail)
  {}

  /** An empty last field behind the final colon is not closed. */
  lemma {:induction false} OpenLast(fs: seq<Field>)
    requires |fs| > 0 && AllSound(fs, |fs| - 1) && fs[|fs| - 1] == []
    ensures Finish(FeedAll(Start(), Join(fs), false)) == Verdict(fs, [])
  {
    var k := |fs| - 1;
    JoinLast(fs, []);
    FeedSound(fs, k, false);
    SpreadForm(fs[..k], k, k);
    EmptyHasRoom(fs, k);
    hide FeedAll;
    hide Finish;
    hide Spread;
    hide Sound;
    hide Colons;
    hide Join;
    hide Overruns;
    assert Join(fs) + [] == Join(fs) && Colons(fs[..k]) + (fs[k] + []) == Colons(fs[..k]);
  }

  /** What the last field and its followers make of the parser. */
  lemma {:induction false} FeedClosing(fs: seq<Field>, tail: string)
    requires |fs| > 0 && AllSound(fs, |fs| - 1) && (tail != [] ==> !Plain(tail[0]))
    requires tail != [] || fs[|fs| - 1] != []
    ensures var k, p := |fs| - 1, FeedAll(Start(), Join(fs) + tail, false);
            if !Room(fs, k) then p == Overrun
            else if |tail| > 1 || !Sound(fs, k) then p == Rejected
            else |Stored(fs)| <= 16 && p == Between(Stored(fs), k + 1, k, Mark(fs))
  {
    var k := |fs| - 1;
    FeedSound(fs, k, true);
    FieldStep(fs, k, false);
    LastRoom(fs);
    assert fs[..k + 1] == fs;
    JoinLast(fs, tail);
    assert Sound(fs, k) ==> Room(fs, k);
    hide FeedAll;
    hide Sound;
    hide Room;
    hide Stored;
    hide Between;
    hide Digits;
    hide EndField;
    hide Colons;
    hide Join;
    hide HexText;
    FeedLast(Reaching(fs, k, k), fs[k], tail);
    FeedAppend(Start(), Colons(fs[..k]), fs[k] + tail, false);
  }

  lemma VerdictClosed(fs: seq<Field>, tail: string)
    requires |fs| > 0 && AllSound(fs, |fs| - 1) && (tail != [] || fs[|fs| - 1] != [])
    ensures var k := |fs| - 1;
            && (Room(fs, k) ==> !Sound(fs, k) || |tail| > 1 || k < 2 ==> Verdict(fs, tail) == Refused)
            && (!Room(fs, k) ==> Verdict(fs, tail) == Overflowed && !Sound(fs, k))
            && (Sound(fs, k) && |tail| <= 1 && k >= 2 && |Spread(fs)| == 16 ==>
                  Verdict(fs, tail) == Address(Spread(fs)))
  {
    var k := |fs| - 1;
    if Sound(fs, k) { RoomOf(fs, k); }
    hide HexText;
    hide Sound;
    hide Room;
    hide Spread;
    assert fs[..|fs|] == fs;
    if Sound(fs, k) {
      assert AllSound(fs, |fs|);
      NoOverrun(fs);
    } else {
      OverrunsAt(fs, k);
    }
    hide Overruns;
  }

  /** A last field that is closed, or cut off by two or more other characters. */
  lemma {:induction false} ClosedLast(fs: seq<Field>, tail: string)
    requires |fs| > 0 && AllSound(fs, |fs| - 1) && (tail != [] ==> !Plain(tail[0]))
    requires tail != [] || fs[|fs| - 1] != []
    ensures Finish(FeedAll(Start(), Join(fs) + tail, false)) == Verdict(fs, tail)
  {
    hide HexText;
    hide FeedAll;
    hide Verdict;
    hide AllSound;
    hide Sound;
    hide Room;
    hide Spread;
    hide Between;
    hide Stored;
    hide Mark;
    hide Join;
    var k := |fs| - 1;
    FeedClosing(fs, tail);
    VerdictClosed(fs, tail);
    if Room(fs, k) && Sound(fs, k) && |tail| <= 1 {
      hide Finish;
      SpreadForm(fs, k + 1, k);
    }
  }

  lemma RoomOf(fs: seq<Field>, i: nat)
    requires i < |fs| && Sound(fs, i)
    ensures Room(fs, i)
  {}

  lemma NoOverrun(fs: seq<Field>)
    requires AllSound(fs, |fs|)
    ensures !Overruns(fs)
  {
    forall i | 0 <= i < |fs| ensures Room(fs, i) { assert Sound(fs, i); }
  }

  lemma EmptyHasRoom(fs: seq<Field>, k: nat)
    requires k + 1 == |fs| && fs[k] == [] && AllSound(fs, k)
    ensures !Overruns(fs)
  {
    forall i | 0 <= i < |fs| ensures Room(fs, i) { if i < k { assert Sound(fs, i); } }
  }

  /** The digits of the last field alone already run past the buffer, or never do. */
  lemma {:induction false} LastRoom(fs: seq<Field>)
    requires |fs| > 0 && |Stored(fs[..|fs| - 1])| <= 16
    ensures var k := |fs| - 1;
            var q := Digits(Reaching(fs, k, k), fs[k]);
            if Room(fs, k) then q.Going? else q == Overrun
  {
    var k := |fs| - 1;
    assert 4 * k == 2 * (2 * k);
    DigitsCount(Reaching(fs, k, k), fs[k]);
  }

  lemma {:induction false} UnsoundDecides(fs: seq<Field>, tail: string)
    requires |fs| > 0 && !AllSound(fs, |fs| - 1)
    ensures Finish(FeedAll(Start(), Join(fs) + tail, false)) == Verdict(fs, tail)
  {
    var k := |fs| - 1;
    hide HexText;
    hide FeedAll;
    hide Stored;
    hide Mark;
    var i := FirstUnsound(fs, k);
    OverrunsAt(fs, i);
    assert !AllSound(fs, Closed(fs, tail));
    hide AllSound;
    hide Closed;
    hide Sound;
    hide Room;
    hide Overruns;
    var rest := ColonsSplit(fs[..k], i);
    assert fs[..k][..i + 1] == fs[..i + 1];
    FeedUnsound(fs, i, rest + (fs[k] + tail));
    JoinLast(fs, tail);
    hide Colons;
    hide Join;
    assert Colons(fs[..i + 1]) + rest + (fs[k] + tail) == Colons(fs[..i + 1]) + (rest + (fs[k] + tail));
  }

  /** For every text: a write past the buffer, an address, or a refusal, exactly as the
      lengths of its fields, its colons and its last character say. */
  lemma {:induction false} ParseVerdict(text: string)
    ensures Parse(text) == Verdict(Fields(Body(text)), Tail(text))
  {
    var fs, tail := Fields(Body(text)), Tail(text);
    FieldsSpell(Body(text));
    assert Join(fs) + tail == text;
    hide Fields;
    hide Body;
    hide Join;
    hide FeedAll;
    hide Finish;
    hide AllSound;
    hide Verdict;
    if !AllSound(fs, |fs| - 1) {
      UnsoundDecides(fs, tail);
    } else if tail == [] && fs[|fs| - 1] == [] {
      OpenLast(fs);
      assert Join(fs) + tail == Join(fs);
    } else {
      ClosedLast(fs, tail);
    }
  }

  lemma RoomForGroup(at: nat, digits: nat)
    requires at % 2 == 0 && 1 <= digits <= 4 && HasRoom(at, digits)
    ensures at <= 14
  {}

  lemma SoundStores(fs: seq<Field>, i: nat)
    requires i < |fs| && Sound(fs, i) && |Stored(fs[..i])| <= 16
    ensures |Stored(fs[..i + 1])| <= 16
  {
    if fs[i] != [] { RoomForGroup(|Stored(fs[..i])|, |fs[i]|); }
    StoredNext(fs, i);
    PairSize(fs[i]);
    hide HexText;
    hide Pair;
    hide Mark;
    hide Stored;
    hide HasRoom;
  }

  lemma {:induction false} StoredBound(fs: seq<Field>, n: nat)
    requires n <= |fs| && AllSound(fs, n)
    ensures |Stored(fs[..n])| <= 16
  {
    hide HexText;
    hide Sound;
    if n > 0 {
      hide Stored;
      StoredBound(fs, n - 1);
      SoundStores(fs, n - 1);
    } else {
      assert fs[..0] == [];
    }
  }

  /** A text is accepted if and only if at most one other character stands at its end, it has
      two colons or more and every closed field is sound; the parser writes past its buffer
      if and only if some field lacks room and all fields before it are sound. */
  lemma ParseIff(text: string)
    ensures Parse(text).Address? <==> Accepted(Fields(Body(text)), Tail(text))
    ensures Parse(text).Overflowed? <==> Overruns(Fields(Body(text)))
  {
    var fs, tail := Fields(Body(text)), Tail(text);
    ParseVerdict(text);
    hide Parse;
    hide Fields;
    hide Body;
    if Accepted(fs, tail) {
      var n := Closed(fs, tail);
      StoredBound(fs, n);
      SpreadForm(fs[..n], 0, 2);
      if n == |fs| { NoOverrun(fs); } else { EmptyHasRoom(fs, n); }
    }
  }

  /** The verdict on fields put together, with or without something behind them. */
  lemma JoinVerdict(fs: seq<Field>, tail: string)
    requires |fs| > 0 && (tail != [] ==> !Plain(tail[0]))
    ensures Parse(Join(fs) + tail) == Verdict(fs, tail)
  {
    hide Join;
    hide Parse;
    hide Verdict;
    hide Fields;
    FieldsJoin(fs);
    BodyOf(Join(fs), tail);
    ParseVerdict(Join(fs) + tail);
  }

  // ---------- what follows for particular texts ----------

  lemma {:induction false} StoredGroups(fs: seq<Field>, i: nat)
    requires i <= |fs| && forall j :: 0 <= j < i ==> 1 <= |fs[j]| <= 4
    ensures |Stored(fs[..i])| == 2 * i && Mark(fs[..i]) == 0
  {
    hide Pair;
    hide HexText;
    if i > 0 {
      hide Stored;
      hide Mark;
      StoredGroups(fs, i - 1);
      StoredNext(fs, i - 1);
      PairSize(fs[i - 1]);
    } else {
      assert fs[..0] == [];
    }
  }

  /** Any list of groups with colons between them: fewer than three are refused, three to
      eight are accepted as the end of an address, and the ninth runs past the buffer. */
  lemma {:induction false} GroupsVerdict(gs: seq<Group>)
    ensures Parse(Join(gs)) == if |gs| <= 2 then Refused
                               else if |gs| <= 8 then Address(Zeros(16 - 2 * |gs|) + Pairs(gs))
                               else Overflowed
  {
    if gs == [] {
      hide Parse;
      assert Join([""]) == "" by { JoinStep([], ""); }
      var none: seq<Field> := [""];
      JoinVerdict(none, []);
      assert Join(none) + [] == Join(gs);
    } else if 3 <= |gs| <= 8 {
      ParsesGroups(gs);
    } else {
      assert forall g <- gs :: HexText(g) && 1 <= |g| <= 4;
      var fs: seq<Field> := gs;
      hide Parse;
      hide HexGroup;
      hide HexText;
      hide Join;
      JoinVerdict(fs, []);
      assert Join(fs) + [] == Join(gs);
      forall i | 0 <= i < |fs| && i < 8 ensures Sound(fs, i) { StoredGroups(fs, i); }
      if |gs| > 8 {
        StoredGroups(fs, 8);
        assert AllSound(fs, 8) && !Room(fs, 8);
      } else {
        assert AllSound(fs, |fs|);
        NoOverrun(fs);
      }
    }
  }

  /** Whatever single other character stands behind a last digit is ignored. */
  lemma LastCharacterIgnored(text: string, c: char)
    requires text != [] && (forall x <- text :: Plain(x)) && IsHex(text[|text| - 1]) && !Plain(c)
    ensures Parse(text + [c]) == Parse(text)
  {
    hide Parse;
    BodyOf(text, []);
    BodyOf(text, [c]);
    assert text + [] == text;
    ParseVerdict(text);
    ParseVerdict(text + [c]);
    FieldsLonger(text);
    assert text[|text| - 1] != ':';
    hide AllSound;
  }

  /** Two double colons are accepted when the first one opens the text. */
  lemma TwoDoubleColons(a: Group, b: Group)
    ensures Parse("::" + a + "::" + b) == Address(Pair(a) + Zeros(12) + Pair(b))
  {
    assert HexText(a) && HexText(b) && 1 <= |a| <= 4 && 1 <= |b| <= 4;
    hide HexText;
    hide HexGroup;
    hide Parse;
    hide Join;
    hide Pair;
    hide Zeros;
    hide Verdict;
    var fs: seq<Field> := ["", "", a, "", b];
    JoinVerdict(fs, []);
    JoinFive(a, b);
    assert Join(fs) + [] == Join(fs);
    FiveVerdict(fs);
  }

  lemma FiveVerdict(fs: seq<Field>)
    requires Five(fs)
    ensures Verdict(fs, []) == Address(Pair(fs[2]) + Zeros(12) + Pair(fs[4]))
  {
    PairSize(fs[2]);
    PairSize(fs[4]);
    hide Pair;
    FiveStored(fs);
    FiveSound(fs);
    NoOverrun(fs);
    assert fs[..5] == fs;
    hide Stored;
    hide Mark;
    hide AllSound;
    hide Overruns;
    hide Zeros;
    hide HexText;
    var x, y := Pair(fs[2]), Pair(fs[4]);
    assert (x + y)[..2] == x && (x + y)[2..] == y;
  }

  predicate Five(fs: seq<Field>) {
    |fs| == 5 && fs[0] == fs[1] == fs[3] == [] && 1 <= |fs[2]| <= 4 && 1 <= |fs[4]| <= 4
  }

  lemma FiveStored(fs: seq<Field>)
    requires Five(fs)
    ensures Stored(fs[..0]) == Stored(fs[..1]) == Stored(fs[..2]) == []
    ensures Stored(fs[..3]) == Stored(fs[..4]) == Pair(fs[2]) && Stored(fs) == Pair(fs[2]) + Pair(fs[4])
    ensures Mark(fs[..0]) == Mark(fs[..1]) == Mark(fs[..2]) == Mark(fs[..3]) == 0 && Mark(fs) == 2
  {
    hide Pair;
    hide HexText;
    assert fs[..0] == [] && fs[..5] == fs;
    assert Stored([]) == [] && Mark([]) == 0;
    hide Stored;
    hide Mark;
    StoredNext(fs, 0);
    StoredNext(fs, 1);
    StoredNext(fs, 2);
    StoredNext(fs, 3);
    StoredNext(fs, 4);
    PairSize(fs[2]);
    assert Pair(fs[2]) + [] == Pair(fs[2]) && [] + Pair(fs[2]) == Pair(fs[2]);
  }

  lemma FiveSound(fs: seq<Field>)
    requires Five(fs)
    ensures AllSound(fs, 5)
  {
    hide Pair;
    hide Stored;
    hide Mark;
    FiveStored(fs);
    PairSize(fs[2]);
    assert Sound(fs, 0) && Sound(fs, 1) && Sound(fs, 2) && Sound(fs, 3) && Sound(fs, 4);
  }

  lemma {:induction false} ColonsSnoc(gs: seq<string>, hs: seq<string>, g: string, head: string)
    requires gs == hs + [g] && Colons(hs) == head
    ensures Colons(gs) == head + g + ":"
  {
    hide Colons;
    hide Join;
    JoinStep(hs, g);
  }

  lemma {:induction false} ColonsThree(a: string)
    ensures Colons(["", "", a]) == "::" + a + ":"
  {
    assert Colons([]) == "";
    hide Colons;
    ColonsSnoc([""], [], "", "");
    ColonsSnoc(["", ""], [""], "", ":");
    ColonsSnoc(["", "", a], ["", ""], a, "::");
  }

  lemma JoinFive(a: string, b: string)
    ensures Join(["", "", a, "", b]) == "::" + a + "::" + b
  {
    hide Join;
    hide Colons;
    ColonsThree(a);
    JoinStep(["", "", a], "");
    JoinStep(["", "", a, ""], b);
    assert ["", "", a] + [""] == ["", "", a, ""];
    assert ["", "", a, ""] + [b] == ["", "", a, "", b];
  }
}
