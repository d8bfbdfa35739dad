/** IPv6 addresses as text: the printer, the parser with its buffer and counters, and what
    the parser makes of every well-formed text. */
module Ipv6Text {
  import opened Bits

  type Bytes = b: seq<byte> | |b| == 16 witness seq(16, _ => 0)

  predicate IsHex(c: char) {
    '0' <= c <= '9' || 'a' <= c <= 'f' || 'A' <= c <= 'F'
  }

  function HexValue(c: char): (d: nat)
    ensures d < 16
  {
    if '0' <= c <= '9' then (c - '0') as nat
    else if 'a' <= c <= 'f' then 10 + (c - 'a') as nat
    else if 'A' <= c <= 'F' then 10 + (c - 'A') as nat
    else 0
  }

  const DIGITS: string := "0123456789abcdef"
  const CAPITALS: string := "0123456789ABCDEF"

  /** The digits and their values. */
  lemma DigitIff(c: char, d: nat)
    ensures IsHex(c) && HexValue(c) == d <==> d < 16 && (c == DIGITS[d] || c == CAPITALS[d])
  {}

  function HexChar(d: nat): (c: char)
    requires d < 16
    ensures IsHex(c) && HexValue(c) == d
  {
    if d < 10 then '0' + d as char else 'a' + (d - 10) as char
  }

  // ---------- the parser ----------

  /** The parser's locals, or how it stopped. Overrun is a write past the sixteen bytes. */
  datatype Parser =
    | Going(buf: Bytes, byte: nat, nibble: nat, hex: nat, colons: nat, dcolon: nat)
    | Rejected
    | Overrun

  predicate Even(n: nat) { n % 2 == 0 }

  function Digit(p: Parser, d: nat): Parser
    requires p.Going? && d < 16
  {
    if p.byte >= 16 then Overrun
    else
      p.(buf := p.buf[p.byte := Shift(p.buf[p.byte], d)],
         nibble := p.nibble + 1,
         byte := if Even(p.nibble + 1) then p.byte + 1 else p.byte)
  }

  /** A group ends, at a colon or at the end of the text; the digits it lacks are made up. */
  function EndGroup(p: Parser, colon: bool): Parser
    requires p.Going?
  {
    var q := p.(hex := p.hex + 1, colons := if colon then p.colons + 1 else p.colons, nibble := 4 * (p.hex + 1));
    var diff := 4 * (p.hex + 1) - p.nibble;
    if diff == 0 then q
    else if diff == 1 then
      if !(1 <= p.byte < 16) then Overrun
      else
        q.(buf := p.buf[p.byte := Low(Or(p.buf[p.byte], Shift(p.buf[p.byte - 1], 0)))]
                       [p.byte - 1 := p.buf[p.byte - 1] / 16],
           byte := p.byte + 1)
    else if diff == 2 then
      if !(1 <= p.byte < 16) then Overrun
      else q.(buf := p.buf[p.byte := p.buf[p.byte - 1]][p.byte - 1 := 0], byte := p.byte + 1)
    else if diff == 3 then
      if !(p.byte + 1 < 16) then Overrun
      else q.(buf := p.buf[p.byte + 1 := p.buf[p.byte]][p.byte := 0], byte := p.byte + 2)
    else if diff == 4 then
      if p.dcolon != 0 && q.colons != 2 then Rejected else q.(dcolon := p.byte)
    else Rejected
  }

  function Low(x: nat): byte { x % 256 }

  /** Four bits to the left, in eight, plus a digit. */
  function Shift(x: nat, d: nat): byte { Low(16 * x + d) }

  /** One character, and whether the terminator follows it. */
  function Feed(p: Parser, c: char, last: bool): Parser {
    if !p.Going? then p
    else if !(IsHex(c) || c == ':' || last) then Rejected
    else
      var q := if IsHex(c) then Digit(p, HexValue(c)) else p;
      if q.Going? && (c == ':' || last) then EndGroup(q, c == ':') else q
  }

  /** A stretch of the text, with more to follow or not. */
  function FeedAll(p: Parser, text: string, more: bool): Parser
    decreases |text|
  {
    if text == [] then p
    else FeedAll(Feed(p, text[0], |text| == 1 && !more), text[1..], more)
  }

  function Zeros(n: nat): (z: seq<byte>)
    ensures |z| == n
  {
    seq(n, _ => 0)
  }

  datatype Outcome = Address(bytes: Bytes) | Refused | Overflowed

  /** What the final shift leaves: the bytes from the double colon on moved to the end. */
  function Finish(p: Parser): Outcome {
    match p
    case Rejected => Refused
    case Overrun => Overflowed
    case Going(buf, byte, _, _, colons, dcolon) =>
      if colons < 2 then Refused
      else if byte > 16 || dcolon > byte then Overflowed
      else Address(buf[..dcolon] + Zeros(16 - byte) + buf[dcolon..byte])
  }

  function Parse(text: string): Outcome { Finish(FeedAll(Between([], 0, 0, 0), text, false)) }

  // ---------- texts ----------

  predicate HexGroup(g: string) { 1 <= |g| <= 4 && forall c <- g :: IsHex(c) }

  type Group = g: string | HexGroup(g) witness "0"

  /** Eight groups, or groups before and after a double colon. */
  datatype Text = Full(groups: seq<Group>) | Short(left: seq<Group>, right: seq<Group>)

  /** Section 2.2 of RFC 4291: a double colon stands for one or more groups of zeros. */
  predicate WellFormed(t: Text) {
    match t
    case Full(gs) => |gs| == 8
    case Short(l, r) => |l| + |r| <= 7
  }

  function Colons(gs: seq<string>): string {
    if gs == [] then "" else Colons(gs[..|gs| - 1]) + gs[|gs| - 1] + ":"
  }

  function Join(gs: seq<string>): string {
    if gs == [] then "" else Colons(gs[..|gs| - 1]) + gs[|gs| - 1]
  }

  function Render(t: Text): string {
    match t
    case Full(gs) => Join(gs)
    case Short(l, r) => Head(l) + Join(r)
  }

  function Value(g: string): nat {
    if g == [] then 0 else 16 * Value(g[..|g| - 1]) + HexValue(g[|g| - 1])
  }

  function Pair(g: string): seq<byte> { [Low(Value(g) / 256), Low(Value(g))] }

  function Pairs(gs: seq<Group>): (b: seq<byte>)
    ensures |b| == 2 * |gs|
  {
    if gs == [] then [] else Pairs(gs[..|gs| - 1]) + Pair(gs[|gs| - 1])
  }

  function Expand(t: Text): (b: seq<byte>)
    requires WellFormed(t)
    ensures |b| == 16
  {
    match t
    case Full(gs) => Pairs(gs)
    case Short(l, r) => Pairs(l) + Zeros(16 - 2 * |l| - 2 * |r|) + Pairs(r)
  }

  // ---------- one group ----------

  /** The parser between groups, having stored `out`. */
  function Between(out: seq<byte>, hex: nat, colons: nat, dcolon: nat): (p: Parser)
    requires |out| <= 16
    ensures p.Going?
  {
    Going(out + Zeros(16 - |out|), |out|, 4 * hex, hex, colons, dcolon)
  }

  function Digits(p: Parser, g: string): Parser {
    if g == [] then p
    else
      var q := Digits(p, g[..|g| - 1]);
      if q.Going? then Digit(q, HexValue(g[|g| - 1])) else q
  }

  /** Inside a group: the octets its digits make so far. */
  function Within(out: seq<byte>, hex: nat, colons: nat, dcolon: nat, a: byte, b: byte, digits: nat): (p: Parser)
    requires |out| + 2 <= 16
    ensures p.Going?
  {
    var full := if digits < 2 then 0 else if digits < 4 then 1 else 2;
    Going(out + [a, b] + Zeros(14 - |out|), |out| + full, 4 * hex + digits, hex, colons, dcolon)
  }

  lemma WithinNone(out: seq<byte>, hex: nat, colons: nat, dcolon: nat)
    requires |out| + 2 <= 16
    ensures Between(out, hex, colons, dcolon) == Within(out, hex, colons, dcolon, 0, 0, 0)
  {}

  lemma Parity(hex: nat, digits: nat)
    requires digits < 4
    ensures Even(4 * hex + digits + 1) <==> digits == 1 || digits == 3
  {
    assert 4 * hex + digits + 1 == 2 * (2 * hex) + (digits + 1);
  }

  lemma {:induction false} FirstDigits(out: seq<byte>, hex: nat, colons: nat, dcolon: nat,
                                       a: byte, b: byte, digits: nat, d: nat)
    requires |out| + 2 <= 16 && d < 16 && digits < 2
    ensures Digit(Within(out, hex, colons, dcolon, a, b, digits), d)
         == Within(out, hex, colons, dcolon, Shift(a, d), b, digits + 1)
  {
    hide Shift;
    hide Zeros;
    hide Even;
    var p := Within(out, hex, colons, dcolon, a, b, digits);
    assert p.byte == |out| && p.nibble == 4 * hex + digits;
    Parity(hex, digits);
    PutPair(out, a, b, Shift(a, d), Zeros(14 - |out|));
  }

  lemma {:induction false} LastDigits(out: seq<byte>, hex: nat, colons: nat, dcolon: nat,
                                      a: byte, b: byte, digits: nat, d: nat)
    requires |out| + 2 <= 16 && d < 16 && 2 <= digits < 4
    ensures Digit(Within(out, hex, colons, dcolon, a, b, digits), d)
         == Within(out, hex, colons, dcolon, a, Shift(b, d), digits + 1)
  {
    hide Shift;
    hide Zeros;
    hide Even;
    var p := Within(out, hex, colons, dcolon, a, b, digits);
    assert p.byte == |out| + 1 && p.nibble == 4 * hex + digits;
    Parity(hex, digits);
    PutPair(out, a, b, Shift(b, d), Zeros(14 - |out|));
  }

  lemma PutPair(out: seq<byte>, a: byte, b: byte, x: byte, rest: seq<byte>)
    ensures var buf := out + [a, b] + rest;
            && buf[|out|] == a && buf[|out| + 1] == b
            && buf[|out| := x] == out + [x, b] + rest
            && buf[|out| + 1 := x] == out + [a, x] + rest
  {}

  /** Ending a group of one to four digits stores its value in two octets. */
  /** The two octets left of a group of one to four digits. */
  function TwoOctets(a: byte, b: byte, digits: nat): (r: seq<byte>)
    ensures |r| == 2
  {
    match digits
    case 1 => [0, a]
    case 2 => [0, a]
    case 3 => [a / 16, Low(16 * a + b)]
    case _ => [a, b]
  }

  lemma EndGroupStores(out: seq<byte>, hex: nat, colons: nat, dcolon: nat, a: byte, b: byte, digits: nat, colon: bool)
    requires |out| + 2 <= 16 && 1 <= digits <= 4
    requires digits <= 2 ==> b == 0
    requires digits == 1 ==> a < 16
    requires digits == 3 ==> b < 16
    ensures EndGroup(Within(out, hex, colons, dcolon, a, b, digits), colon)
         == Between(out + TwoOctets(a, b, digits), hex + 1, if colon then colons + 1 else colons, dcolon)
  {
    hide Low;
    hide Or;
    var rest := Zeros(14 - |out|);
    var buf := out + [a, b] + rest;
    match digits
    case 1 =>
      PutPair(out, a, b, a, rest);
      PutPair(out, a, a, 0, rest);
    case 2 =>
      PutPair(out, a, b, a, rest);
      PutPair(out, a, a, 0, rest);
    case 3 =>
      var low := Low(Or(b, Shift(a, 0)));
      PutPair(out, a, b, low, rest);
      PutPair(out, a, low, a / 16, rest);
      Nibbles(a, b);
    case _ =>
  }

  lemma {:induction false} Nibbles(a: byte, b: byte)
    requires b < 16
    ensures Low(Or(b, Shift(a, 0))) == Low(16 * a + b)
  {
    hide Or;
    LeftFour(1);
    BelowRight(b, 4);
    LeftFour(a % 16);
    OrDisjoint(b, a % 16, 4);
    LowNibble(a, 0);
    LowNibble(a, b);
    hide Left;
    hide Right;
    assert Shift(a, 0) == 16 * (a % 16);
  }

  lemma LowNibble(a: nat, b: nat)
    requires b < 16
    ensures Low(16 * a + b) == 16 * (a % 16) + b
  {
    assert 16 * a + b == 256 * (a / 16) + (16 * (a % 16) + b);
  }

  // ---------- a group of digits ----------

  lemma {:induction false} ValueBound(g: string, n: nat)
    requires |g| <= n
    ensures Value(g) < Left(1, 4 * n)
  {
    if n > 0 {
      if g == [] { ValueBound(g, n - 1); } else { ValueBound(g[..|g| - 1], n - 1); }
      LeftAdd(1, 4, 4 * (n - 1));
      LeftFour(Left(1, 4 * (n - 1)));
    }
  }

  lemma ShortValue(g: string)
    requires |g| <= 2
    ensures Value(g) < 256 && (|g| <= 1 ==> Value(g) < 16)
  {
    ValueBound(g, 2);
    LeftEight(1);
    if |g| <= 1 {
      ValueBound(g, 1);
      LeftFour(1);
    }
  }

  /** What the first two digits and the others are worth. */
  function First(g: string): byte { Low(Value(if |g| <= 2 then g else g[..2])) }
  function Second(g: string): byte { Low(Value(if |g| <= 2 then [] else g[2..])) }

  lemma ShiftValue(g: string, d: nat)
    requires |g| <= 1 && d < 16
    ensures Shift(Low(Value(g)), d) == Low(16 * Value(g) + d)
  {
    ShortValue(g);
    hide Value;
    LowSmall(Value(g));
    hide Low;
  }

  lemma {:induction false} DigitsForm(out: seq<byte>, hex: nat, colons: nat, dcolon: nat, g: string)
    requires |out| + 2 <= 16 && |g| <= 4
    ensures Digits(Between(out, hex, colons, dcolon), g)
         == Within(out, hex, colons, dcolon, First(g), Second(g), |g|)
  {
    hide Between;
    hide Within;
    hide Digit;
    hide Low;
    hide Shift;
    if g == [] {
      WithinNone(out, hex, colons, dcolon);
      assert Low(0) == 0 by { LowSmall(0); }
    } else {
      var h, d := g[..|g| - 1], HexValue(g[|g| - 1]);
      DigitsForm(out, hex, colons, dcolon, h);
      if |g| <= 2 {
        FirstDigits(out, hex, colons, dcolon, First(h), Second(h), |h|, d);
        ShiftValue(h, d);
      } else {
        LastDigits(out, hex, colons, dcolon, First(h), Second(h), |h|, d);
        var tail := if |h| <= 2 then [] else h[2..];
        assert g[2..][..|g[2..]| - 1] == tail;
        assert h[..2] == g[..2] && (|h| == 2 ==> h == g[..2]);
        ShiftValue(tail, d);
        assert Value(g[2..]) == 16 * Value(tail) + d;
      }
    }
  }

  lemma LowSmall(x: nat)
    requires x < 256
    ensures Low(x) == x
  {}

  lemma {:induction false} ValueSplit(g: string)
    requires 2 <= |g| <= 4
    ensures Value(g) == Left(Value(g[..2]), 4 * (|g| - 2)) + Value(g[2..])
  {
    if |g| == 2 {
      assert g[..2] == g && g[2..] == [];
    } else {
      var h := g[..|g| - 1];
      ValueSplit(h);
      assert h[..2] == g[..2] && g[2..][..|g| - 3] == h[2..];
      LeftAdd(Value(g[..2]), 4, 4 * (|g| - 3));
      LeftFour(Left(Value(g[..2]), 4 * (|g| - 3)));
    }
  }

  lemma PairForm(g: Group)
    ensures Pair(g) == TwoOctets(First(g), Second(g), |g|)
    ensures |g| <= 2 ==> Second(g) == 0
    ensures |g| == 1 ==> First(g) < 16
    ensures |g| == 3 ==> Second(g) < 16
  {
    hide Value;
    hide Left;
    if |g| <= 2 {
      ShortValue(g);
      assert Value([]) == 0 by { NoValue(); }
    } else {
      ValueSplit(g);
      ShortValue(g[..2]);
      ShortValue(g[2..]);
      LeftFour(Value(g[..2]));
      LeftEight(Value(g[..2]));
      var x, y := Value(g[..2]), Value(g[2..]);
      assert Value(g) == (if |g| == 3 then 16 else 256) * x + y;
      SplitPair(x, y);
      LowSmall(x);
      LowSmall(y);
      hide Low;
    }
  }

  lemma NoValue()
    ensures Value([]) == 0
  {}

  lemma SplitThree(x: nat, y: nat)
    requires x < 256 && y < 16
    ensures (16 * x + y) / 256 == x / 16
  {
    assert 16 * x + y == 256 * (x / 16) + (16 * (x % 16) + y);
  }

  lemma SplitPair(x: nat, y: nat)
    requires x < 256 && y < 256
    ensures y < 16 ==> Low((16 * x + y) / 256) == x / 16
    ensures Low((256 * x + y) / 256) == x && Low(256 * x + y) == y
  {
    if y < 16 {
      SplitThree(x, y);
      LowSmall(x / 16);
    }
  }

  /** Digits and an end of group store the group's value in the next two bytes. */
  lemma {:induction false} GroupStores(out: seq<byte>, hex: nat, colons: nat, dcolon: nat, g: Group, colon: bool)
    requires |out| + 2 <= 16
    ensures var p := Digits(Between(out, hex, colons, dcolon), g);
            && p.Going?
            && EndGroup(p, colon) == Between(out + Pair(g), hex + 1, if colon then colons + 1 else colons, dcolon)
  {
    hide Between;
    hide Within;
    hide EndGroup;
    hide First;
    hide Second;
    hide Pair;
    hide TwoOctets;
    hide Digits;
    hide Low;
    DigitsForm(out, hex, colons, dcolon, g);
    PairForm(g);
    EndGroupStores(out, hex, colons, dcolon, First(g), Second(g), |g|, colon);
  }

  // ---------- whole texts ----------

  lemma {:induction false} FeedAppend(p: Parser, a: string, b: string, more: bool)
    requires b != []
    ensures FeedAll(p, a + b, more) == FeedAll(FeedAll(p, a, true), b, more)
    decreases |a|
  {
    hide Feed;
    if a == [] {
      assert a + b == b;
    } else {
      assert (a + b)[1..] == a[1..] + b;
      FeedAppend(Feed(p, a[0], false), a[1..], b, more);
    }
  }

  /** All of a group but its end is digits. */
  lemma {:induction false} FeedDigits(p: Parser, g: string)
    requires p.Going? && forall c <- g :: IsHex(c)
    ensures FeedAll(p, g, true) == Digits(p, g)
  {
    if g != [] {
      var h, c := g[..|g| - 1], g[|g| - 1];
      assert g == h + [c];
      FeedDigits(p, h);
      FeedAppend(p, h, [c], true);
      FeedOne(Digits(p, h), c, true);
    }
  }

  lemma FeedOne(p: Parser, c: char, more: bool)
    ensures FeedAll(p, [c], more) == Feed(p, c, !more)
  {
    assert [c][1..] == [];
    assert FeedAll(Feed(p, c, !more), [], more) == Feed(p, c, !more);
  }

  lemma {:induction false} FeedGroupColon(out: seq<byte>, hex: nat, colons: nat, dcolon: nat, g: Group, more: bool)
    requires |out| + 2 <= 16
    ensures FeedAll(Between(out, hex, colons, dcolon), g + ":", more)
         == Between(out + Pair(g), hex + 1, colons + 1, dcolon)
  {
    var p := Between(out, hex, colons, dcolon);
    FeedDigits(p, g);
    FeedAppend(p, g, ":", more);
    FeedOne(Digits(p, g), ':', more);
    GroupStores(out, hex, colons, dcolon, g, true);
    hide Digits;
    hide Between;
    hide FeedAll;
    hide EndGroup;
    hide Pair;
    assert !IsHex(':');
  }

  lemma {:induction false} FeedGroupLast(out: seq<byte>, hex: nat, colons: nat, dcolon: nat, g: Group)
    requires |out| + 2 <= 16
    ensures FeedAll(Between(out, hex, colons, dcolon), g, false)
         == Between(out + Pair(g), hex + 1, colons, dcolon)
  {
    var p := Between(out, hex, colons, dcolon);
    var h, c := g[..|g| - 1], g[|g| - 1];
    assert g == h + [c];
    FeedDigits(p, h);
    FeedAppend(p, h, [c], false);
    FeedOne(Digits(p, h), c, false);
    GroupStores(out, hex, colons, dcolon, g, false);
    assert IsHex(c) && c != ':';
    assert Digits(p, h).Going?;
    hide Digits;
    hide Between;
    hide FeedAll;
    hide EndGroup;
    hide Pair;
    hide Digit;
  }

  lemma {:induction false} FeedColons(out: seq<byte>, hex: nat, colons: nat, dcolon: nat, gs: seq<Group>)
    requires |out| + 2 * |gs| <= 16
    ensures FeedAll(Between(out, hex, colons, dcolon), Colons(gs), true)
         == Between(out + Pairs(gs), hex + |gs|, colons + |gs|, dcolon)
  {
    hide HexGroup;
    var p := Between(out, hex, colons, dcolon);
    hide Between;
    hide Pair;
    if gs == [] {
      assert out + Pairs(gs) == out;
    } else {
      var hs, g := gs[..|gs| - 1], gs[|gs| - 1];
      FeedColons(out, hex, colons, dcolon, hs);
      assert Colons(gs) == Colons(hs) + (g + ":");
      FeedAppend(p, Colons(hs), g + ":", true);
      FeedGroupColon(out + Pairs(hs), hex + |hs|, colons + |hs|, dcolon, g, true);
      assert out + Pairs(hs) + Pair(g) == out + Pairs(gs);
    }
  }

  lemma {:induction false} FeedSnoc(out: seq<byte>, hex: nat, colons: nat, dcolon: nat, hs: seq<Group>, g: Group)
    requires |out| + 2 * |hs| + 2 <= 16
    ensures FeedAll(Between(out, hex, colons, dcolon), Colons(hs) + g, false)
         == Between(out + Pairs(hs) + Pair(g), hex + |hs| + 1, colons + |hs|, dcolon)
  {
    assert g != [];
    hide Between;
    hide Pair;
    hide Colons;
    hide Pairs;
    hide FeedAll;
    hide HexGroup;
    FeedColons(out, hex, colons, dcolon, hs);
    FeedAppend(Between(out, hex, colons, dcolon), Colons(hs), g, false);
    FeedGroupLast(out + Pairs(hs), hex + |hs|, colons + |hs|, dcolon, g);
  }

  lemma {:induction false} FeedJoin(out: seq<byte>, hex: nat, colons: nat, dcolon: nat, gs: seq<Group>)
    requires |out| + 2 * |gs| <= 16 && gs != []
    ensures FeedAll(Between(out, hex, colons, dcolon), Join(gs), false)
         == Between(out + Pairs(gs), hex + |gs|, colons + |gs| - 1, dcolon)
  {
    hide Between;
    hide Pair;
    hide Pairs;
    hide Colons;
    hide Join;
    hide FeedAll;
    hide HexGroup;
    var hs, g := gs[..|gs| - 1], gs[|gs| - 1];
    assert gs == hs + [g];
    FeedSnoc(out, hex, colons, dcolon, hs, g);
    JoinStep(hs, g);
    LastPair(hs, g);
    assert out + Pairs(hs) + Pair(g) == out + Pairs(gs);
  }

  /** An empty group records where the double colon is. */
  lemma FeedEmpty(out: seq<byte>, hex: nat, colons: nat, more: bool)
    requires |out| <= 16
    ensures FeedAll(Between(out, hex, colons, 0), ":", more) == Between(out, hex + 1, colons + 1, |out|)
  {
    FeedOne(Between(out, hex, colons, 0), ':', more);
    assert !IsHex(':');
  }

  lemma FinishForm(out: seq<byte>, hex: nat, colons: nat, dcolon: nat)
    requires |out| <= 16 && dcolon <= |out| && colons >= 2
    ensures Finish(Between(out, hex, colons, dcolon))
         == Address(out[..dcolon] + Zeros(16 - |out|) + out[dcolon..])
  {
    var buf := out + Zeros(16 - |out|);
    assert buf[..dcolon] == out[..dcolon] && buf[dcolon..|out|] == out[dcolon..];
  }

  /** The parser right after the double colon. */
  lemma {:induction false} FeedHead(l: seq<Group>, more: bool)
    requires |l| <= 7
    ensures var head := (if l == [] then ":" else Colons(l)) + ":";
            FeedAll(Between([], 0, 0, 0), head, more)
            == (if l == [] then Between([], 2, 2, 0) else Between(Pairs(l), |l| + 1, |l| + 1, 2 * |l|))
  {
    hide HexGroup;
    var p := Between([], 0, 0, 0);
    hide Between;
    if l == [] {
      FeedAppend(p, ":", ":", more);
      FeedEmpty([], 0, 0, true);
      FeedEmpty([], 1, 1, more);
    } else {
      FeedAppend(p, Colons(l), ":", more);
      FeedColons([], 0, 0, 0, l);
      assert [] + Pairs(l) == Pairs(l);
      FeedEmpty(Pairs(l), |l|, |l|, more);
    }
  }

  /** Three to eight groups without a double colon: what is missing is taken to be zeros in
      front, so a text of fewer than eight groups is not refused. */
  lemma {:induction false} ParsesGroups(gs: seq<Group>)
    requires 3 <= |gs| <= 8
    ensures Parse(Join(gs)) == Address(Zeros(16 - 2 * |gs|) + Pairs(gs))
  {
    hide HexGroup;
    hide Between;
    hide FeedAll;
    hide Finish;
    hide Pairs;
    hide Join;
    hide Zeros;
    hide Expand;
    var out := Pairs(gs);
    FeedJoin([], 0, 0, 0, gs);
    assert [] + out == out;
    FinishForm(out, |gs|, |gs| - 1, 0);
    assert out[..0] == [] && out[0..] == out;
    assert [] + Zeros(16 - |out|) == Zeros(16 - |out|);
  }

  lemma {:induction false} AfterHead(head: string, out: seq<byte>, n: nat, r: seq<Group>)
    requires |out| + 2 * |r| <= 16 && n >= 2 && r != []
    requires FeedAll(Between([], 0, 0, 0), head, true) == Between(out, n, n, |out|)
    ensures Parse(head + Join(r)) == Address(out + Zeros(16 - |out| - 2 * |r|) + Pairs(r))
  {
    hide HexGroup;
    JoinSome(r);
    hide Between;
    hide FeedAll;
    hide Finish;
    hide Join;
    hide Pairs;
    hide Zeros;
    var stored := out + Pairs(r);
    FeedAppend(Between([], 0, 0, 0), head, Join(r), false);
    FeedJoin(out, n, n, |out|, r);
    FinishForm(stored, n + |r|, n + |r| - 1, |out|);
    assert stored[..|out|] == out && stored[|out|..] == Pairs(r);
  }

  lemma {:induction false} HeadOnly(head: string, out: seq<byte>, n: nat)
    requires |out| <= 16 && n >= 2
    requires FeedAll(Between([], 0, 0, 0), head, false) == Between(out, n, n, |out|)
    ensures Parse(head) == Address(out + Zeros(16 - |out|))
  {
    hide Between;
    hide FeedAll;
    hide Finish;
    FinishForm(out, n, n, |out|);
    assert out[..|out|] == out && out[|out|..] == [];
  }

  /** The text up to the double colon, and how many colons it has. */
  function Head(l: seq<Group>): string { (if l == [] then ":" else Colons(l)) + ":" }
  function HeadColons(l: seq<Group>): nat { if l == [] then 2 else |l| + 1 }

  lemma {:induction false} HeadForm(l: seq<Group>, more: bool)
    requires |l| <= 7
    ensures FeedAll(Between([], 0, 0, 0), Head(l), more) == Between(Pairs(l), HeadColons(l), HeadColons(l), |Pairs(l)|)
  {
    hide HexGroup;
    NoPairs();
    hide Between;
    hide FeedAll;
    hide Pairs;
    FeedHead(l, more);
  }

  lemma {:induction false} ParsesHead(l: seq<Group>)
    requires |l| <= 7
    ensures Parse(Head(l) + Join([])) == Address(Pairs(l) + Zeros(16 - 2 * |l|) + Pairs([]))
  {
    NoPairs();
    NoJoin();
    HeadForm(l, false);
    HeadOnly(Head(l), Pairs(l), HeadColons(l));
    hide Parse;
    hide Zeros;
    hide Pairs;
    hide Head;
    hide Join;
    assert Head(l) + "" == Head(l);
    assert Pairs(l) + Zeros(16 - 2 * |l|) + [] == Pairs(l) + Zeros(16 - 2 * |l|);
  }

  lemma {:induction false} ParsesShort(l: seq<Group>, r: seq<Group>)
    requires |l| + |r| <= 7
    ensures Parse(Head(l) + Join(r)) == Address(Pairs(l) + Zeros(16 - 2 * |l| - 2 * |r|) + Pairs(r))
  {
    hide HexGroup;
    hide Between;
    hide FeedAll;
    hide Parse;
    hide Zeros;
    hide Head;
    hide Join;
    hide Pairs;
    if r == [] {
      ParsesHead(l);
    } else {
      HeadForm(l, true);
      AfterHead(Head(l), Pairs(l), HeadColons(l), r);
    }
  }

  lemma NoPairs()
    ensures Pairs([]) == []
  {}

  lemma NoJoin()
    ensures Join([]) == ""
  {}

  lemma JoinSome(gs: seq<Group>)
    requires gs != []
    ensures Join(gs) != []
  {}

  /** Every well-formed text is accepted as the address it stands for. */
  lemma {:induction false} ParsesWellFormed(t: Text)
    requires WellFormed(t)
    ensures Parse(Render(t)) == Address(Expand(t))
  {
    hide HexGroup;
    match t
    case Full(gs) =>
      hide Parse;
      ParsesGroups(gs);
      assert Zeros(0) + Pairs(gs) == Pairs(gs);
    case Short(l, r) =>
      hide Parse;
      ParsesShort(l, r);
  }

  lemma ValueFour(g: string)
    requires |g| == 4
    ensures Value(g) == 4096 * HexValue(g[0]) + 256 * HexValue(g[1]) + 16 * HexValue(g[2]) + HexValue(g[3])
  {
    hide HexValue;
    ValueTwo(g[..2]);
    assert g[..3][..2] == g[..2] && g[..2][..1] == g[..1];
    assert Value(g[..3]) == 16 * Value(g[..2]) + HexValue(g[2]);
  }

  lemma ValueTwo(g: string)
    requires |g| == 2
    ensures Value(g) == 16 * HexValue(g[0]) + HexValue(g[1])
  {
    hide HexValue;
    assert g[..1][..0] == "";
    assert Value(g[..1]) == HexValue(g[0]);
  }

  /** An address in the notation of section 2.2 of RFC 4291, with digits of both cases. */
  lemma KnownAddress()
    ensures Parse("2001:0Db8::8a2E:42")
         == Address([0x20, 0x01, 0x0D, 0xB8, 0, 0, 0, 0, 0, 0, 0, 0, 0x8A, 0x2E, 0x00, 0x42])
  {
    var l: seq<Group> := ["2001", "0Db8"];
    var r: seq<Group> := ["8a2E", "42"];
    ParsesWellFormed(Short(l, r));
    hide Parse;
    hide HexGroup;
    KnownText(l, r);
    KnownOctets(l, r);
  }

  lemma KnownText(l: seq<Group>, r: seq<Group>)
    requires l == ["2001", "0Db8"] && r == ["8a2E", "42"]
    ensures Render(Short(l, r)) == "2001:0Db8::8a2E:42"
  {
    assert Colons(l[..0]) == "" && Colons(r[..0]) == "";
    assert l[..1][..0] == [] && r[..1][..0] == [];
    assert Colons(l[..1]) == "2001:" && Colons(r[..1]) == "8a2E:";
  }

  lemma KnownPairs()
    ensures Pair("2001") == [0x20, 0x01] && Pair("0Db8") == [0x0D, 0xB8]
    ensures Pair("8a2E") == [0x8A, 0x2E] && Pair("42") == [0x00, 0x42]
  {
    ValueFour("2001");
    ValueFour("0Db8");
    ValueFour("8a2E");
    ValueTwo("42");
    hide Value;
  }

  lemma TwoPairs(gs: seq<Group>)
    requires |gs| == 2
    ensures Pairs(gs) == Pair(gs[0]) + Pair(gs[1])
  {
    hide Pair;
    hide HexGroup;
    assert gs[..1][..0] == [];
    assert Pairs(gs[..1]) == [] + Pair(gs[0]) == Pair(gs[0]);
  }

  lemma KnownOctets(l: seq<Group>, r: seq<Group>)
    requires l == ["2001", "0Db8"] && r == ["8a2E", "42"]
    ensures Expand(Short(l, r)) == [0x20, 0x01, 0x0D, 0xB8, 0, 0, 0, 0, 0, 0, 0, 0, 0x8A, 0x2E, 0x00, 0x42]
  {
    KnownPairs();
    hide Pair;
    hide HexGroup;
    TwoPairs(l);
    TwoPairs(r);
    hide Pairs;
    assert Zeros(8) == [0, 0, 0, 0, 0, 0, 0, 0];
  }

  // ---------- the printer ----------

  function Nibble(a: Bytes, i: nat): (d: nat)
    requires i < 32
    ensures d < 16
  {
    if i % 2 == 0 then a[i / 2] / 16 else a[i / 2] % 16
  }

  /** What has been written after i nibbles. */
  function Written(a: Bytes, i: nat): string
    requires i <= 32
  {
    if i == 0 then ""
    else Written(a, i - 1) + Lead(i - 1) + [HexChar(Nibble(a, i - 1))]
  }

  /** A colon before every fourth nibble but the first. */
  function Lead(i: nat): string { if i % 4 == 0 && i != 0 then ":" else "" }

  method Print(a: Bytes) returns (text: string)
    ensures text == Written(a, 32)
  {
    text := "";
    for i := 0 to 32
      invariant text == Written(a, i)
    {
      if i % 4 == 0 && i != 0 { text := text + ":"; }
      text := text + [HexChar(Nibble(a, i))];
    }
  }

  /** The four digits of two bytes. */
  function GroupOf(a: byte, b: byte): (g: Group)
    ensures |g| == 4
  {
    [HexChar(a / 16), HexChar(a % 16), HexChar(b / 16), HexChar(b % 16)]
  }

  function GroupsOf(b: seq<byte>): (gs: seq<Group>)
    requires |b| % 2 == 0
    ensures |gs| == |b| / 2
  {
    if b == [] then [] else GroupsOf(b[..|b| - 2]) + [GroupOf(b[|b| - 2], b[|b| - 1])]
  }

  lemma TwoDigits(c: char, d: char)
    ensures Value([c, d]) == 16 * HexValue(c) + HexValue(d)
  {
    assert [c, d][..1] == [c] && [c][..0] == [];
    assert Value([c]) == HexValue(c);
  }

  lemma GroupValue(a: byte, b: byte)
    ensures Pair(GroupOf(a, b)) == [a, b]
  {
    hide Value;
    hide HexValue;
    hide HexChar;
    var g := GroupOf(a, b);
    assert g[..2] == [HexChar(a / 16), HexChar(a % 16)] && g[2..] == [HexChar(b / 16), HexChar(b % 16)];
    TwoDigits(HexChar(a / 16), HexChar(a % 16));
    TwoDigits(HexChar(b / 16), HexChar(b % 16));
    assert Value(g[..2]) == a && Value(g[2..]) == b;
    LowSmall(a);
    LowSmall(b);
    hide Low;
    hide HexGroup;
    PairForm(g);
    hide Pair;
  }

  lemma {:induction false} GroupsValue(b: seq<byte>)
    requires |b| % 2 == 0
    ensures Pairs(GroupsOf(b)) == b
  {
    hide HexGroup;
    hide Pair;
    hide GroupOf;
    if b == [] {
      assert GroupsOf(b) == [];
      NoPairs();
    } else {
      var rest, x, y := b[..|b| - 2], b[|b| - 2], b[|b| - 1];
      assert GroupsOf(b) == GroupsOf(rest) + [GroupOf(x, y)];
      GroupsValue(rest);
      hide GroupsOf;
      hide Pairs;
      GroupValue(x, y);
      LastPair(GroupsOf(rest), GroupOf(x, y));
      assert b == rest + [x, y];
    }
  }

  lemma LastPair(gs: seq<Group>, g: Group)
    ensures Pairs(gs + [g]) == Pairs(gs) + Pair(g)
  {
    assert (gs + [g])[..|gs|] == gs;
  }

  lemma GroupsStep(a: Bytes, k: nat)
    requires 1 <= k <= 8
    ensures GroupsOf(a[..2 * k]) == GroupsOf(a[..2 * (k - 1)]) + [GroupOf(a[2 * k - 2], a[2 * k - 1])]
  {
    assert a[..2 * k][..2 * k - 2] == a[..2 * (k - 1)];
  }

  lemma JoinStep(gs: seq<string>, g: string)
    ensures Join(gs + [g]) == Colons(gs) + g && Colons(gs + [g]) == Colons(gs) + g + ":"
  {
    assert (gs + [g])[..|gs|] == gs;
  }

  lemma {:induction false} WrittenGroups(a: Bytes, k: nat)
    requires 1 <= k <= 8
    ensures Written(a, 4 * k) == Join(GroupsOf(a[..2 * k]))
    ensures Written(a, 4 * k) + ":" == Colons(GroupsOf(a[..2 * k]))
  {
    hide HexGroup;
    var gs := GroupsOf(a[..2 * (k - 1)]);
    var lead := if k == 1 then "" else ":";
    if k == 1 {
      assert a[..0] == [];
      NothingWritten(a);
    } else {
      WrittenGroups(a, k - 1);
    }
    assert Written(a, 4 * (k - 1)) + lead == Colons(gs);
    hide Written;
    hide GroupOf;
    hide GroupsOf;
    hide Join;
    hide Colons;
    GroupsStep(a, k);
    JoinStep(gs, GroupOf(a[2 * k - 2], a[2 * k - 1]));
    FourNibbles(a, k);
  }

  lemma NothingWritten(a: Bytes)
    ensures Written(a, 0) == ""
  {}

  lemma Half(i: nat, q: nat, r: nat)
    requires i == 2 * q + r && r < 2
    ensures i / 2 == q && i % 2 == r
  {}

  lemma Fourth(i: nat, k: nat, j: nat)
    requires i == 4 * k + j && j < 4
    ensures i % 4 == j
  {}

  lemma NibbleAt(a: Bytes, i: nat, k: nat, j: nat)
    requires i == 4 * k + j && k < 8 && j < 4
    ensures GroupOf(a[2 * k], a[2 * k + 1])[j] == HexChar(Nibble(a, i))
  {
    hide HexChar;
    if j < 2 { Half(i, 2 * k, j); } else { Half(i, 2 * k + 1, j - 2); }
  }

  lemma WrittenStep(a: Bytes, i: nat, k: nat, j: nat)
    requires i == 4 * k + j && k < 8 && j < 4
    ensures Written(a, i + 1)
         == Written(a, i) + (if j == 0 && k > 0 then ":" else "") + [GroupOf(a[2 * k], a[2 * k + 1])[j]]
  {
    NibbleAt(a, i, k, j);
    Fourth(i, k, j);
    hide HexChar;
    hide Nibble;
    hide GroupOf;
  }

  lemma Spelled(w: string, lead: string, g: string)
    requires |g| == 4
    ensures w + lead + [g[0]] + "" + [g[1]] + "" + [g[2]] + "" + [g[3]] == w + lead + g
  {}

  lemma FourNibbles(a: Bytes, k: nat)
    requires 1 <= k <= 8
    ensures Written(a, 4 * k)
         == Written(a, 4 * (k - 1)) + (if k == 1 then "" else ":") + GroupOf(a[2 * k - 2], a[2 * k - 1])
  {
    hide Written;
    hide GroupOf;
    hide HexChar;
    var i: nat := 4 * (k - 1);
    WrittenStep(a, i, k - 1, 0);
    WrittenStep(a, i + 1, k - 1, 1);
    WrittenStep(a, i + 2, k - 1, 2);
    WrittenStep(a, i + 3, k - 1, 3);
    Spelled(Written(a, i), if k == 1 then "" else ":", GroupOf(a[2 * k - 2], a[2 * k - 1]));
  }

  /** Parsing what is printed gives back every address. */
  lemma {:induction false} PrintParse(a: Bytes)
    ensures Parse(Written(a, 32)) == Address(a)
  {
    hide HexGroup;
    hide Parse;
    hide Written;
    hide Pairs;
    hide Join;
    WrittenGroups(a, 8);
    assert a[..16] == a;
    var gs := GroupsOf(a);
    GroupsValue(a);
    hide GroupsOf;
    ParsesGroups(gs);
    assert Zeros(0) + a == a;
  }

  // ---------- the parser's loops ----------

  lemma {:induction false} FeedStopped(p: Parser, text: string, more: bool)
    requires !p.Going?
    ensures FeedAll(p, text, more) == p
    decreases |text|
  {
    if text != [] { FeedStopped(p, text[1..], more); }
  }

  /** The digits a group lacks, made up in the buffer. */
  method FillGroup(buf: array<byte>, byte: nat, diff: nat) returns (next: nat)
    requires buf.Length == 16 && 1 <= diff <= 3
    requires if diff == 3 then byte + 1 < 16 else 1 <= byte < 16
    modifies buf
    ensures next == if diff == 3 then byte + 2 else byte + 1
    ensures var was := old(buf[..]);
            buf[..] == if diff == 1 then
                         was[byte := Low(Or(was[byte], Shift(was[byte - 1], 0)))][byte - 1 := was[byte - 1] / 16]
                       else if diff == 2 then was[byte := was[byte - 1]][byte - 1 := 0]
                       else was[byte + 1 := was[byte]][byte := 0]
  {
    hide Or;
    hide Low;
    hide Shift;
    if diff == 1 {
      buf[byte] := Low(Or(buf[byte], Shift(buf[byte - 1], 0)));
      buf[byte - 1] := buf[byte - 1] / 16;
      next := byte + 1;
    } else if diff == 2 {
      buf[byte] := buf[byte - 1];
      buf[byte - 1] := 0;
      next := byte + 1;
    } else {
      buf[byte + 1] := buf[byte];
      buf[byte] := 0;
      next := byte + 2;
    }
  }

  /** Bytes from the double colon on, moved up to the end. */
  method MoveUp(buf: array<byte>, byte: nat, dcolon: nat)
    requires buf.Length == 16 && dcolon <= byte < 16
    modifies buf
    ensures buf[..dcolon] == old(buf[..dcolon])
    ensures buf[dcolon + (16 - byte)..] == old(buf[dcolon..byte])
  {
    var zeros := 16 - byte;
    ghost var was := buf[..];
    var i := byte - dcolon;
    while i >= 0
      invariant -1 <= i <= byte - dcolon
      invariant forall k :: 0 <= k < dcolon + zeros + i ==> buf[k] == was[k]
      invariant forall k :: dcolon + zeros + i <= k < 16 && dcolon + zeros <= k ==> buf[k] == was[k - zeros]
      decreases i + 1
    {
      if dcolon + (i - 1) >= 0 { buf[dcolon + zeros + (i - 1)] := buf[dcolon + (i - 1)]; }
      i := i - 1;
    }
  }

  method ClearBytes(buf: array<byte>, from: nat, to: nat)
    requires from <= to <= buf.Length
    modifies buf
    ensures buf[..from] == old(buf[..from]) && buf[to..] == old(buf[to..])
    ensures buf[from..to] == Zeros(to - from)
  {
    for k := from to to
      invariant forall j :: 0 <= j < from || to <= j < buf.Length ==> buf[j] == old(buf[j])
      invariant forall j :: from <= j < k ==> buf[j] == 0
    {
      buf[k] := 0;
    }
  }

  /** Everything from the double colon on moved up to the end, and zeros put in between. */
  method ShiftUp(buf: array<byte>, byte: nat, dcolon: nat)
    requires buf.Length == 16 && dcolon <= byte <= 16
    modifies buf
    ensures buf[..] == old(buf[..dcolon]) + Zeros(16 - byte) + old(buf[dcolon..byte])
  {
    hide Zeros;
    var zeros := 16 - byte;
    if zeros != 0 {
      MoveUp(buf, byte, dcolon);
      ClearBytes(buf, dcolon, dcolon + zeros);
    } else {
      assert Zeros(0) == [];
    }
    assert buf[..] == buf[..dcolon] + buf[dcolon..dcolon + zeros] + buf[dcolon + zeros..];
  }

  datatype Status = Fine | Stop(outcome: Outcome)

  /** A stopped parser, and what the call then returns. */
  predicate Stops(p: Parser, s: Status) {
    !p.Going? && s == Stop(if p.Rejected? then Refused else Overflowed)
  }

  method EndInPlace(buf: array<byte>, byte: nat, nibble: nat, hex: nat, colons: nat, dcolon: nat, colon: bool)
      returns (s: Status, nextByte: nat, nextDcolon: nat)
    requires buf.Length == 16 && dcolon <= byte <= 16
    modifies buf
    ensures var q := EndGroup(Going(old(buf[..]), byte, nibble, hex, colons, dcolon), colon);
            if s.Fine?
            then q == Going(buf[..], nextByte, 4 * (hex + 1), hex + 1, if colon then colons + 1 else colons, nextDcolon)
                 && nextDcolon <= nextByte <= 16
            else Stops(q, s)
  {
    hide Or;
    hide Low;
    hide Shift;
    s, nextByte, nextDcolon := Fine, byte, dcolon;
    var diff := (hex + 1) * 4 - nibble;
    if diff == 1 || diff == 2 || diff == 3 {
      if (if diff == 3 then byte + 1 >= 16 else !(1 <= byte < 16)) { return Stop(Overflowed), byte, dcolon; }
      nextByte := FillGroup(buf, byte, diff);
    } else if diff == 4 {
      if dcolon != 0 && (if colon then colons + 1 else colons) != 2 { return Stop(Refused), byte, dcolon; }
      nextDcolon := byte;
    } else if diff != 0 {
      return Stop(Refused), byte, dcolon;
    }
  }

  method DigitInPlace(buf: array<byte>, byte: nat, nibble: nat, d: nat) returns (nextByte: nat)
    requires buf.Length == 16 && byte < 16 && d < 16
    modifies buf
    ensures byte <= nextByte <= 16
    ensures forall hex: nat, colons: nat, dcolon: nat ::
              Digit(Going(old(buf[..]), byte, nibble, hex, colons, dcolon), d)
              == Going(buf[..], nextByte, nibble + 1, hex, colons, dcolon)
  {
    hide Shift;
    buf[byte] := Shift(buf[byte], d);
    nextByte := if Even(nibble + 1) then byte + 1 else byte;
  }

  /** The text up to i has brought the parser to p. */
  predicate Reached(text: string, i: nat, p: Parser)
    requires i <= |text|
  {
    FeedAll(p, text[i..], false) == FeedAll(Between([], 0, 0, 0), text, false)
  }

  lemma {:induction false} ReachedStart(text: string, p: Parser)
    requires p == Going(Zeros(16), 0, 0, 0, 0, 0)
    ensures Reached(text, 0, p)
  {
    hide FeedAll;
    assert text[0..] == text;
    assert [] + Zeros(16) == Zeros(16);
  }

  lemma {:induction false} ReachedNext(text: string, i: nat, p: Parser)
    requires i < |text| && Reached(text, i, p)
    ensures Reached(text, i + 1, Feed(p, text[i], i + 1 == |text|))
  {
    hide Feed;
    assert text[i..][1..] == text[i + 1..];
  }

  lemma {:induction false} ReachedStop(text: string, i: nat, p: Parser)
    requires i <= |text| && Reached(text, i, p) && (!p.Going? || i == |text|)
    ensures Parse(text) == Finish(p)
  {
    if !p.Going? { FeedStopped(p, text[i..], false); }
  }

  /** The loop over the text, with the buffer and the counters updated in place. */
  method ParseInPlace(text: string) returns (r: Outcome)
    ensures r == Parse(text)
  {
    hide Reached;
    hide Parse;
    hide EndGroup;
    hide Digit;
    hide HexValue;
    hide IsHex;
    var buf := new byte[16](_ => 0);
    var byte: nat, nibble: nat, hex: nat, colons: nat, dcolon: nat := 0, 0, 0, 0, 0;
    var i := 0;
    assert buf[..] == Zeros(16);
    ReachedStart(text, Going(buf[..], byte, nibble, hex, colons, dcolon));
    while i < |text|
      invariant 0 <= i <= |text| && dcolon <= byte <= 16
      invariant Reached(text, i, Going(buf[..], byte, nibble, hex, colons, dcolon))
    {
      var c, last := text[i], i + 1 == |text|;
      ghost var p := Going(buf[..], byte, nibble, hex, colons, dcolon);
      ghost var q := Feed(p, c, last);
      ReachedNext(text, i, p);
      if !q.Going? { ReachedStop(text, i + 1, q); }
      if !(IsHex(c) || c == ':' || last) { return Refused; }
      if IsHex(c) {
        if byte >= 16 {
          NoRoom(p, HexValue(c));
          return Overflowed;
        }
        byte := DigitInPlace(buf, byte, nibble, HexValue(c));
        nibble := nibble + 1;
      }
      if c == ':' || last {
        var s, nextByte, nextDcolon := EndInPlace(buf, byte, nibble, hex, colons, dcolon, c == ':');
        if s.Stop? { return s.outcome; }
        byte, dcolon := nextByte, nextDcolon;
        hex := hex + 1;
        nibble := 4 * hex;
        if c == ':' { colons := colons + 1; }
      }
      i := i + 1;
    }
    ReachedStop(text, i, Going(buf[..], byte, nibble, hex, colons, dcolon));
    if colons < 2 { return Refused; }
    ShiftUp(buf, byte, dcolon);
    r := Address(buf[..]);
  }

  lemma NoRoom(p: Parser, d: nat)
    requires p.Going? && p.byte >= 16 && d < 16
    ensures Digit(p, d) == Overrun
  {}
}
