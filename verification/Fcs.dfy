/**
 The PPP frame check sequence: a table-free 16-bit CRC over the polynomial of
 Appendix C of RFC 1662, and the errors it is guaranteed to catch.

 Lemmas about whole words are proved from bit-vector identities; lemmas about whole
 buffers hide the bit-vector definitions and argue from those identities alone.
 */
module Fcs {

  type byte = bv8
  type word = bv16

  const INIT: word := 0xFFFF
  const GOOD: word := 0xF0B8

  /** One byte, by shifts and exclusive-ors. */
  function FcsChar(fcs: word, data: byte): word {
    var w := (fcs ^ (data as word)) & 0x00FF;
    var v := w ^ ((w << 4) & 0x00FF);
    (fcs >> 8) ^ ((v << 8) ^ (v << 3) ^ (v >> 4))
  }

  function FcsContinue(fcs: word, buf: seq<byte>): word {
    if buf == [] then fcs
    else FcsChar(FcsContinue(fcs, buf[..|buf| - 1]), buf[|buf| - 1])
  }

  function FcsFinish(fcs: word): word { fcs ^ 0xFFFF }

  function LowByte(fcs: word): byte { (fcs & 0x00FF) as byte }

  function HighByte(fcs: word): byte { ((fcs & 0xFF00) >> 8) as byte }

  /** The two check bytes that go out after `buf`. */
  function Trailer(buf: seq<byte>): (t: seq<byte>)
    ensures |t| == 2
  {
    var fcs := FcsFinish(FcsContinue(INIT, buf));
    [LowByte(fcs), HighByte(fcs)]
  }

  /** The receiver's test on everything between two flags. */
  predicate FcsVerify(buf: seq<byte>)
    requires |buf| >= 2
  {
    buf[|buf| - 2..] == Trailer(buf[..|buf| - 2])
  }

  /** The loop over the buffer computes the recursive definition. */
  method ComputeFcs(start: word, buf: array<byte>, from: nat, len: nat) returns (fcs: word)
    requires from + len <= buf.Length
    ensures fcs == FcsContinue(start, buf[from..from + len])
  {
    hide FcsChar;
    fcs := start;
    for pos := from to from + len
      invariant fcs == FcsContinue(start, buf[from..pos])
    {
      assert buf[from..pos + 1][..pos - from] == buf[from..pos];
      fcs := FcsChar(fcs, buf[pos]);
    }
  }

  // ---------- the byte step is the polynomial division ----------

  function Xor(a: word, b: word): word { a ^ b }

  function Wide(data: byte): word { data as word }

  /** One bit of the reflected division by x^16 + x^12 + x^5 + 1: the bit shifted out is
      fed back into positions 15, 10 and 3. */
  function BitStep(w: word): word {
    (w >> 1) ^ ((w & 1) << 15) ^ ((w & 1) << 10) ^ ((w & 1) << 3)
  }

  function BitSteps(w: word, n: nat): word
    decreases n
  {
    if n == 0 then w else BitSteps(BitStep(w), n - 1)
  }

  function NibbleStep(w: word): word {
    (w >> 4) ^ ((w & 0xF) << 12) ^ ((w & 0xF) << 7) ^ (w & 0xF)
  }

  lemma FourBits(w: word)
    ensures BitStep(BitStep(BitStep(BitStep(w)))) == NibbleStep(w)
  {}

  lemma NibbleSteps(w: word, n: nat)
    ensures BitSteps(w, n + 4) == BitSteps(NibbleStep(w), n)
  {
    hide BitStep;
    hide NibbleStep;
    FourBits(w);
    var a := BitStep(w);
    var b := BitStep(a);
    var c := BitStep(b);
    assert BitSteps(w, n + 4) == BitSteps(a, n + 3);
    assert BitSteps(a, n + 3) == BitSteps(b, n + 2);
    assert BitSteps(b, n + 2) == BitSteps(c, n + 1);
  }

  lemma NibblePair(w: word)
    ensures BitSteps(w, 8) == NibbleStep(NibbleStep(w))
  {
    hide NibbleStep;
    hide BitStep;
    NibbleSteps(w, 4);
    NibbleSteps(NibbleStep(w), 0);
  }

  lemma NibbleOne(fcs: word, data: byte)
    ensures FcsChar(fcs, data) & 0x000F == NibbleStep(NibbleStep(fcs ^ (data as word))) & 0x000F
  {}

  lemma NibbleTwo(fcs: word, data: byte)
    ensures FcsChar(fcs, data) & 0x00F0 == NibbleStep(NibbleStep(fcs ^ (data as word))) & 0x00F0
  {}

  lemma NibbleThree(fcs: word, data: byte)
    ensures FcsChar(fcs, data) & 0x0F00 == NibbleStep(NibbleStep(fcs ^ (data as word))) & 0x0F00
  {}

  lemma NibbleFour(fcs: word, data: byte)
    ensures FcsChar(fcs, data) & 0xF000 == NibbleStep(NibbleStep(fcs ^ (data as word))) & 0xF000
  {}

  lemma SameNibbles(a: word, b: word)
    requires a & 0x000F == b & 0x000F && a & 0x00F0 == b & 0x00F0
    requires a & 0x0F00 == b & 0x0F00 && a & 0xF000 == b & 0xF000
    ensures a == b
  {}

  lemma TwoNibbles(fcs: word, data: byte)
    ensures FcsChar(fcs, data) == NibbleStep(NibbleStep(fcs ^ (data as word)))
  {
    hide FcsChar;
    hide NibbleStep;
    NibbleOne(fcs, data);
    NibbleTwo(fcs, data);
    NibbleThree(fcs, data);
    NibbleFour(fcs, data);
    SameNibbles(FcsChar(fcs, data), NibbleStep(NibbleStep(fcs ^ (data as word))));
  }

  /** The byte step is exactly eight bits of division. */
  lemma ByteIsEightBits(fcs: word, data: byte)
    ensures FcsChar(fcs, data) == BitSteps(Xor(fcs, Wide(data)), 8)
  {
    hide FcsChar;
    hide NibbleStep;
    TwoNibbles(fcs, data);
    NibblePair(fcs ^ (data as word));
  }

  // ---------- bits in transmission order ----------

  function BitWord(b: bool): word { if b then 1 else 0 }

  function LowBit(w: word): bool { w & 1 == 1 }

  function Half(w: word): word { w >> 1 }

  /** The `n` low bits of a word, least significant first. */
  function BitsOf(w: word, n: nat): seq<bool>
    ensures |BitsOf(w, n)| == n
    decreases n
  {
    if n == 0 then [] else [LowBit(w)] + BitsOf(Half(w), n - 1)
  }

  function FrameBits(buf: seq<byte>): seq<bool>
    ensures |FrameBits(buf)| == 8 * |buf|
  {
    if buf == [] then []
    else FrameBits(buf[..|buf| - 1]) + BitsOf(Wide(buf[|buf| - 1]), 8)
  }

  /** One more bit of the dividend. */
  function FeedBit(fcs: word, b: bool): word {
    BitStep(Xor(fcs, BitWord(b)))
  }

  /** Division of a bit string. */
  function Feed(fcs: word, bits: seq<bool>): word
    decreases |bits|
  {
    if bits == [] then fcs else Feed(FeedBit(fcs, bits[0]), bits[1..])
  }

  lemma {:induction false} FeedConcat(fcs: word, a: seq<bool>, b: seq<bool>)
    ensures Feed(fcs, a + b) == Feed(Feed(fcs, a), b)
    decreases |a|
  {
    hide FeedBit;
    if a == [] {
      assert a + b == b;
    } else {
      assert (a + b)[1..] == a[1..] + b;
      FeedConcat(FeedBit(fcs, a[0]), a[1..], b);
    }
  }

  /** No bit is left after `n` shifts. */
  predicate Fits(w: word, n: nat)
    decreases n
  {
    if n == 0 then w == 0 else Fits(Half(w), n - 1)
  }

  lemma ByteFits(data: byte)
    ensures Fits(Wide(data), 8)
  {
    var w := Wide(data);
    var a := Half(Half(Half(Half(w))));
    assert Half(Half(Half(Half(a)))) == 0;
    assert Fits(a, 4) by { assert Fits(Half(Half(a)), 2); }
    assert Fits(Half(Half(w)), 6);
  }

  lemma SplitStep(fcs: word, w: word)
    ensures BitStep(fcs ^ w) == BitStep(fcs ^ (w & 1)) ^ (w >> 1)
  {}

  lemma LowBitWord(w: word)
    ensures BitWord(LowBit(w)) == w & 1
  {}

  lemma FeedLowBit(fcs: word, w: word)
    ensures BitStep(Xor(fcs, w)) == Xor(FeedBit(fcs, LowBit(w)), Half(w))
  {
    hide BitStep;
    hide LowBit;
    hide BitWord;
    SplitStep(fcs, w);
    LowBitWord(w);
  }

  lemma XorZero(w: word)
    ensures Xor(w, 0) == w
  {}

  lemma {:induction false} FeedWord(fcs: word, w: word, n: nat)
    requires Fits(w, n)
    ensures Feed(fcs, BitsOf(w, n)) == BitSteps(Xor(fcs, w), n)
    decreases n
  {
    hide BitStep;
    hide FeedBit;
    hide LowBit;
    hide Half;
    hide Xor;
    if n == 0 {
      XorZero(fcs);
    } else {
      FeedLowBit(fcs, w);
      FeedWord(FeedBit(fcs, LowBit(w)), Half(w), n - 1);
      assert BitsOf(w, n)[1..] == BitsOf(Half(w), n - 1);
    }
  }

  /** The checksum of a buffer is the division of its bits. */
  lemma {:induction false} ContinueIsFeed(fcs: word, buf: seq<byte>)
    ensures FcsContinue(fcs, buf) == Feed(fcs, FrameBits(buf))
  {
    hide FcsChar;
    hide FeedBit;
    hide Fits;
    hide Wide;
    hide Xor;
    hide BitSteps;
    hide BitsOf;
    if buf != [] {
      var front, last := buf[..|buf| - 1], buf[|buf| - 1];
      ContinueIsFeed(fcs, front);
      FeedConcat(fcs, FrameBits(front), BitsOf(Wide(last), 8));
      ByteFits(last);
      FeedWord(Feed(fcs, FrameBits(front)), Wide(last), 8);
      ByteIsEightBits(Feed(fcs, FrameBits(front)), last);
    }
  }

  // ---------- bijection ----------

  lemma BitStepInjective(x: word, y: word)
    requires BitStep(x) == BitStep(y)
    ensures x == y
  {}

  lemma XorCancels(x: word, y: word, w: word)
    requires Xor(x, w) == Xor(y, w)
    ensures x == y
  {}

  lemma {:induction false} BitStepsInjective(x: word, y: word, n: nat)
    requires BitSteps(x, n) == BitSteps(y, n)
    ensures x == y
    decreases n
  {
    hide BitStep;
    if n > 0 {
      BitStepsInjective(BitStep(x), BitStep(y), n - 1);
      BitStepInjective(x, y);
    }
  }

  /** For each byte, the byte step is a bijection on states. */
  lemma CharInjective(f: word, g: word, a: byte)
    requires FcsChar(f, a) == FcsChar(g, a)
    ensures f == g
  {
    hide FcsChar;
    hide BitSteps;
    hide Xor;
    ByteIsEightBits(f, a);
    ByteIsEightBits(g, a);
    BitStepsInjective(Xor(f, Wide(a)), Xor(g, Wide(a)), 8);
    XorCancels(f, g, Wide(a));
  }

  lemma FeedBitInjective(f: word, g: word, b: bool)
    requires FeedBit(f, b) == FeedBit(g, b)
    ensures f == g
  {
    hide BitStep;
    hide Xor;
    BitStepInjective(Xor(f, BitWord(b)), Xor(g, BitWord(b)));
    XorCancels(f, g, BitWord(b));
  }

  /** For fixed bits, different states stay different. */
  lemma {:induction false} FeedInjective(f: word, g: word, bits: seq<bool>)
    requires Feed(f, bits) == Feed(g, bits)
    ensures f == g
    decreases |bits|
  {
    hide FeedBit;
    if bits != [] {
      FeedInjective(FeedBit(f, bits[0]), FeedBit(g, bits[0]), bits[1..]);
      FeedBitInjective(f, g, bits[0]);
    }
  }

  lemma ContinueInjective(f: word, g: word, buf: seq<byte>)
    requires FcsContinue(f, buf) == FcsContinue(g, buf)
    ensures f == g
  {
    hide Feed;
    hide FcsContinue;
    hide FrameBits;
    ContinueIsFeed(f, buf);
    ContinueIsFeed(g, buf);
    FeedInjective(f, g, FrameBits(buf));
  }

  lemma {:induction false} ContinueConcat(fcs: word, a: seq<byte>, b: seq<byte>)
    ensures FcsContinue(fcs, a + b) == FcsContinue(FcsContinue(fcs, a), b)
  {
    hide FcsChar;
    if b == [] {
      assert a + b == a;
    } else {
      ContinueConcat(fcs, a, b[..|b| - 1]);
      assert (a + b)[..|a + b| - 1] == a + b[..|b| - 1];
    }
  }

  // ---------- what the receiver accepts ----------

  function Shift4(w: word): word { w << 4 }

  function JoinBytes(lo: byte, hi: byte): word {
    Xor(Wide(lo), Shift4(Shift4(Wide(hi))))
  }

  lemma {:induction false} BitStepsConcat(w: word, m: nat, n: nat)
    ensures BitSteps(w, m + n) == BitSteps(BitSteps(w, m), n)
    decreases m
  {
    hide BitStep;
    if m > 0 {
      BitStepsConcat(BitStep(w), m - 1, n);
    }
  }

  lemma HighNibble(w: word, h: word)
    requires h < 0x1000
    ensures NibbleStep(Xor(w, Shift4(h))) == Xor(NibbleStep(w), h)
  {}

  lemma XorAssociative(a: word, b: word, c: word)
    ensures Xor(a, Xor(b, c)) == Xor(Xor(a, b), c)
  {}

  lemma WideBound(data: byte)
    ensures Wide(data) < 0x1000 && Shift4(Wide(data)) < 0x1000
  {}

  /** A second byte enters where the first one's eight shifts leave room for it. */
  lemma HighByteLater(w: word, h: word)
    requires h < 0x1000 && Shift4(h) < 0x1000
    ensures BitSteps(Xor(w, Shift4(Shift4(h))), 8) == Xor(BitSteps(w, 8), h)
  {
    hide BitSteps;
    hide NibbleStep;
    hide Xor;
    hide Shift4;
    NibblePair(w);
    NibblePair(Xor(w, Shift4(Shift4(h))));
    HighNibble(w, Shift4(h));
    HighNibble(NibbleStep(w), h);
  }

  lemma TwoBytes(fcs: word, lo: byte, hi: byte)
    ensures FcsChar(FcsChar(fcs, lo), hi) == BitSteps(Xor(fcs, JoinBytes(lo, hi)), 16)
  {
    hide FcsChar;
    hide BitSteps;
    hide Xor;
    hide Wide;
    hide Shift4;
    XorAssociative(fcs, Wide(lo), Shift4(Shift4(Wide(hi))));
    WideBound(hi);
    ByteIsEightBits(fcs, lo);
    ByteIsEightBits(FcsChar(fcs, lo), hi);
    BitStepsConcat(Xor(fcs, JoinBytes(lo, hi)), 8, 8);
    HighByteLater(Xor(fcs, Wide(lo)), Wide(hi));
  }

  lemma JoinOf(w: word)
    ensures JoinBytes(LowByte(w), HighByte(w)) == w
  {}

  lemma SplitOf(lo: byte, hi: byte)
    ensures LowByte(JoinBytes(lo, hi)) == lo && HighByte(JoinBytes(lo, hi)) == hi
  {}

  lemma Complement(f: word, w: word)
    ensures Xor(f, w) == 0xFFFF <==> w == FcsFinish(f)
  {
    FinishIsXor(f);
    hide Xor;
    hide FcsFinish;
    XorInvolution(f, w);
    XorInvolution(f, 0xFFFF);
  }

  lemma FinishIsXor(f: word)
    ensures FcsFinish(f) == Xor(f, 0xFFFF)
  {}

  lemma XorInvolution(f: word, w: word)
    ensures Xor(f, Xor(f, w)) == w
  {}

  lemma Remainder()
    ensures BitSteps(0xFFFF, 16) == GOOD
  {
    NibbleSteps(0xFFFF, 12);
    NibbleSteps(NibbleStep(0xFFFF), 8);
    NibbleSteps(NibbleStep(NibbleStep(0xFFFF)), 4);
    NibbleSteps(NibbleStep(NibbleStep(NibbleStep(0xFFFF))), 0);
  }

  lemma TrailerUnique(f: word, lo: byte, hi: byte)
    ensures FcsChar(FcsChar(f, lo), hi) == GOOD <==>
            lo == LowByte(FcsFinish(f)) && hi == HighByte(FcsFinish(f))
  {
    hide FcsChar;
    hide BitSteps;
    hide JoinBytes;
    hide LowByte;
    hide HighByte;
    hide FcsFinish;
    hide Xor;
    TwoBytes(f, lo, hi);
    Remainder();
    if BitSteps(Xor(f, JoinBytes(lo, hi)), 16) == GOOD {
      BitStepsInjective(Xor(f, JoinBytes(lo, hi)), 0xFFFF, 16);
    }
    Complement(f, JoinBytes(lo, hi));
    JoinOf(FcsFinish(f));
    SplitOf(lo, hi);
  }

  lemma VerifyReads(buf: seq<byte>)
    requires |buf| >= 2
    ensures var n, fcs := |buf| - 2, FcsFinish(FcsContinue(INIT, buf[..|buf| - 2]));
            FcsVerify(buf) <==> buf[n] == LowByte(fcs) && buf[n + 1] == HighByte(fcs)
  {
    hide FcsContinue;
    hide LowByte;
    hide HighByte;
    hide FcsFinish;
    var n := |buf| - 2;
    assert buf[n..] == [buf[n], buf[n + 1]];
  }

  /** A frame passes exactly when dividing all of it, check bytes included, leaves the
      fixed remainder. */
  lemma VerifyIsResidue(buf: seq<byte>)
    requires |buf| >= 2
    ensures FcsVerify(buf) <==> FcsContinue(INIT, buf) == GOOD
  {
    hide FcsChar;
    hide LowByte;
    hide HighByte;
    hide FcsFinish;
    hide FcsVerify;
    var n := |buf| - 2;
    var body, lo, hi := buf[..n], buf[n], buf[n + 1];
    VerifyReads(buf);
    TrailerUnique(FcsContinue(INIT, body), lo, hi);
    assert buf[..|buf| - 1][..n] == body;
    assert FcsContinue(INIT, buf[..|buf| - 1]) == FcsChar(FcsContinue(INIT, body), lo);
  }

  /** Appending the trailer always yields a frame that passes. */
  lemma TrailerVerifies(body: seq<byte>)
    ensures FcsVerify(body + Trailer(body))
  {
    hide Trailer;
    var buf := body + Trailer(body);
    assert buf[..|buf| - 2] == body && buf[|buf| - 2..] == Trailer(body);
  }

  // ---------- bursts of up to sixteen bits ----------

  lemma XorBitWords(a: bool, b: bool)
    ensures Xor(BitWord(a), BitWord(b)) == BitWord(a != b)
  {}

  lemma XorExchange(x: word, a: word, y: word, b: word)
    ensures Xor(Xor(x, a), Xor(y, b)) == Xor(Xor(x, y), Xor(a, b))
  {
    hide Xor;
    XorAssociative(x, a, Xor(y, b));
    XorAssociative(a, y, b);
    XorCommutative(a, y);
    XorAssociative(y, a, b);
    XorAssociative(x, y, Xor(a, b));
  }

  lemma XorCommutative(a: word, b: word)
    ensures Xor(a, b) == Xor(b, a)
  {}

  lemma BitStepLinear(x: word, y: word)
    ensures BitStep(Xor(x, y)) == Xor(BitStep(x), BitStep(y))
  {}

  lemma DifferenceStep(x: word, y: word, a: bool, b: bool)
    ensures Xor(FeedBit(x, a), FeedBit(y, b)) == FeedBit(Xor(x, y), a != b)
  {
    hide BitStep;
    hide Xor;
    hide BitWord;
    BitStepLinear(Xor(x, BitWord(a)), Xor(y, BitWord(b)));
    XorExchange(x, BitWord(a), y, BitWord(b));
    XorBitWords(a, b);
  }

  /** The difference `d` reaches at least up to the single bit `t`. */
  predicate Reaches(d: word, t: word) { d >= t && t <= 0x8000 }

  /** One bit later it reaches at least half as far: a bit that drops out at the bottom is
      fed back in at the top. */
  lemma ReachesHalf(d: word, b: bool, t: word)
    requires Reaches(d, t)
    ensures Reaches(FeedBit(d, b), Half(t))
  {}

  /** `t` survives `n` halvings. */
  predicate Survives(t: word, n: nat)
    decreases n
  {
    if n == 0 then t != 0 else Survives(Half(t), n - 1)
  }

  lemma {:induction false} StaysDifferent(x: word, y: word, u: seq<bool>, v: seq<bool>, t: word)
    requires |u| == |v| && Reaches(Xor(x, y), t) && Survives(t, |u|)
    ensures Feed(x, u) != Feed(y, v)
    decreases |u|
  {
    hide FeedBit;
    hide Half;
    hide Xor;
    hide Reaches;
    if u == [] {
      DifferentWords(x, y, t);
    } else {
      DifferenceStep(x, y, u[0], v[0]);
      ReachesHalf(Xor(x, y), u[0] != v[0], t);
      StaysDifferent(FeedBit(x, u[0]), FeedBit(y, v[0]), u[1..], v[1..], Half(t));
    }
  }

  lemma DifferentWords(x: word, y: word, t: word)
    requires Reaches(Xor(x, y), t) && t != 0
    ensures x != y
  {
    XorSelf(x, y);
  }

  lemma XorSelf(x: word, y: word)
    ensures x == y ==> Xor(x, y) == 0
  {}

  lemma FirstDifference(x: word, a: bool, b: bool)
    requires a != b
    ensures Reaches(Xor(FeedBit(x, a), FeedBit(x, b)), 0x8000)
  {
    hide FeedBit;
    hide Xor;
    hide Reaches;
    DifferenceStep(x, x, a, b);
    XorSelf(x, x);
    OneBit();
  }

  lemma OneBit()
    ensures Reaches(FeedBit(0, true), 0x8000)
  {}

  lemma {:induction false} SurvivesLess(t: word, m: nat, n: nat)
    requires m <= n && Survives(t, n)
    ensures Survives(t, m)
    decreases n
  {
    hide Half;
    if m == 0 {
      if n > 0 {
        SurvivesLess(Half(t), 0, n - 1);
        HalfPositive(t);
      }
    } else {
      SurvivesLess(Half(t), m - 1, n - 1);
    }
  }

  lemma HalfPositive(t: word)
    requires Half(t) != 0
    ensures t != 0
  {}

  lemma FifteenHalvings(n: nat)
    requires n <= 15
    ensures Survives(0x8000, n)
  {
    assert Survives(0x0010, 4) by { assert Survives(0x0004, 2); }
    assert Survives(0x0100, 8) by { assert Survives(0x0040, 6); }
    assert Survives(0x1000, 12) by { assert Survives(0x0400, 10); }
    assert Survives(0x8000, 15) by { assert Survives(0x2000, 13); }
    SurvivesLess(0x8000, n, 15);
  }

  /** From one state, different strings of up to sixteen bits lead to different states. */
  lemma {:induction false} BurstSeparates(x: word, u: seq<bool>, v: seq<bool>)
    requires |u| == |v| <= 16 && u != v
    ensures Feed(x, u) != Feed(x, v)
    decreases |u|
  {
    hide FeedBit;
    hide Xor;
    hide Survives;
    hide Reaches;
    if u[0] == v[0] {
      assert u == [u[0]] + u[1..] && v == [v[0]] + v[1..];
      BurstSeparates(FeedBit(x, u[0]), u[1..], v[1..]);
    } else {
      FirstDifference(x, u[0], v[0]);
      FifteenHalvings(|u| - 1);
      StaysDifferent(FeedBit(x, u[0]), FeedBit(x, v[0]), u[1..], v[1..], 0x8000);
    }
  }

  /** Two frames of one length whose bits differ, but only within sixteen consecutive bit
      positions, are never both accepted: damage of that kind to a valid frame of any
      length, check bytes included, is always noticed. */
  lemma BurstDetected(x: seq<byte>, y: seq<byte>, i: nat, j: nat)
    requires |x| == |y| >= 2 && i <= j <= i + 16 && j <= 8 * |x|
    requires FrameBits(x) != FrameBits(y)
    requires FrameBits(x)[..i] == FrameBits(y)[..i] && FrameBits(x)[j..] == FrameBits(y)[j..]
    ensures !(FcsVerify(x) && FcsVerify(y))
  {
    hide FcsContinue;
    hide FcsVerify;
    hide Feed;
    hide FrameBits;
    if FcsVerify(x) && FcsVerify(y) {
      var p, q := FrameBits(x), FrameBits(y);
      ResidueOfBits(x);
      ResidueOfBits(y);
      var s := Feed(INIT, p[..i]);
      SplitFeed(p, i, j);
      SplitFeed(q, i, j);
      FeedInjective(Feed(s, p[i..j]), Feed(s, q[i..j]), p[j..]);
      assert p == p[..i] + p[i..j] + p[j..] && q == q[..i] + q[i..j] + q[j..];
      BurstSeparates(s, p[i..j], q[i..j]);
    }
  }

  lemma SameHalves(a: word, b: word)
    requires Half(a) == Half(b) && LowBit(a) == LowBit(b)
    ensures a == b
  {}

  lemma {:induction false} BitsInjective(a: word, b: word, n: nat)
    requires Fits(a, n) && Fits(b, n) && BitsOf(a, n) == BitsOf(b, n)
    ensures a == b
    decreases n
  {
    if n > 0 {
      assert BitsOf(a, n)[1..] == BitsOf(Half(a), n - 1) && BitsOf(b, n)[1..] == BitsOf(Half(b), n - 1);
      assert BitsOf(a, n)[0] == LowBit(a) && BitsOf(b, n)[0] == LowBit(b);
      hide LowBit;
      hide Half;
      BitsInjective(Half(a), Half(b), n - 1);
      SameHalves(a, b);
    }
  }

  lemma WideInjective(a: byte, b: byte)
    requires Wide(a) == Wide(b)
    ensures a == b
  {}

  lemma ByteBitsInjective(a: byte, b: byte)
    requires BitsOf(Wide(a), 8) == BitsOf(Wide(b), 8)
    ensures a == b
  {
    hide BitsOf;
    hide Wide;
    hide Fits;
    ByteFits(a);
    ByteFits(b);
    BitsInjective(Wide(a), Wide(b), 8);
    WideInjective(a, b);
  }

  lemma {:induction false} FrameBitsLast(x: seq<byte>)
    requires x != []
    ensures var n := |x| - 1;
            FrameBits(x)[..8 * n] == FrameBits(x[..n]) && FrameBits(x)[8 * n..] == BitsOf(Wide(x[n]), 8)
  {
    hide BitsOf;
    hide Wide;
  }

  lemma SameFront(x: seq<byte>, y: seq<byte>, n: nat)
    requires |x| == |y| == n + 1 && x[..n] == y[..n] && x[n] == y[n]
    ensures x == y
  {
    assert x == x[..n] + [x[n]] && y == y[..n] + [y[n]];
  }

  lemma {:induction false} FrameBitsApart(x: seq<byte>, y: seq<byte>)
    requires |x| == |y| > 0 && FrameBits(x) == FrameBits(y)
    ensures var n := |x| - 1; FrameBits(x[..n]) == FrameBits(y[..n]) && BitsOf(Wide(x[n]), 8) == BitsOf(Wide(y[n]), 8)
  {
    hide BitsOf;
    hide Wide;
    hide FrameBits;
    FrameBitsLast(x);
    FrameBitsLast(y);
  }

  /** Different frames have different bits. */
  lemma {:induction false} FrameBitsInjective(x: seq<byte>, y: seq<byte>)
    requires |x| == |y| && FrameBits(x) == FrameBits(y)
    ensures x == y
  {
    hide BitsOf;
    hide Wide;
    hide FrameBits;
    if x != [] {
      var n := |x| - 1;
      FrameBitsApart(x, y);
      FrameBitsInjective(x[..n], y[..n]);
      ByteBitsInjective(x[n], y[n]);
      SameFront(x, y, n);
    }
  }

  lemma {:induction false} FrameBitsConcat(a: seq<byte>, b: seq<byte>)
    ensures FrameBits(a + b) == FrameBits(a) + FrameBits(b)
  {
    hide BitsOf;
    if b == [] {
      assert a + b == a;
    } else {
      var front := b[..|b| - 1];
      assert (a + b)[..|a + b| - 1] == a + front;
      FrameBitsConcat(a, front);
    }
  }

  /** Damage to one byte or to two adjacent bytes of a valid frame, check bytes included, is
      always noticed. */
  lemma TwoBytesDetected(x: seq<byte>, y: seq<byte>, k: nat)
    requires |x| == |y| && k + 2 <= |x| && x != y
    requires x[..k] == y[..k] && x[k + 2..] == y[k + 2..]
    ensures !(FcsVerify(x) && FcsVerify(y))
  {
    hide FcsVerify;
    hide FrameBits;
    SplitBits(x, k);
    SplitBits(y, k);
    if FrameBits(x) == FrameBits(y) { FrameBitsInjective(x, y); }
    BurstDetected(x, y, 8 * k, 8 * k + 16);
  }

  lemma SplitBits(x: seq<byte>, k: nat)
    requires k + 2 <= |x|
    ensures FrameBits(x)[..8 * k] == FrameBits(x[..k]) && FrameBits(x)[8 * k + 16..] == FrameBits(x[k + 2..])
  {
    hide FrameBits;
    FrameBitsConcat(x[..k], x[k..]);
    assert x == x[..k] + x[k..];
    FrameBitsConcat(x[..k + 2], x[k + 2..]);
    assert x == x[..k + 2] + x[k + 2..];
  }

  lemma ResidueOfBits(x: seq<byte>)
    requires |x| >= 2
    ensures FcsVerify(x) <==> Feed(INIT, FrameBits(x)) == GOOD
  {
    hide FcsContinue;
    hide FcsVerify;
    hide Feed;
    hide FrameBits;
    VerifyIsResidue(x);
    ContinueIsFeed(INIT, x);
  }

  lemma SplitFeed(p: seq<bool>, i: nat, j: nat)
    requires i <= j <= |p|
    ensures Feed(INIT, p) == Feed(Feed(Feed(INIT, p[..i]), p[i..j]), p[j..])
  {
    hide Feed;
    FeedConcat(INIT, p[..i], p[i..j]);
    assert p[..i] + p[i..j] == p[..j];
    FeedConcat(INIT, p[..j], p[j..]);
    assert p[..j] + p[j..] == p;
  }

  // ---------- any odd number of flipped bits ----------

  /** Whether an odd number of the `n` low bits is set. */
  function Parity(w: word, n: nat): bool
    decreases n
  {
    if n == 0 then false else LowBit(w) != Parity(Half(w), n - 1)
  }

  function ParityOf(bits: seq<bool>): bool {
    if bits == [] then false else bits[0] != ParityOf(bits[1..])
  }

  lemma XorBits(x: word, y: word)
    ensures LowBit(Xor(x, y)) == (LowBit(x) != LowBit(y))
    ensures Half(Xor(x, y)) == Xor(Half(x), Half(y))
  {
    assert (x ^ y) & 1 == (x & 1) ^ (y & 1);
  }

  lemma {:induction false} ParityLinear(x: word, y: word, n: nat)
    ensures Parity(Xor(x, y), n) == (Parity(x, n) != Parity(y, n))
    decreases n
  {
    hide Xor;
    hide Half;
    hide LowBit;
    if n > 0 {
      XorBits(x, y);
      ParityLinear(Half(x), Half(y), n - 1);
    }
  }

  lemma {:induction false} ParityBeyond(w: word, m: nat, n: nat)
    requires Fits(w, m) && m <= n
    ensures Parity(w, n) == Parity(w, m)
    decreases n
  {
    hide Half;
    hide LowBit;
    if m > 0 {
      ParityBeyond(Half(w), m - 1, n - 1);
    } else if n > 0 {
      ZeroBits();
      ParityBeyond(0, 0, n - 1);
    }
  }

  lemma ZeroBits()
    ensures !LowBit(0) && Half(0) == 0
  {}

  /** The taps of the feedback. */
  function Taps(b: bool): word { if b then 0x8408 else 0 }

  lemma BitStepTaps(w: word)
    ensures BitStep(w) == Xor(Half(w), Taps(LowBit(w)))
  {
    if LowBit(w) {
      assert w & 1 == 1;
    } else {
      assert w & 1 == 0;
    }
  }

  lemma HalfFits(w: word)
    ensures Fits(Half(w), 15)
  {
    var a := Half(Half(Half(Half(w))));
    var b := Half(Half(Half(Half(a))));
    var c := Half(Half(Half(Half(b))));
    assert Half(Half(Half(Half(c)))) == 0;
    assert Fits(c, 4) by { assert Fits(Half(Half(c)), 2); }
    assert Fits(b, 8) by { assert Fits(Half(Half(b)), 6); }
    assert Fits(a, 12) by { assert Fits(Half(Half(a)), 10); }
    assert Fits(Half(Half(Half(w))), 13);
    assert Fits(Half(Half(w)), 14);
  }

  lemma TapsParity(b: bool)
    ensures Parity(Taps(b), 16) == b
  {
    hide Parity;
    if b {
      OddTaps();
    } else {
      ParityBeyond(0, 0, 16);
      assert !Parity(0, 0) by { EmptyParity(0); }
    }
  }

  lemma EmptyParity(w: word)
    ensures !Parity(w, 0)
  {}

  lemma OddTaps()
    ensures Parity(0x8408, 16)
  {
    assert Parity(0x8, 4) by { assert Parity(0x2, 2); }
    assert Parity(0x84, 8) == !Parity(0x8, 4) by { assert Parity(0x21, 6) == !Parity(0x8, 4); }
    assert Parity(0x840, 12) == Parity(0x84, 8) by { assert Parity(0x210, 10) == Parity(0x84, 8); }
    assert Parity(0x1081, 13) == !Parity(0x840, 12);
    assert Parity(0x2102, 14) == Parity(0x1081, 13);
  }

  /** A division step keeps the parity of the state. */
  lemma BitStepParity(w: word)
    ensures Parity(BitStep(w), 16) == Parity(w, 16)
  {
    hide BitStep;
    hide Xor;
    hide Half;
    hide LowBit;
    hide Taps;
    BitStepTaps(w);
    ParityLinear(Half(w), Taps(LowBit(w)), 16);
    TapsParity(LowBit(w));
    HalfFits(w);
    ParityBeyond(Half(w), 15, 16);
  }

  lemma {:induction false} FeedParity(fcs: word, bits: seq<bool>)
    ensures Parity(Feed(fcs, bits), 16) == (Parity(fcs, 16) != ParityOf(bits))
    decreases |bits|
  {
    hide FeedBit;
    hide Parity;
    if bits != [] {
      FeedBitParity(fcs, bits[0]);
      FeedParity(FeedBit(fcs, bits[0]), bits[1..]);
    }
  }

  lemma FeedBitParity(fcs: word, b: bool)
    ensures Parity(FeedBit(fcs, b), 16) == (Parity(fcs, 16) != b)
  {
    hide BitStep;
    hide Xor;
    hide Parity;
    hide BitWord;
    BitStepParity(Xor(fcs, BitWord(b)));
    ParityLinear(fcs, BitWord(b), 16);
    BitWordParity(b);
  }

  lemma BitWordParity(b: bool)
    ensures Parity(BitWord(b), 16) == b
  {
    assert LowBit(BitWord(b)) == b && Half(BitWord(b)) == 0;
    ParityBeyond(0, 0, 15);
  }

  /** Whether `p` and `q` differ in an odd number of positions. */
  function OddlyDifferent(p: seq<bool>, q: seq<bool>): bool
    requires |p| == |q|
  {
    if p == [] then false else (p[0] != q[0]) != OddlyDifferent(p[1..], q[1..])
  }

  lemma {:induction false} OddDifferenceParity(p: seq<bool>, q: seq<bool>)
    requires |p| == |q|
    ensures OddlyDifferent(p, q) == (ParityOf(p) != ParityOf(q))
  {
    if p != [] {
      OddDifferenceParity(p[1..], q[1..]);
    }
  }

  /** Two frames that differ in an odd number of bits are never both accepted. */
  lemma OddErrorsDetected(x: seq<byte>, y: seq<byte>)
    requires |x| == |y| >= 2 && OddlyDifferent(FrameBits(x), FrameBits(y))
    ensures !(FcsVerify(x) && FcsVerify(y))
  {
    hide FcsVerify;
    hide Feed;
    hide FrameBits;
    hide Parity;
    ResidueOfBits(x);
    ResidueOfBits(y);
    FeedParity(INIT, FrameBits(x));
    FeedParity(INIT, FrameBits(y));
    OddDifferenceParity(FrameBits(x), FrameBits(y));
  }
}
