/** Bytes added in front of a frame, and the start value of the frame check sequence that is
    there to notice them. */
module FcsPeriod {
  import opened Fcs

  // ---------- linear maps of states ----------

  function Pick(b: bool, image: word): word { if b then image else 0 }

  /** The map that takes the i-th lowest bit to the i-th image. */
  function Lin(images: seq<word>, w: word): word
    decreases |images|
  {
    if images == [] then 0 else Xor(Pick(LowBit(w), images[0]), Lin(images[1..], Half(w)))
  }

  function Stepped(images: seq<word>, d: nat): (r: seq<word>)
    ensures |r| == |images|
  {
    seq(|images|, i requires 0 <= i < |images| => BitSteps(images[i], d))
  }

  lemma PickXor(a: bool, b: bool, image: word)
    ensures Pick(a != b, image) == Xor(Pick(a, image), Pick(b, image))
  {
    XorSelf(image, image);
    XorZero(image);
    XorZero(0);
    XorCommutative(0, image);
    hide Xor;
  }

  lemma LowXor(a: word, b: word)
    ensures LowBit(Xor(a, b)) <==> LowBit(a) != LowBit(b)
  {}

  lemma HalfXor(a: word, b: word)
    ensures Half(Xor(a, b)) == Xor(Half(a), Half(b))
  {}

  lemma {:induction false} LinXor(images: seq<word>, a: word, b: word)
    ensures Lin(images, Xor(a, b)) == Xor(Lin(images, a), Lin(images, b))
    decreases |images|
  {
    hide Xor;
    hide LowBit;
    hide Half;
    hide Pick;
    if images == [] {
      XorZero(0);
    } else {
      LowXor(a, b);
      HalfXor(a, b);
      PickXor(LowBit(a), LowBit(b), images[0]);
      LinXor(images[1..], Half(a), Half(b));
      XorExchange(Pick(LowBit(a), images[0]), Lin(images[1..], Half(a)),
                  Pick(LowBit(b), images[0]), Lin(images[1..], Half(b)));
      XorExchange(Pick(LowBit(a), images[0]), Pick(LowBit(b), images[0]),
                  Lin(images[1..], Half(a)), Lin(images[1..], Half(b)));
    }
  }

  lemma {:induction false} StepsLinear(x: word, y: word, d: nat)
    ensures BitSteps(Xor(x, y), d) == Xor(BitSteps(x, d), BitSteps(y, d))
    decreases d
  {
    hide Xor;
    hide BitStep;
    if d > 0 {
      BitStepLinear(x, y);
      StepsLinear(BitStep(x), BitStep(y), d - 1);
    }
  }

  lemma {:induction false} StepsZero(d: nat)
    ensures BitSteps(0, d) == 0
  {
    if d > 0 {
      assert BitStep(0) == 0;
      StepsZero(d - 1);
    }
  }

  lemma {:induction false} LinSteps(images: seq<word>, w: word, d: nat)
    ensures BitSteps(Lin(images, w), d) == Lin(Stepped(images, d), w)
    decreases |images|
  {
    hide Xor;
    hide LowBit;
    hide Half;
    hide BitSteps;
    StepsZero(d);
    if images != [] {
      StepsLinear(Pick(LowBit(w), images[0]), Lin(images[1..], Half(w)), d);
      LinSteps(images[1..], Half(w), d);
      assert Stepped(images, d)[1..] == Stepped(images[1..], d);
    }
  }

  lemma {:induction false} LinNothing(images: seq<word>)
    ensures Lin(images, 0) == 0
    decreases |images|
  {
    if images != [] {
      assert Half(0) == 0 && !LowBit(0);
      LinNothing(images[1..]);
      XorZero(0);
    }
  }

  /** Images of bits that are not there play no part. */
  lemma {:induction false} LinFits(images: seq<word>, more: seq<word>, w: word)
    requires Fits(w, |images|)
    ensures Lin(images + more, w) == Lin(images, w)
    decreases |images|
  {
    hide Half;
    hide LowBit;
    hide Xor;
    if images == [] {
      assert [] + more == more;
      LinNothing(more);
    } else {
      assert (images + more)[1..] == images[1..] + more;
      LinFits(images[1..], more, Half(w));
    }
  }

  const FEEDBACK: word := 0x8408

  lemma StepParts(w: word)
    ensures BitStep(w) == Xor(Half(w), Pick(LowBit(w), FEEDBACK))
  {}

  lemma WordFits(w: word)
    ensures Fits(Half(w), 15)
  {
    var a := Half(Half(Half(Half(w))));
    var b := Half(Half(Half(Half(a))));
    var c := Half(Half(Half(Half(b))));
    assert Half(Half(Half(Half(c)))) == 0;
    assert Fits(c, 4) by { assert Fits(Half(Half(c)), 2); }
    assert Fits(Half(Half(b)), 6);
    assert Fits(b, 8);
    assert Fits(Half(Half(a)), 10);
    assert Fits(a, 12);
    assert Fits(Half(Half(w)), 14);
  }

  /** A map that turns one step into d steps on the images does so on every state. */
  lemma {:induction false} Commutes(images: seq<word>, d: nat, w: word)
    requires |images| == 16 && Stepped(images, d) == [Lin(images, FEEDBACK)] + images[..15]
    ensures Lin(images, BitStep(w)) == BitSteps(Lin(images, w), d)
  {
    hide Xor;
    hide Half;
    hide LowBit;
    hide BitStep;
    hide BitSteps;
    hide Stepped;
    var low := Pick(LowBit(w), FEEDBACK);
    StepParts(w);
    LinXor(images, Half(w), low);
    WordFits(w);
    assert images == images[..15] + images[15..];
    LinFits(images[..15], images[15..], Half(w));
    LinNothing(images);
    LinSteps(images, w, d);
    var moved := [Lin(images, FEEDBACK)] + images[..15];
    assert moved[1..] == images[..15];
    XorCommutative(Lin(images, Half(w)), Lin(images, low));
    assert Lin(moved, w) == Xor(Pick(LowBit(w), Lin(images, FEEDBACK)), Lin(images[..15], Half(w)));
  }

  // ---------- powers of x, and the state after so many zero bits ----------

  const ONE: word := 0x8000

  /** The image of each power of x under squaring, the fifteenth first. */
  function Squares(): (r: seq<word>)
    ensures |r| == 16
  {
    [0x33B0, 0xCEC0, 0x2333, 0x8CCC, 0x2312, 0x8C48, 0x2102, 0x8408,
     0x0002, 0x0008, 0x0020, 0x0080, 0x0200, 0x0800, 0x2000, 0x8000]
  }

  /** And under multiplication with the start value. */
  function Starts(): (r: seq<word>)
    ensures |r| == 16
  {
    [0xE961, 0xDAD3, 0xBDB7, 0x737F, 0xE6FE, 0xC5ED, 0x83CB, 0x0F87,
     0x1F0E, 0x3E1C, 0x7C38, 0xF870, 0xF8F1, 0xF9F3, 0xFBF7, 0xFFFF]
  }

  function Quad(images: seq<word>, k: nat, w: word): word
    requires k + 4 <= |images|
  {
    Xor(Pick(w & 1 != 0, images[k]), Xor(Pick(w & 2 != 0, images[k + 1]),
        Xor(Pick(w & 4 != 0, images[k + 2]), Pick(w & 8 != 0, images[k + 3]))))
  }

  function Value(images: seq<word>, w: word): word
    requires |images| == 16
  {
    Xor(Quad(images, 0, w), Xor(Quad(images, 4, w >> 4), Xor(Quad(images, 8, w >> 8), Quad(images, 12, w >> 12))))
  }

  lemma LinFour(images: seq<word>, k: nat, w: word)
    requires k + 4 <= |images|
    ensures Lin(images[k..], w) == Xor(Quad(images, k, w), Lin(images[k + 4..], w >> 4))
  {
    FourLowBits(w);
    hide LowBit;
    hide Xor;
    hide Half;
    var a := Half(w);
    var b := Half(a);
    var c := Half(b);
    assert images[k..][1..] == images[k + 1..] && images[k + 1..][1..] == images[k + 2..];
    assert images[k + 2..][1..] == images[k + 3..] && images[k + 3..][1..] == images[k + 4..];
    var p0, p1 := Pick(LowBit(w), images[k]), Pick(LowBit(a), images[k + 1]);
    var p2, p3 := Pick(LowBit(b), images[k + 2]), Pick(LowBit(c), images[k + 3]);
    var rest := Lin(images[k + 4..], Half(c));
    assert Lin(images[k + 3..], c) == Xor(p3, rest);
    assert Lin(images[k + 2..], b) == Xor(p2, Lin(images[k + 3..], c));
    assert Lin(images[k + 1..], a) == Xor(p1, Lin(images[k + 2..], b));
    XorAssociative(p2, p3, rest);
    XorAssociative(p1, Xor(p2, p3), rest);
    XorAssociative(p0, Xor(p1, Xor(p2, p3)), rest);
  }

  lemma FourLowBits(w: word)
    ensures (LowBit(w) <==> w & 1 != 0) && (LowBit(Half(w)) <==> w & 2 != 0)
    ensures (LowBit(Half(Half(w))) <==> w & 4 != 0) && (LowBit(Half(Half(Half(w)))) <==> w & 8 != 0)
    ensures Half(Half(Half(Half(w)))) == w >> 4
  {}

  lemma LinValue(images: seq<word>, w: word)
    requires |images| == 16
    ensures Lin(images, w) == Value(images, w)
  {
    hide Xor;
    hide Quad;
    assert images[0..] == images && images[16..] == [];
    LinFour(images, 0, w);
    LinFour(images, 4, w >> 4);
    LinFour(images, 8, w >> 8);
    LinFour(images, 12, w >> 12);
    Shifts(w);
    XorZero(Quad(images, 12, w >> 12));
    assert Lin(images[16..], w >> 16) == 0;
  }

  lemma Shifts(w: word)
    ensures (w >> 4) >> 4 == w >> 8 && (w >> 8) >> 4 == w >> 12 && (w >> 12) >> 4 == 0
  {}

  lemma TwoSteps(w: word)
    ensures BitSteps(w, 1) == BitStep(w) && BitSteps(w, 2) == BitStep(BitStep(w))
  {
    hide BitStep;
    assert BitSteps(BitStep(w), 0) == BitStep(w);
    assert BitSteps(BitStep(w), 1) == BitSteps(BitStep(BitStep(w)), 0);
  }

  /** Each image is stepped to the one before it. */
  lemma ImagesStep(i: nat)
    requires 0 < i < 16
    ensures BitStep(BitStep(Squares()[i])) == Squares()[i - 1] && BitStep(Starts()[i]) == Starts()[i - 1]
  {
    match i
    case 1 => case 2 => case 3 => case 4 => case 5 => case 6 => case 7 => case 8 =>
    case 9 => case 10 => case 11 => case 12 => case 13 => case 14 => case 15 =>
  }

  lemma FirstImages()
    ensures Value(Squares(), FEEDBACK) == BitStep(BitStep(Squares()[0])) && Value(Squares(), ONE) == ONE
    ensures Value(Starts(), FEEDBACK) == BitStep(Starts()[0]) && Value(Starts(), ONE) == INIT
  {}

  lemma StepsShift(images: seq<word>, d: nat, first: word)
    requires |images| == 16 && BitSteps(images[0], d) == first
    requires forall i :: 0 < i < 16 ==> BitSteps(images[i], d) == images[i - 1]
    ensures Stepped(images, d) == [first] + images[..15]
  {
    hide BitSteps;
  }

  /** Squaring turns one step into two. */
  lemma SquareStep(w: word)
    ensures Lin(Squares(), BitStep(w)) == BitStep(BitStep(Lin(Squares(), w)))
  {
    hide Lin;
    hide BitStep;
    hide BitSteps;
    hide Stepped;
    var images := Squares();
    LinValue(images, FEEDBACK);
    FirstImages();
    hide Squares;
    hide Value;
    forall i | 0 < i < 16 ensures BitSteps(images[i], 2) == images[i - 1] {
      TwoSteps(images[i]);
      ImagesStep(i);
    }
    TwoSteps(images[0]);
    StepsShift(images, 2, Lin(images, FEEDBACK));
    Commutes(images, 2, w);
    TwoSteps(Lin(images, w));
  }

  /** Multiplication with the start value keeps a step a step. */
  lemma StartStep(w: word)
    ensures Lin(Starts(), BitStep(w)) == BitStep(Lin(Starts(), w))
  {
    hide Lin;
    hide BitStep;
    hide BitSteps;
    hide Stepped;
    var images := Starts();
    LinValue(images, FEEDBACK);
    FirstImages();
    hide Starts;
    hide Value;
    forall i | 0 < i < 16 ensures BitSteps(images[i], 1) == images[i - 1] {
      TwoSteps(images[i]);
      ImagesStep(i);
    }
    TwoSteps(images[0]);
    StepsShift(images, 1, Lin(images, FEEDBACK));
    Commutes(images, 1, w);
    TwoSteps(Lin(images, w));
  }

  function Power(k: nat): word { BitSteps(ONE, k) }

  lemma LastStep(w: word, k: nat)
    ensures BitSteps(w, k + 1) == BitStep(BitSteps(w, k))
  {
    hide BitStep;
    BitStepsConcat(w, k, 1);
    TwoSteps(BitSteps(w, k));
  }

  lemma {:induction false} PowerTwice(k: nat)
    ensures Power(2 * k) == Value(Squares(), Power(k))
    decreases k
  {
    hide BitStep;
    hide Lin;
    hide Value;
    hide Squares;
    LinValue(Squares(), Power(k));
    if k == 0 {
      LinValue(Squares(), ONE);
      FirstImages();
    } else {
      PowerTwice(k - 1);
      LinValue(Squares(), Power(k - 1));
      SquareStep(Power(k - 1));
      LastStep(ONE, k - 1);
      LastStep(ONE, 2 * (k - 1));
      LastStep(ONE, 2 * (k - 1) + 1);
    }
  }

  lemma {:induction false} InitSteps(k: nat)
    ensures BitSteps(INIT, k) == Value(Starts(), Power(k))
  {
    hide BitStep;
    hide Lin;
    hide Value;
    hide Starts;
    LinValue(Starts(), Power(k));
    if k == 0 {
      LinValue(Starts(), ONE);
      FirstImages();
    } else {
      InitSteps(k - 1);
      LinValue(Starts(), Power(k - 1));
      StartStep(Power(k - 1));
      LastStep(ONE, k - 1);
      LastStep(INIT, k - 1);
    }
  }

  /** One binary digit more of the exponent. */
  function Doubled(w: word, odd: bool): word {
    var v := Value(Squares(), w);
    if odd then BitStep(v) else v
  }

  lemma Double(k: nat, odd: bool)
    ensures Power(if odd then 2 * k + 1 else 2 * k) == Doubled(Power(k), odd)
  {
    hide BitStep;
    hide Value;
    hide Squares;
    PowerTwice(k);
    LastStep(ONE, 2 * k);
  }

  lemma Digit(k: nat, w: word, odd: bool, v: word)
    requires Power(k) == w && Doubled(w, odd) == v
    ensures Power(if odd then 2 * k + 1 else 2 * k) == v
  {
    hide Doubled;
    Double(k, odd);
  }

  lemma Power217()
    ensures Power(217) == 0xC712
  {
    hide BitSteps;
    TwoSteps(ONE);
    Digit(1, 0x4000, true, 0x1000);
    Digit(3, 0x1000, false, 0x0200);
    Digit(6, 0x0200, true, 0x0004);
    Digit(13, 0x0004, true, 0x9591);
    Digit(27, 0x9591, false, 0x1688);
    Digit(54, 0x1688, false, 0x0AEC);
    Digit(108, 0x0AEC, true, 0xC712);
  }

  lemma Power1057()
    ensures Power(1057) == 0xF54F
  {
    hide BitSteps;
    TwoSteps(ONE);
    Digit(1, 0x4000, false, 0x2000);
    Digit(2, 0x2000, false, 0x0800);
    Digit(4, 0x0800, false, 0x0080);
    Digit(8, 0x0080, false, 0x8408);
    Digit(16, 0x8408, true, 0x0676);
    Digit(33, 0x0676, false, 0x6383);
    Digit(66, 0x6383, false, 0x5172);
    Digit(132, 0x5172, false, 0x629A);
    Digit(264, 0x629A, false, 0xCD1E);
    Digit(528, 0xCD1E, true, 0xF54F);
  }

  lemma Power4681()
    ensures Power(4681) == 0x4234
  {
    hide BitSteps;
    TwoSteps(ONE);
    Digit(1, 0x4000, false, 0x2000);
    Digit(2, 0x2000, false, 0x0800);
    Digit(4, 0x0800, true, 0x0040);
    Digit(9, 0x0040, false, 0x2102);
    Digit(18, 0x2102, false, 0xC6C2);
    Digit(36, 0xC6C2, true, 0x65F1);
    Digit(73, 0x65F1, false, 0x11C2);
    Digit(146, 0x11C2, false, 0x69C8);
    Digit(292, 0x69C8, true, 0x00A2);
    Digit(585, 0x00A2, false, 0xC680);
    Digit(1170, 0xC680, false, 0x2420);
    Digit(2340, 0x2420, true, 0x4234);
  }

  lemma Power32767()
    ensures Power(32767) == 0x8000
  {
    hide BitSteps;
    TwoSteps(ONE);
    Digit(1, 0x4000, true, 0x1000);
    Digit(3, 0x1000, true, 0x0100);
    Digit(7, 0x0100, true, 0x0001);
    Digit(15, 0x0001, true, 0x19D8);
    Digit(31, 0x19D8, true, 0x042B);
    Digit(63, 0x042B, true, 0x7EEA);
    Digit(127, 0x7EEA, true, 0x20F3);
    Digit(255, 0x20F3, true, 0x7F90);
    Digit(511, 0x7F90, true, 0x46D8);
    Digit(1023, 0x46D8, true, 0x157E);
    Digit(2047, 0x157E, true, 0xF2AA);
    Digit(4095, 0xF2AA, true, 0x7022);
    Digit(8191, 0x7022, true, 0x3444);
    Digit(16383, 0x3444, true, 0x8000);
  }

  // ---------- how many zero bits bring the start value back ----------

  /** The state after n zero bits is the start value again. */
  predicate Returns(n: nat) { BitSteps(INIT, n) == INIT }

  lemma StartValues()
    ensures Value(Starts(), 0xC712) == 0x650F && Value(Starts(), 0xF54F) == 0x188D
    ensures Value(Starts(), 0x4234) == 0x5B4F && Value(Starts(), 0x8000) == 0xFFFF
  {}

  lemma Landmarks()
    ensures !Returns(217) && !Returns(1057) && !Returns(4681) && Returns(32767)
  {
    hide BitSteps;
    hide Power;
    hide Value;
    InitSteps(217);
    InitSteps(1057);
    InitSteps(4681);
    InitSteps(32767);
    Power217();
    Power1057();
    Power4681();
    Power32767();
    StartValues();
  }

  lemma ReturnsAgain(a: nat, b: nat)
    requires Returns(a)
    ensures Returns(a + b) <==> Returns(b)
  {
    BitStepsConcat(INIT, a, b);
  }

  function Times(c: nat, n: nat): nat { c * n }

  lemma TimesAdd(c: nat, a: nat, b: nat)
    ensures Times(c, a + b) == Times(c, a) + Times(c, b)
  {}

  /** What is left of a number when another is taken away as often as it can be. */
  function Rest(a: nat, b: nat): (r: nat)
    requires b > 0
    ensures r < b
  {
    if a < b then a else Rest(a - b, b)
  }

  lemma {:induction false} RestForm(a: nat, b: nat) returns (q: nat)
    requires b > 0
    ensures a == b * q + Rest(a, b)
  {
    q := 0;
    if a >= b {
      q := RestForm(a - b, b);
      assert b * (q + 1) == b * q + b;
      q := q + 1;
    }
  }

  lemma {:induction false} ReturnsRest(c: nat, a: nat, b: nat)
    requires b > 0 && Returns(Times(c, a)) && Returns(Times(c, b))
    ensures Returns(Times(c, Rest(a, b)))
    decreases a
  {
    hide Returns;
    hide Times;
    if a >= b {
      TimesAdd(c, b, a - b);
      ReturnsAgain(Times(c, b), Times(c, a - b));
      ReturnsRest(c, a - b, b);
    }
  }

  lemma {:induction false} ReturnsMultiple(k: nat, c: nat)
    requires Returns(k)
    ensures Returns(Times(k, c))
  {
    if c == 0 {
      assert Times(k, 0) == 0;
    } else {
      ReturnsMultiple(k, c - 1);
      TimesAdd(k, 1, c - 1);
      ReturnsAgain(k, Times(k, c - 1));
    }
  }

  predicate Prime(p: nat) { p == 7 || p == 31 || p == 151 }

  lemma NotDivided(p: nat, r: nat)
    requires Prime(p) && 1 < r < p
    ensures Rest(p, r) != 0
  {
    var q := RestForm(p, r);
    if r <= 12 {
      NoSmallFactor(p, r, q);
    } else if 1 < q {
      assert q > 12 ==> r * q > 151;
      if q <= 12 { NoSmallFactor(p, q, r); }
    }
  }

  /** None of the numbers up to twelve is a factor, and of two factors one would be. */
  lemma NoSmallFactor(p: nat, d: nat, e: nat)
    requires Prime(p) && 1 < d <= 12 && d < p
    ensures p != d * e
  {
    match d
    case 2 => case 3 => case 4 => case 5 => case 6 => case 7 =>
    case 8 => case 9 => case 10 => case 11 => case 12 =>
  }

  /** If less than a prime number of steps of c bits returns, and that number does, c does. */
  lemma {:induction false} Descend(c: nat, p: nat, r: nat)
    requires 0 < r < p && Prime(p) && Returns(Times(c, p)) && Returns(Times(c, r))
    ensures Returns(c)
    decreases r
  {
    hide Returns;
    hide Times;
    if r == 1 {
      TimesOne(c);
    } else {
      NotDivided(p, r);
      ReturnsRest(c, p, r);
      Descend(c, p, Rest(p, r));
    }
  }

  lemma TimesOne(c: nat)
    ensures Times(c, 1) == c
  {}

  lemma TimesSwap(a: nat, b: nat)
    ensures Times(a, b) == Times(b, a)
  {}

  lemma Divides(k: nat, c: nat, p: nat) returns (q: nat)
    requires Returns(k) && !Returns(c) && Returns(c * p) && Prime(p)
    ensures k == p * q
  {
    hide Returns;
    ReturnsMultiple(k, c);
    TimesSwap(k, c);
    ReturnsRest(c, k, p);
    q := RestForm(k, p);
    if Rest(k, p) != 0 { Descend(c, p, Rest(k, p)); }
  }

  lemma Together(k: nat, a: nat, b: nat, c: nat)
    requires k == 7 * a && k == 31 * b && k == 151 * c
    ensures k % 32767 == 0
  {
    var d := 9 * b - 2 * a;
    assert k == 217 * d;
    assert k == 32767 * (23 * d - 16 * c);
  }

  /** The start value comes back after exactly the multiples of 32767 zero bits. */
  lemma {:induction false} ReturnsIff(n: nat)
    ensures Returns(n) <==> n % 32767 == 0
  {
    Landmarks();
    hide Returns;
    if Returns(n) {
      var a := Divides(n, 4681, 7);
      var b := Divides(n, 1057, 31);
      var c := Divides(n, 217, 151);
      Together(n, a, b, c);
    }
    if n % 32767 == 0 {
      ReturnsMultiple(32767, n / 32767);
      assert Times(32767, n / 32767) == n;
    }
  }

  // ---------- zero bytes in front of a frame ----------

  function Zeros(n: nat): (z: seq<byte>)
    ensures |z| == n
  {
    if n == 0 then [] else Zeros(n - 1) + [0]
  }

  lemma ZeroByte(f: word)
    ensures FcsChar(f, 0) == BitSteps(f, 8)
  {
    ByteIsEightBits(f, 0);
    assert Wide(0) == 0;
    XorZero(f);
    hide FcsChar;
    hide BitSteps;
    hide Xor;
  }

  lemma {:induction false} ZerosForm(n: nat)
    ensures FcsContinue(INIT, Zeros(n)) == BitSteps(INIT, 8 * n)
  {
    hide FcsChar;
    hide BitStep;
    if n > 0 {
      hide BitSteps;
      var k := 8 * (n - 1);
      OneZeroMore(n - 1);
      ZerosForm(n - 1);
      ZeroByte(BitSteps(INIT, k));
      BitStepsConcat(INIT, k, 8);
      assert 8 * n == k + 8;
    }
  }

  lemma OneZeroMore(n: nat)
    ensures FcsContinue(INIT, Zeros(n + 1)) == FcsChar(FcsContinue(INIT, Zeros(n)), 0)
  {
    hide FcsChar;
    assert Zeros(n + 1)[..n] == Zeros(n) && Zeros(n + 1)[n] == 0;
  }

  /** Zero bytes put in front of a valid frame are noticed unless their number is a multiple of
      32767. */
  lemma LeadingZerosIff(frame: seq<byte>, n: nat)
    requires |frame| >= 2 && FcsVerify(frame)
    ensures FcsVerify(Zeros(n) + frame) <==> n % 32767 == 0
  {
    hide FcsVerify;
    hide FcsContinue;
    VerifyIsResidue(frame);
    VerifyIsResidue(Zeros(n) + frame);
    ContinueConcat(INIT, Zeros(n), frame);
    ZerosForm(n);
    ReturnsIff(8 * n);
    EightTimes(n);
    if FcsContinue(BitSteps(INIT, 8 * n), frame) == FcsContinue(INIT, frame) {
      ContinueInjective(BitSteps(INIT, 8 * n), INIT, frame);
    }
  }

  lemma EightTimes(n: nat)
    ensures (8 * n) % 32767 == 0 <==> n % 32767 == 0
  {
    if (8 * n) % 32767 == 0 {
      var q := 8 * n / 32767;
      assert 8 * n == 32767 * q;
      assert n == 32767 * (4096 * q - n);
      Multiple(4096 * q - n);
    }
    if n % 32767 == 0 {
      Multiple(8 * (n / 32767));
      assert 8 * n == 32767 * (8 * (n / 32767));
    }
  }

  lemma Multiple(m: int)
    ensures (32767 * m) % 32767 == 0
  {}

  // ---------- a known check value ----------

  /** The check of the nine digits from 1 to 9 is 0x906E. */
  lemma KnownCheck()
    ensures Trailer([0x31, 0x32, 0x33, 0x34, 0x35, 0x36, 0x37, 0x38, 0x39]) == [0x6E, 0x90]
  {
    KnownBytes();
    hide FcsChar;
    var b: seq<byte> := [0x31, 0x32, 0x33, 0x34, 0x35, 0x36, 0x37, 0x38, 0x39];
    Longer(b, 0, 0xFFFF, 0x2F8D);
    Longer(b, 1, 0x2F8D, 0x4D53);
    Longer(b, 2, 0x4D53, 0x634B);
    Longer(b, 3, 0x634B, 0x8B13);
    Longer(b, 4, 0x8B13, 0x44BF);
    Longer(b, 5, 0x44BF, 0x198D);
    Longer(b, 6, 0x198D, 0x1AC8);
    Longer(b, 7, 0x1AC8, 0xF795);
    Longer(b, 8, 0xF795, 0x6F91);
    assert b[..9] == b;
  }

  lemma Longer(b: seq<byte>, k: nat, f: word, g: word)
    requires k < |b| && FcsContinue(INIT, b[..k]) == f && FcsChar(f, b[k]) == g
    ensures FcsContinue(INIT, b[..k + 1]) == g
  {
    hide FcsChar;
    assert b[..k + 1][..k] == b[..k];
  }

  lemma KnownBytes()
    ensures FcsChar(0xFFFF, 0x31) == 0x2F8D && FcsChar(0x2F8D, 0x32) == 0x4D53 && FcsChar(0x4D53, 0x33) == 0x634B
    ensures FcsChar(0x634B, 0x34) == 0x8B13 && FcsChar(0x8B13, 0x35) == 0x44BF && FcsChar(0x44BF, 0x36) == 0x198D
    ensures FcsChar(0x198D, 0x37) == 0x1AC8 && FcsChar(0x1AC8, 0x38) == 0xF795 && FcsChar(0xF795, 0x39) == 0x6F91
  {}
}
