/** Numbers as strings of bits, low bit first in every recursion. */
module Bits {

  type byte = b: int | 0 <= b < 256

  function And(a: nat, m: nat): nat {
    if m == 0 then 0 else 2 * And(a / 2, m / 2) + (if a % 2 == 1 && m % 2 == 1 then 1 else 0)
  }

  function Or(a: nat, b: nat): nat
    decreases a + b
  {
    if a == 0 then b
    else 2 * Or(a / 2, b / 2) + (if a % 2 == 1 || b % 2 == 1 then 1 else 0)
  }

  /** Dropping and appending k low bits. */
  function Right(a: nat, k: nat): nat { if k == 0 then a else Right(a / 2, k - 1) }
  function Left(a: nat, k: nat): nat { if k == 0 then a else 2 * Left(a, k - 1) }

  lemma {:induction false} LeftDouble(a: nat, k: nat)
    ensures Left(2 * a, k) == 2 * Left(a, k)
  {
    if k > 0 { LeftDouble(a, k - 1); }
  }

  lemma {:induction false} LeftMono(a: nat, b: nat, k: nat)
    requires a < b
    ensures Left(a, k) < Left(b, k)
  {
    if k > 0 { LeftMono(a, b, k - 1); }
  }

  lemma {:induction false} RightLeft(a: nat, k: nat)
    ensures Right(Left(a, k), k) == a
  {
    if k > 0 { RightLeft(a, k - 1); }
  }

  lemma {:induction false} RightRight(a: nat, k: nat, p: nat)
    ensures Right(Right(a, k), p) == Right(a, k + p)
  {
    if k > 0 { RightRight(a / 2, k - 1, p); }
  }

  /** Masking byte by byte masks the whole number. */
  lemma {:induction false} AndJoin(x: nat, y: nat, u: nat, v: nat, k: nat)
    requires Right(y, k) == 0 && Right(v, k) == 0
    ensures And(Left(x, k) + y, Left(u, k) + v) == Left(And(x, u), k) + And(y, v)
  {
    if k > 0 {
      AndJoin(x, y / 2, u, v / 2, k - 1);
      assert (Left(x, k) + y) / 2 == Left(x, k - 1) + y / 2;
      assert (Left(u, k) + v) / 2 == Left(u, k - 1) + v / 2;
    }
  }

  lemma Octet(x: byte)
    ensures Right(x, 8) == 0
  {
    LeftEight(1);
    BelowRight(x, 8);
  }

  lemma LastOctet(q: nat, d: nat)
    requires d < 256
    ensures (256 * q + d) / 256 == q && (256 * q + d) % 256 == d
  {}

  lemma LeftFour(x: nat)
    ensures Left(x, 4) == 16 * x
  {
    assert Left(x, 0) == x;
    assert Left(x, 2) == 2 * Left(x, 1) == 4 * x;
    assert Left(x, 4) == 2 * Left(x, 3);
  }

  lemma LeftEight(x: nat)
    ensures Left(x, 8) == 256 * x
  {
    LeftFour(x);
    assert Left(x, 6) == 2 * Left(x, 5) == 64 * x;
    assert Left(x, 8) == 2 * Left(x, 7);
  }

  lemma {:induction false} AndFits(a: nat, m: nat, k: nat)
    requires Right(m, k) == 0
    ensures Right(And(a, m), k) == 0
  {
    if k > 0 && m > 0 { AndFits(a / 2, m / 2, k - 1); }
    if m == 0 { RightZero(k); }
  }

  lemma {:induction false} RightZero(k: nat)
    ensures Right(0, k) == 0
  {
    if k > 0 { RightZero(k - 1); }
  }

  lemma {:induction false} RightBelow(a: nat, k: nat)
    requires Right(a, k) == 0
    ensures a < Left(1, k)
  {
    if k > 0 { RightBelow(a / 2, k - 1); }
  }

  lemma {:induction false} LeftAdd(a: nat, j: nat, k: nat)
    ensures Left(Left(a, k), j) == Left(a, j + k)
  {
    if j > 0 { LeftAdd(a, j - 1, k); }
  }

  lemma {:induction false} BelowRight(a: nat, k: nat)
    requires a < Left(1, k)
    ensures Right(a, k) == 0
  {
    if k > 0 { BelowRight(a / 2, k - 1); }
  }

  lemma {:induction false} OrDisjoint(a: nat, b: nat, k: nat)
    requires Right(a, k) == 0
    ensures Or(a, Left(b, k)) == Left(b, k) + a
  {
    if a > 0 { OrDisjoint(a / 2, b, k - 1); }
  }

  lemma {:induction false} AndTwice(a: nat, m: nat)
    ensures And(And(a, m), m) == And(a, m)
  {
    if m > 0 { AndTwice(a / 2, m / 2); }
  }

  lemma {:induction false} AndSmaller(a: nat, m: nat, k: nat)
    requires Right(a, k) == 0
    ensures Right(And(a, m), k) == 0
  {
    if m == 0 {
      RightZero(k);
    } else if k > 0 {
      AndSmaller(a / 2, m / 2, k - 1);
    } else {
      AndZero(m);
    }
  }

  lemma {:induction false} AndZero(m: nat)
    ensures And(0, m) == 0
  {
    if m > 0 { AndZero(m / 2); }
  }
}
