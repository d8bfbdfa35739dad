/** The loop that reads a compressed name, pass by pass and without a bound: when it ends, when
    it leaves the packet, when it goes on for ever, and when it writes past its buffer. */
module DnsLoop {
  import opened Bits
  import opened Wrappers
  import opened DnsNames

  /** The size of the buffer a name is copied to. */
  const NAMEBUF: nat := 256

  /** Between two passes: at a position with what was copied so far; ended, the final zero
      included; or outside the packet, with the number of bytes copied. */
  datatype Loop = On(pos: nat, out: seq<byte>) | Ended(out: seq<byte>) | Left(copied: nat)

  function Copied(l: Loop): nat {
    match l
    case On(_, out) => |out|
    case Ended(out) => |out|
    case Left(n) => n
  }

  predicate IsPointer(pkt: seq<byte>, pos: nat) { pos + 1 < |pkt| && pkt[pos] >= 64 }

  predicate IsLabel(pkt: seq<byte>, pos: nat) { pos < |pkt| && 0 < pkt[pos] < 64 }

  /** One pass of the original loop, the step past a final zero included. */
  function Pass(pkt: seq<byte>, l: Loop): Loop {
    if !l.On? then l
    else if IsPointer(pkt, l.pos) then On(Target(pkt[l.pos], pkt[l.pos + 1]), l.out)
    else if l.pos >= |pkt| || pkt[l.pos] >= 64 then Left(|l.out|)
    else if pkt[l.pos] == 0 then Ended(l.out + [0])
    else
      var next := l.pos + 1 + pkt[l.pos];
      if next > |pkt| then Left(|l.out| + 1 + pkt[l.pos]) else On(next, l.out + pkt[l.pos..next])
  }

  function After(pkt: seq<byte>, l: Loop, k: nat): Loop {
    if k == 0 then l else Pass(pkt, After(pkt, l, k - 1))
  }

  lemma {:induction false} AfterAdd(pkt: seq<byte>, l: Loop, a: nat, b: nat)
    ensures After(pkt, l, a + b) == After(pkt, After(pkt, l, a), b)
  {
    hide Pass;
    if b > 0 { AfterAdd(pkt, l, a, b - 1); }
  }

  lemma PassGrows(pkt: seq<byte>, l: Loop)
    ensures Copied(Pass(pkt, l)) >= Copied(l)
    ensures l.On? && IsLabel(pkt, l.pos) ==> Copied(Pass(pkt, l)) > Copied(l)
    ensures l.On? && Pass(pkt, l).On? && !IsLabel(pkt, l.pos) ==> Pass(pkt, l).out == l.out
  {}

  lemma {:induction false} AfterGrows(pkt: seq<byte>, l: Loop, a: nat, b: nat)
    requires a <= b
    ensures Copied(After(pkt, l, a)) <= Copied(After(pkt, l, b))
    ensures !After(pkt, l, a).On? ==> After(pkt, l, b) == After(pkt, l, a)
  {
    hide Pass;
    if a < b {
      AfterGrows(pkt, l, a, b - 1);
      PassGrows(pkt, After(pkt, l, b - 1));
      assert !After(pkt, l, b - 1).On? ==> Pass(pkt, After(pkt, l, b - 1)) == After(pkt, l, b - 1) by {
        PassStops(pkt, After(pkt, l, b - 1));
      }
    }
  }

  lemma PassStops(pkt: seq<byte>, l: Loop)
    ensures !l.On? ==> Pass(pkt, l) == l
  {}

  // ---------- what becomes of a loop ----------

  ghost predicate Overruns(pkt: seq<byte>, l: Loop) { exists k: nat :: Copied(After(pkt, l, k)) > 256 }

  ghost predicate EndsAs(pkt: seq<byte>, l: Loop, n: seq<byte>) {
    |n| <= NAMEBUF && exists k: nat :: After(pkt, l, k) == Ended(n)
  }

  ghost predicate Leaves(pkt: seq<byte>, l: Loop) {
    exists k: nat :: After(pkt, l, k).Left? && Copied(After(pkt, l, k)) <= NAMEBUF
  }

  ghost predicate GoesOn(pkt: seq<byte>, l: Loop) {
    forall k: nat :: After(pkt, l, k).On? && Copied(After(pkt, l, k)) <= NAMEBUF
  }

  /** At most one of them. */
  lemma OneFate(pkt: seq<byte>, l: Loop, n: seq<byte>, m: seq<byte>)
    ensures Overruns(pkt, l) ==> !EndsAs(pkt, l, n) && !Leaves(pkt, l) && !GoesOn(pkt, l)
    ensures EndsAs(pkt, l, n) ==> !Leaves(pkt, l) && !GoesOn(pkt, l) && (EndsAs(pkt, l, m) ==> m == n)
    ensures Leaves(pkt, l) ==> !GoesOn(pkt, l)
  {
    hide After;
    hide Pass;
    forall a: nat, b: nat
      ensures a <= b && !After(pkt, l, a).On? ==> After(pkt, l, b) == After(pkt, l, a)
      ensures a <= b ==> Copied(After(pkt, l, a)) <= Copied(After(pkt, l, b))
    {
      if a <= b { AfterGrows(pkt, l, a, b); }
    }
  }

  // ---------- chains of pointers ----------

  function Hop(pkt: seq<byte>, pos: nat): nat {
    if IsPointer(pkt, pos) then Target(pkt[pos], pkt[pos + 1]) else pos
  }

  function Hops(pkt: seq<byte>, pos: nat, k: nat): nat {
    if k == 0 then pos else Hop(pkt, Hops(pkt, pos, k - 1))
  }

  /** The position where at most `jumps` pointers lead, if no pointer stands there. */
  function Chase(pkt: seq<byte>, pos: nat, jumps: nat): Option<nat>
    decreases jumps
  {
    if !IsPointer(pkt, pos) then Some(pos)
    else if jumps == 0 then None
    else Chase(pkt, Hop(pkt, pos), jumps - 1)
  }

  lemma {:induction false} HopsFirst(pkt: seq<byte>, pos: nat, k: nat)
    ensures Hops(pkt, pos, k + 1) == Hops(pkt, Hop(pkt, pos), k)
  {
    hide Hop;
    if k > 0 { HopsFirst(pkt, pos, k - 1); }
  }

  /** A chase that finds nothing went over pointers only. */
  lemma {:induction false} ChaseNone(pkt: seq<byte>, pos: nat, jumps: nat, t: nat)
    requires Chase(pkt, pos, jumps).None? && t <= jumps
    ensures IsPointer(pkt, Hops(pkt, pos, t))
    decreases jumps
  {
    if t > 0 {
      ChaseNone(pkt, Hop(pkt, pos), jumps - 1, t - 1);
      HopsFirst(pkt, pos, t - 1);
    }
  }

  lemma {:induction false} ChaseSome(pkt: seq<byte>, pos: nat, jumps: nat, out: seq<byte>) returns (k: nat)
    requires Chase(pkt, pos, jumps).Some?
    ensures !IsPointer(pkt, Chase(pkt, pos, jumps).value)
    ensures After(pkt, On(pos, out), k) == On(Chase(pkt, pos, jumps).value, out)
    decreases jumps
  {
    if IsPointer(pkt, pos) {
      k := ChaseSome(pkt, Hop(pkt, pos), jumps - 1, out);
      AfterAdd(pkt, On(pos, out), 1, k);
      assert After(pkt, On(pos, out), 1) == Pass(pkt, After(pkt, On(pos, out), 0));
      k := k + 1;
    } else {
      k := 0;
    }
  }

  /** Of n + 1 numbers below n two are equal. */
  lemma Pigeonhole(f: seq<nat>, n: nat) returns (i: nat, j: nat)
    requires |f| > n && forall k :: 0 <= k < |f| ==> f[k] < n
    ensures i < j < |f| && f[i] == f[j]
  {
    j := 0;
    var seen: set<nat> := {};
    while true
      invariant 0 <= j < |f| && seen == (set k | 0 <= k < j :: f[k]) && |seen| == j
      decreases |f| - j
    {
      if f[j] in seen {
        i :| 0 <= i < j && f[i] == f[j];
        return;
      }
      seen := seen + {f[j]};
      if j + 1 == |f| {
        Below(seen, n);
        assert false;
      }
      j := j + 1;
    }
  }

  lemma {:induction false} HopsAdd(pkt: seq<byte>, pos: nat, a: nat, b: nat)
    ensures Hops(pkt, pos, a + b) == Hops(pkt, Hops(pkt, pos, a), b)
  {
    hide Hop;
    if b > 0 { HopsAdd(pkt, pos, a, b - 1); }
  }

  /** From more pointers in a row than the packet has bytes there is no way out. */
  lemma {:induction false} PointersForEver(pkt: seq<byte>, pos: nat, t: nat)
    requires Chase(pkt, pos, |pkt|).None?
    ensures IsPointer(pkt, Hops(pkt, pos, t))
    decreases t
  {
    if t <= |pkt| {
      ChaseNone(pkt, pos, |pkt|, t);
    } else {
      var f := seq(|pkt| + 1, k requires 0 <= k <= |pkt| => Hops(pkt, pos, k));
      forall k | 0 <= k < |f| ensures f[k] < |pkt| { ChaseNone(pkt, pos, |pkt|, k); }
      var i, j := Pigeonhole(f, |pkt|);
      HopsAdd(pkt, pos, i, t - j);
      HopsAdd(pkt, pos, j, t - j);
      PointersForEver(pkt, pos, t - (j - i));
    }
  }

  lemma {:induction false} HopsAfter(pkt: seq<byte>, pos: nat, out: seq<byte>, k: nat)
    requires Chase(pkt, pos, |pkt|).None?
    ensures After(pkt, On(pos, out), k) == On(Hops(pkt, pos, k), out)
  {
    if k > 0 {
      HopsAfter(pkt, pos, out, k - 1);
      PointersForEver(pkt, pos, k - 1);
    }
  }

  // ---------- the verdict ----------

  /** A name, a write past the buffer, a step out of the packet, or a loop of pointers. */
  datatype Reading = Read(bytes: seq<byte>) | Overflow | Outside | Endless

  /** What comes of the loop: labels are copied until the buffer is full, and between two of
      them no more pointers are followed than the packet has bytes. */
  function Follow(pkt: seq<byte>, pos: nat, out: seq<byte>, jumps: nat): Reading
    requires |out| <= NAMEBUF
    decreases NAMEBUF - |out|
  {
    match Chase(pkt, pos, jumps)
    case None => Endless
    case Some(at) =>
      if at >= |pkt| || pkt[at] >= 64 then Outside
      else if |out| + 1 + pkt[at] > NAMEBUF then Overflow
      else if pkt[at] == 0 then Read(CString(out + [0]))
      else if at + 1 + pkt[at] > |pkt| then Outside
      else Follow(pkt, at + 1 + pkt[at], out + pkt[at..at + 1 + pkt[at]], |pkt|)
  }

  function ReadName(pkt: seq<byte>, pos: nat): Reading { Follow(pkt, pos, [], |pkt|) }

  /** The fate that a verdict stands for. */
  ghost predicate Meets(pkt: seq<byte>, l: Loop, r: Reading) {
    match r
    case Read(b) => exists n :: EndsAs(pkt, l, n) && CString(n) == b
    case Overflow => Overruns(pkt, l)
    case Outside => Leaves(pkt, l)
    case Endless => GoesOn(pkt, l)
  }

  /** A fate is the same k passes later. */
  lemma MeetsEarlier(pkt: seq<byte>, l: Loop, k: nat, r: Reading)
    requires Meets(pkt, After(pkt, l, k), r) && (r.Endless? ==> GoesOnFor(pkt, l, k))
    ensures Meets(pkt, l, r)
  {
    hide Pass;
    var m := After(pkt, l, k);
    forall j: nat ensures After(pkt, m, j) == After(pkt, l, k + j) { AfterAdd(pkt, l, k, j); }
    match r
    case Read(b) =>
      var n :| EndsAs(pkt, m, n) && CString(n) == b;
      var j: nat :| After(pkt, m, j) == Ended(n);
      assert After(pkt, l, k + j) == Ended(n);
      assert EndsAs(pkt, l, n);
    case Overflow =>
      var j: nat :| Copied(After(pkt, m, j)) > NAMEBUF;
      assert Copied(After(pkt, l, k + j)) > NAMEBUF;
    case Outside =>
      var j: nat :| After(pkt, m, j).Left? && Copied(After(pkt, m, j)) <= NAMEBUF;
      assert After(pkt, l, k + j).Left?;
    case Endless =>
      forall j: nat ensures After(pkt, l, j).On? && Copied(After(pkt, l, j)) <= NAMEBUF {
        if j > k { assert After(pkt, m, j - k) == After(pkt, l, k + (j - k)); }
      }
  }

  ghost predicate GoesOnFor(pkt: seq<byte>, l: Loop, k: nat) {
    forall j: nat :: j <= k ==> After(pkt, l, j).On? && Copied(After(pkt, l, j)) <= NAMEBUF
  }

  lemma OnBefore(pkt: seq<byte>, l: Loop, k: nat)
    requires After(pkt, l, k).On? && Copied(After(pkt, l, k)) <= NAMEBUF
    ensures GoesOnFor(pkt, l, k)
  {
    hide After;
    hide Pass;
    forall j: nat | j <= k ensures After(pkt, l, j).On? && Copied(After(pkt, l, j)) <= NAMEBUF {
      AfterGrows(pkt, l, j, k);
    }
  }

  /** Where no pointer stands. */
  lemma PassAt(pkt: seq<byte>, at: nat, out: seq<byte>)
    requires !IsPointer(pkt, at)
    ensures var l := Pass(pkt, On(at, out));
            if at >= |pkt| || pkt[at] >= 64 then l == Left(|out|)
            else if pkt[at] == 0 then l == Ended(out + [0])
            else if at + 1 + pkt[at] > |pkt| then l == Left(|out| + 1 + pkt[at])
            else l == On(at + 1 + pkt[at], out + pkt[at..at + 1 + pkt[at]])
  {}

  lemma {:induction false} FollowMeets(pkt: seq<byte>, pos: nat, out: seq<byte>)
    requires |out| <= NAMEBUF
    ensures Meets(pkt, On(pos, out), Follow(pkt, pos, out, |pkt|))
    decreases NAMEBUF - |out|
  {
    hide Pass;
    hide After;
    hide Chase;
    hide CString;
    var l := On(pos, out);
    match Chase(pkt, pos, |pkt|)
    case None =>
      forall k: nat ensures After(pkt, l, k).On? && Copied(After(pkt, l, k)) <= NAMEBUF { HopsAfter(pkt, pos, out, k); }
      assert GoesOn(pkt, l);
    case Some(at) =>
      var k := ChaseSome(pkt, pos, |pkt|, out);
      OneMore(pkt, l, k);
      PassAt(pkt, at, out);
      var m := After(pkt, l, k + 1);
      if at >= |pkt| || pkt[at] >= 64 {
        assert m.Left? && Copied(m) <= NAMEBUF;
      } else if |out| + 1 + pkt[at] > NAMEBUF {
        assert Copied(m) > NAMEBUF;
      } else if pkt[at] == 0 {
        assert EndsAs(pkt, l, out + [0]);
      } else if at + 1 + pkt[at] > |pkt| {
        assert m.Left? && Copied(m) <= NAMEBUF;
      } else {
        var next, more := at + 1 + pkt[at], out + pkt[at..at + 1 + pkt[at]];
        FollowMeets(pkt, next, more);
        OnBefore(pkt, l, k + 1);
        assert Follow(pkt, pos, out, |pkt|) == Follow(pkt, next, more, |pkt|);
        hide Follow;
        hide Meets;
        MeetsEarlier(pkt, l, k + 1, Follow(pkt, next, more, |pkt|));
      }
  }

  lemma OneMore(pkt: seq<byte>, l: Loop, k: nat)
    ensures After(pkt, l, k + 1) == Pass(pkt, After(pkt, l, k))
  {}

  /** For every packet and position, what the unbounded loop does, both ways: it overruns the
      buffer if some number of passes copies more than 256 bytes, the final zero included;
      it ends with a name; it leaves the packet; or it goes on for ever. */
  lemma ReadNameIff(pkt: seq<byte>, pos: nat)
    ensures var l, r := On(pos, []), ReadName(pkt, pos);
            && (r == Overflow <==> Overruns(pkt, l))
            && (r == Outside <==> Leaves(pkt, l))
            && (r == Endless <==> GoesOn(pkt, l))
            && (forall n :: EndsAs(pkt, l, n) ==> r == Read(CString(n)))
            && (r.Read? ==> exists n :: EndsAs(pkt, l, n) && r.bytes == CString(n))
  {
    hide Follow;
    hide Overruns;
    hide EndsAs;
    hide Leaves;
    hide GoesOn;
    var l := On(pos, []);
    FollowMeets(pkt, pos, []);
    OneFate(pkt, l, [], []);
    forall n ensures EndsAs(pkt, l, n) ==> !Overruns(pkt, l) && !Leaves(pkt, l) && !GoesOn(pkt, l) {
      OneFate(pkt, l, n, n);
    }
    match ReadName(pkt, pos)
    case Read(b) =>
      var n :| EndsAs(pkt, l, n) && CString(n) == b;
      forall m ensures EndsAs(pkt, l, m) ==> m == n { OneFate(pkt, l, n, m); }
    case Overflow =>
    case Outside =>
    case Endless =>
  }

  // ---------- loops that never stop ----------

  ghost predicate NeverStops(pkt: seq<byte>, l: Loop) { forall k: nat :: After(pkt, l, k).On? }

  function PosAt(pkt: seq<byte>, pos: nat, k: nat): nat {
    var l := After(pkt, On(pos, []), k);
    if l.On? then l.pos else 0
  }

  lemma OnInside(pkt: seq<byte>, l: Loop)
    requires l.On? && Pass(pkt, l).On?
    ensures l.pos < |pkt|
  {}

  /** Where a pass goes depends on the position alone. */
  lemma SamePlace(pkt: seq<byte>, a: Loop, b: Loop)
    requires a.On? && b.On? && a.pos == b.pos && Pass(pkt, a).On?
    ensures Pass(pkt, b).On? && Pass(pkt, b).pos == Pass(pkt, a).pos
  {}

  lemma {:induction false} SameCourse(pkt: seq<byte>, pos: nat, i: nat, j: nat, t: nat)
    requires NeverStops(pkt, On(pos, [])) && PosAt(pkt, pos, i) == PosAt(pkt, pos, j)
    ensures PosAt(pkt, pos, i + t) == PosAt(pkt, pos, j + t)
  {
    hide Pass;
    var l := On(pos, []);
    if t > 0 {
      SameCourse(pkt, pos, i, j, t - 1);
      var a, b := After(pkt, l, i + t - 1), After(pkt, l, j + t - 1);
      assert After(pkt, l, i + t) == Pass(pkt, a) && After(pkt, l, j + t) == Pass(pkt, b);
      SamePlace(pkt, a, b);
    }
  }

  /** Such a loop comes back to every place it is at after as many passes as the packet has
      bytes. */
  lemma ComesBack(pkt: seq<byte>, pos: nat, k: nat) returns (period: nat)
    requires NeverStops(pkt, On(pos, [])) && k >= |pkt|
    ensures period > 0 && PosAt(pkt, pos, k + period) == PosAt(pkt, pos, k)
  {
    var f := seq(|pkt| + 1, t requires 0 <= t <= |pkt| => PosAt(pkt, pos, t));
    forall t | 0 <= t < |f| ensures f[t] < |pkt| {
      assert After(pkt, On(pos, []), t + 1).On?;
      OnInside(pkt, After(pkt, On(pos, []), t));
    }
    var i, j := Pigeonhole(f, |pkt|);
    period := j - i;
    SameCourse(pkt, pos, i, j, k - i);
  }

  lemma {:induction false} ComesBackOften(pkt: seq<byte>, pos: nat, k: nat, period: nat, m: nat)
    requires NeverStops(pkt, On(pos, [])) && PosAt(pkt, pos, k + period) == PosAt(pkt, pos, k)
    ensures PosAt(pkt, pos, k + m * period) == PosAt(pkt, pos, k)
  {
    hide PosAt;
    hide NeverStops;
    if m > 0 {
      ComesBackOften(pkt, pos, k, period, m - 1);
      var t := k + (m - 1) * period;
      assert k + m * period == t + period;
      SameCourse(pkt, pos, t, k, period);
    }
  }

  /** Each return to a label copies it again. */
  lemma {:induction false} CopiesAgain(pkt: seq<byte>, pos: nat, k: nat, period: nat, m: nat)
    requires NeverStops(pkt, On(pos, [])) && period > 0
    requires PosAt(pkt, pos, k + period) == PosAt(pkt, pos, k) && IsLabel(pkt, PosAt(pkt, pos, k))
    ensures Copied(After(pkt, On(pos, []), k + m * period)) >= m
  {
    hide Pass;
    var l := On(pos, []);
    if m > 0 {
      CopiesAgain(pkt, pos, k, period, m - 1);
      ComesBackOften(pkt, pos, k, period, m - 1);
      var t := k + (m - 1) * period;
      assert k + m * period == t + period;
      PassGrows(pkt, After(pkt, l, t));
      OneMore(pkt, l, t);
      AfterGrows(pkt, l, t + 1, t + period);
    }
  }

  /** Nothing is copied any more when no label comes. */
  lemma {:induction false} CopiesNoMore(pkt: seq<byte>, pos: nat, a: nat, b: nat)
    requires NeverStops(pkt, On(pos, [])) && a <= b
    requires forall k: nat :: k >= a ==> !IsLabel(pkt, PosAt(pkt, pos, k))
    ensures Copied(After(pkt, On(pos, []), b)) == Copied(After(pkt, On(pos, []), a))
  {
    hide Pass;
    var l := On(pos, []);
    if a < b {
      CopiesNoMore(pkt, pos, a, b - 1);
      PassGrows(pkt, After(pkt, l, b - 1));
      OneMore(pkt, l, b - 1);
      assert !IsLabel(pkt, PosAt(pkt, pos, b - 1));
    }
  }

  /** A loop that never stops overruns the buffer if and only if a label lies on its cycle, or
      the labels before the cycle are too many already. */
  lemma NeverStopsOverrunsIff(pkt: seq<byte>, pos: nat)
    requires NeverStops(pkt, On(pos, []))
    ensures Overruns(pkt, On(pos, [])) <==>
            || (exists k: nat :: k >= |pkt| && IsLabel(pkt, PosAt(pkt, pos, k)))
            || Copied(After(pkt, On(pos, []), |pkt|)) > 256
  {
    hide Pass;
    hide After;
    var l := On(pos, []);
    if k: nat :| k >= |pkt| && IsLabel(pkt, PosAt(pkt, pos, k)) {
      var period := ComesBack(pkt, pos, k);
      CopiesAgain(pkt, pos, k, period, NAMEBUF + 1);
      assert Overruns(pkt, l);
    } else if k: nat :| Copied(After(pkt, l, k)) > NAMEBUF {
      if k >= |pkt| { CopiesNoMore(pkt, pos, |pkt|, k); } else { AfterGrows(pkt, l, k, |pkt|); }
    }
  }

  // ---------- a label and a pointer back to it ----------

  /** Twelve bytes of header, the label "a", and a pointer to it. */
  function SelfReference(): seq<byte> { [0, 0, 0, 0, 0, 0, 0, 0, 0, 0, 0, 0, 1, 97, 192, 12] }

  lemma SelfReferenceTurn(a: Loop)
    requires a.On? && a.pos == 12
    ensures Pass(SelfReference(), Pass(SelfReference(), a)) == On(12, a.out + [1, 97])
  {
    var p := SelfReference();
    assert p[12..14] == [1, 97];
    assert Pass(p, a) == On(14, a.out + [1, 97]);
    assert Target(192, 12) == 12;
  }

  lemma {:induction false} SelfReferenceTurns(m: nat)
    ensures var l := After(SelfReference(), On(12, []), 2 * m); l.On? && l.pos == 12 && |l.out| == 2 * m
  {
    hide Pass;
    hide SelfReference;
    if m > 0 {
      var l := On(12, []);
      SelfReferenceTurns(m - 1);
      OneMore(SelfReference(), l, 2 * m - 2);
      OneMore(SelfReference(), l, 2 * m - 1);
      SelfReferenceTurn(After(SelfReference(), l, 2 * m - 2));
    }
  }

  /** It does not end, and writes past the buffer. */
  lemma SelfReferenceOverruns()
    ensures ReadName(SelfReference(), 12) == Overflow
    ensures forall rounds: nat :: Decode(SelfReference(), 12, rounds).None?
  {
    SelfReferenceTurns(130);
    assert Copied(After(SelfReference(), On(12, []), 260)) > NAMEBUF;
    ReadNameIff(SelfReference(), 12);
    forall rounds: nat ensures Decode(SelfReference(), 12, rounds).None? { SelfReferenceUnread(rounds); }
  }

  lemma {:induction false} SelfReferenceUnread(rounds: nat)
    ensures Decode(SelfReference(), 12, rounds).None? && Decode(SelfReference(), 14, rounds).None?
  {
    if rounds > 0 {
      SelfReferenceUnread(rounds - 1);
      assert Target(192, 12) == 12;
    }
  }

  // ---------- the loop in place, and what it reads ----------

  /** What enough passes read is what the loop ends with. */
  lemma {:induction false} DecodeEnds(pkt: seq<byte>, pos: nat, rounds: nat, out: seq<byte>)
    requires Decode(pkt, pos, rounds).Some?
    ensures After(pkt, On(pos, out), rounds) == Ended(out + Decode(pkt, pos, rounds).value)
    decreases rounds
  {
    hide Pass;
    hide Decode;
    DecodeStep(pkt, pos, rounds);
    var n := Decode(pkt, pos, rounds).value;
    var l := On(pos, out);
    AfterAdd(pkt, l, 1, rounds - 1);
    OneMore(pkt, l, 0);
    assert After(pkt, l, 0) == l;
    PassCases(pkt, l);
    if pkt[pos] == 0 {
      AfterGrows(pkt, l, 1, rounds);
    } else if pkt[pos] >= 64 {
      DecodeEnds(pkt, Target(pkt[pos], pkt[pos + 1]), rounds - 1, out);
    } else {
      var next := pos + 1 + pkt[pos];
      DecodeEnds(pkt, next, rounds - 1, out + pkt[pos..next]);
      var rest := Decode(pkt, next, rounds - 1).value;
      assert out + pkt[pos..next] + rest == out + (pkt[pos..next] + rest);
    }
  }

  lemma PassCases(pkt: seq<byte>, l: Loop)
    requires l.On? && l.pos < |pkt|
    ensures pkt[l.pos] == 0 ==> Pass(pkt, l) == Ended(l.out + [0])
    ensures pkt[l.pos] >= 64 && l.pos + 1 < |pkt| ==>
              Pass(pkt, l) == On(Target(pkt[l.pos], pkt[l.pos + 1]), l.out)
    ensures 0 < pkt[l.pos] < 64 && l.pos + 1 + pkt[l.pos] <= |pkt| ==>
              Pass(pkt, l) == On(l.pos + 1 + pkt[l.pos], l.out + pkt[l.pos..l.pos + 1 + pkt[l.pos]])
  {}

  /** A name that some number of passes reads, and that fits, is what the loop yields. */
  lemma ReadsName(pkt: seq<byte>, pos: nat, n: Name, rounds: nat)
    requires Decode(pkt, pos, rounds) == Some(n) && |n| <= NAMEBUF
    ensures ReadName(pkt, pos) == Read(n)
  {
    DecodeEnds(pkt, pos, rounds, []);
    assert [] + n == n;
    ReadNameIff(pkt, pos);
    assert EndsAs(pkt, On(pos, []), n);
    NameIsCString(n);
  }

  /** One pass of the verdict. */
  lemma FollowStep(pkt: seq<byte>, at: nat, out: seq<byte>, jumps: nat)
    requires |out| <= NAMEBUF
    ensures Follow(pkt, at, out, jumps)
         == if at >= |pkt| then Outside
            else if pkt[at] >= 64 then
              if at + 1 >= |pkt| then Outside
              else if jumps == 0 then Endless
              else Follow(pkt, Target(pkt[at], pkt[at + 1]), out, jumps - 1)
            else if |out| + 1 + pkt[at] > NAMEBUF then Overflow
            else if pkt[at] == 0 then Read(CString(out + [0]))
            else if at + 1 + pkt[at] > |pkt| then Outside
            else Follow(pkt, at + 1 + pkt[at], out + pkt[at..at + 1 + pkt[at]], |pkt|)
  {
    hide CString;
  }

  /** The loop of the original, stopped where it would write past the buffer, leave the packet,
      or follow more pointers in a row than the packet has bytes. */
  method DecompressName(pkt: array<byte>, name: nat) returns (r: Reading)
    ensures r == ReadName(pkt[..], name)
  {
    hide CString;
    hide Chase;
    hide Follow;
    var it: nat := name;
    var jumps: nat := pkt.Length;
    var out: seq<byte> := [];
    while it < pkt.Length && pkt[it] != 0
      invariant |out| <= NAMEBUF
      invariant Follow(pkt[..], it, out, jumps) == ReadName(pkt[..], name)
      decreases NAMEBUF - |out|, jumps
    {
      FollowStep(pkt[..], it, out, jumps);
      if pkt[it] >= 64 {
        if it + 1 >= pkt.Length { return Outside; }
        if jumps == 0 { return Endless; }
        it := Target(pkt[it], pkt[it + 1]);
        jumps := jumps - 1;
      } else {
        var next := it + 1 + pkt[it] as int;
        if |out| + 1 + pkt[it] as int > NAMEBUF { return Overflow; }
        if next > pkt.Length { return Outside; }
        assert pkt[..][it..next] == pkt[it..next];
        out := out + pkt[it..next];
        it := next;
        jumps := pkt.Length;
      }
    }
    FollowStep(pkt[..], it, out, jumps);
    if it >= pkt.Length { return Outside; }
    if |out| + 1 > NAMEBUF { return Overflow; }
    r := Read(CString(out + [0]));
  }
}
