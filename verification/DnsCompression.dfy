/** What compressing the names of a packet computes, and why every name, suffix and rdata
    reads the same afterwards. */
module DnsCompression {
  import opened Bits
  import opened Wrappers
  import opened DnsNames

  // ---------- shortening one name ----------

  /** The first position from `it` on at which `s` stands in `done`, or -1. */
  function Find(done: seq<byte>, s: seq<byte>, it: nat): int
    decreases |done| - it
  {
    if it + |s| > |done| || it >= |done| then -1
    else if StandsAt(done, it, s) then it
    else Find(done, s, it + 1)
  }

  lemma {:induction false} FindForm(done: seq<byte>, s: seq<byte>, it: nat)
    requires s != []
    ensures var p := Find(done, s, it);
            if p >= 0 then it <= p && StandsAt(done, p, s) && forall q :: it <= q < p ==> !StandsAt(done, q, s)
            else forall q: nat :: it <= q ==> !StandsAt(done, q, s)
    decreases |done| - it
  {
    if it + |s| <= |done| && !StandsAt(done, it, s) {
      FindForm(done, s, it + 1);
    }
  }

  function PointerBytes(p: nat): seq<byte>
    requires p < 0x4000
  {
    [192 + p / 256, p % 256]
  }

  lemma PointerTarget(p: nat)
    requires p < 0x4000
    ensures PointerBytes(p)[0] >= 192
    ensures Target(PointerBytes(p)[0], PointerBytes(p)[1]) == p
  {}

  /** The name `n` as it is written behind `done`: labels are kept until the remaining ones
      are found as a whole earlier in the packet, and the pointer replaces them. Nothing is
      found when only the root is left. */
  function Shorten(done: seq<byte>, n: Name): Option<seq<byte>>
    requires |done| <= 0x4000
    decreases |n|
  {
    if n[0] == 0 then None
    else
      FindForm(done, n, HEADER);
      var p := Find(done, n, HEADER);
      if p >= 0 then Some(PointerBytes(p))
      else
        match Shorten(done, Rest(n))
        case None => None
        case Some(r) => Some(FirstLabel(n) + r)
  }

  lemma {:induction false} ShortenShorter(done: seq<byte>, n: Name)
    requires |done| <= 0x4000 && Shorten(done, n).Some?
    ensures 2 <= |Shorten(done, n).value| < |n|
    decreases |n|
  {
    hide Find;
    if Find(done, n, HEADER) < 0 {
      ShortenShorter(done, Rest(n));
    } else {
      NotRoot(n);
    }
  }

  /** The last two bytes are a pointer to behind the header and before `end`. */
  predicate PointsBack(c: seq<byte>, end: nat) {
    |c| >= 2 && c[|c| - 2] >= 192 && HEADER <= Target(c[|c| - 2], c[|c| - 1]) < end
  }

  lemma PointsBackLonger(a: seq<byte>, c: seq<byte>, end: nat)
    requires PointsBack(c, end)
    ensures PointsBack(a + c, end)
  {}

  lemma PointerPointsBack(done: seq<byte>, n: Name)
    requires |done| <= 0x4000 && n[0] != 0 && Find(done, n, HEADER) >= 0
    ensures var p := Find(done, n, HEADER); p < 0x4000 && PointsBack(PointerBytes(p), |done|)
  {
    NotRoot(n);
    hide Labels;
    FindForm(done, n, HEADER);
    hide Find;
    PointerTarget(Find(done, n, HEADER));
  }

  /** What a shortened name ends in is a pointer to behind the header and before the name. */
  lemma {:induction false} ShortenPointsBack(done: seq<byte>, n: Name)
    requires |done| <= 0x4000 && Shorten(done, n).Some?
    ensures PointsBack(Shorten(done, n).value, |done|)
    decreases |n|
  {
    hide Find;
    hide PointsBack;
    hide Labels;
    if Find(done, n, HEADER) < 0 {
      ShortenPointsBack(done, Rest(n));
      PointsBackLonger(FirstLabel(n), Shorten(done, Rest(n)).value, |done|);
    } else {
      PointerPointsBack(done, n);
    }
  }

  lemma NotRoot(n: Name)
    requires n[0] != 0
    ensures |n| >= 3
  {}

  /** The shortened name reads back as the original one, from any packet that begins with
      `done`, in at most one pass more than the original had bytes. */
  lemma {:induction false} ShortenReads(done: seq<byte>, n: Name, pkt: seq<byte>, pos: nat, rounds: nat)
    requires |done| <= 0x4000 && Shorten(done, n).Some?
    requires StandsAt(pkt, 0, done) && StandsAt(pkt, pos, Shorten(done, n).value) && rounds > |n|
    ensures ReadsAs(pkt, pos, n, |Shorten(done, n).value|, rounds)
    decreases |n|
  {
    hide Find;
    hide StandsAt;
    hide ReadsAs;
    hide Rest;
    var p := Find(done, n, HEADER);
    if p >= 0 {
      FindForm(done, n, HEADER);
      ReadsPointer(done, n, pkt, pos, p, rounds);
    } else {
      var r := Shorten(done, Rest(n)).value;
      StandsLabels(pkt, pos, n, r);
      ShortenReads(done, Rest(n), pkt, pos + 1 + n[0], rounds - 1);
      ReadsLabel(pkt, pos, n, |r|, rounds - 1);
    }
  }

  lemma ReadsPointer(done: seq<byte>, n: Name, pkt: seq<byte>, pos: nat, p: nat, rounds: nat)
    requires p < 0x4000 && StandsAt(done, p, n)
    requires StandsAt(pkt, 0, done) && StandsAt(pkt, pos, PointerBytes(p)) && rounds > |n|
    ensures ReadsAs(pkt, pos, n, 2, rounds)
  {
    PointerTarget(p);
    StandsByte(pkt, pos, PointerBytes(p), 0);
    StandsByte(pkt, pos, PointerBytes(p), 1);
    StandsWithin(pkt, done, p, n);
    ReadsPlain(pkt, p, n, rounds - 1);
  }

  lemma StandsWithin(pkt: seq<byte>, done: seq<byte>, p: nat, n: Name)
    requires StandsAt(pkt, 0, done) && StandsAt(done, p, n)
    ensures StandsAt(pkt, p, n)
  {
    assert pkt[p..p + |n|] == pkt[..|done|][p..p + |n|];
  }

  // ---------- when shortening works ----------

  /** The last label of a name with its zero byte. */
  function LastLabel(n: Name): seq<byte>
    requires n[0] != 0
    decreases |n|
  {
    if Rest(n)[0] == 0 then n else LastLabel(Rest(n))
  }

  lemma {:induction false} LastLabelIsSuffix(n: Name)
    requires n[0] != 0
    ensures var l := LastLabel(n); 0 < |l| <= |n| && n[|n| - |l|..] == l
    decreases |n|
  {
    if Rest(n)[0] != 0 {
      LastLabelIsSuffix(Rest(n));
      var l := LastLabel(n);
      assert n[|n| - |l|..] == Rest(n)[|Rest(n)| - |l|..];
    }
  }

  ghost predicate Occurs(done: seq<byte>, s: seq<byte>) {
    exists p: nat :: HEADER <= p && StandsAt(done, p, s)
  }

  lemma SuffixStands(done: seq<byte>, p: nat, n: Name, k: nat)
    requires StandsAt(done, p, n) && k <= |n|
    ensures StandsAt(done, p + k, n[k..])
  {
    assert n == n[..k] + n[k..];
    StandsConcat(done, p, n[..k], n[k..]);
  }

  /** A name is shortened exactly when its last label, with the zero byte, already occurs
      behind the header; otherwise the search runs into the root and past it. */
  lemma {:induction false} ShortenIff(done: seq<byte>, n: Name)
    requires |done| <= 0x4000
    ensures Shorten(done, n).Some? <==> n[0] != 0 && Occurs(done, LastLabel(n))
    decreases |n|
  {
    hide Find;
    hide StandsAt;
    if n[0] != 0 {
      FindForm(done, n, HEADER);
      var p := Find(done, n, HEADER);
      if p >= 0 {
        LastLabelIsSuffix(n);
        var k := |n| - |LastLabel(n)|;
        SuffixStands(done, p, n, k);
        assert Occurs(done, LastLabel(n));
      } else {
        ShortenIff(done, Rest(n));
        assert Rest(n)[0] == 0 ==> !Occurs(done, LastLabel(n));
      }
    }
  }

  // ---------- which suffix is replaced ----------

  /** A label of the name, or its root, starts at the j-th byte. */
  predicate StartsLabel(n: Name, j: nat)
    decreases |n|
  {
    j == 0 || (n[0] != 0 && j >= 1 + n[0] && StartsLabel(Rest(n), j - 1 - n[0]))
  }

  /** No suffix that starts with one of the first labels occurs. */
  ghost predicate NoneBefore(done: seq<byte>, n: Name, kept: nat) {
    forall j: nat :: j < kept && j <= |n| && StartsLabel(n, j) ==> !Occurs(done, n[j..])
  }

  lemma {:induction false} NoneLonger(done: seq<byte>, n: Name, more: nat)
    requires n[0] != 0 && !Occurs(done, n) && NoneBefore(done, Rest(n), more)
    ensures NoneBefore(done, n, 1 + n[0] + more)
  {
    hide Occurs;
    hide Labels;
    var r := Rest(n);
    forall j: nat | j < 1 + n[0] + more && j <= |n| && StartsLabel(n, j) ensures !Occurs(done, n[j..]) {
      if j == 0 {
        assert n[0..] == n;
      } else {
        assert n[j..] == r[j - 1 - n[0]..];
      }
    }
  }

  lemma NotFound(done: seq<byte>, n: Name)
    requires Find(done, n, HEADER) < 0
    ensures !Occurs(done, n)
  {
    FindForm(done, n, HEADER);
  }

  /** The pointer leads to the first occurrence of the longest suffix that occurs at all: what
      is kept in front of it are labels none of whose suffixes does. */
  lemma {:induction false} ShortenForm(done: seq<byte>, n: Name) returns (kept: seq<byte>, suffix: Name, p: nat)
    requires |done| <= 0x4000 && Shorten(done, n).Some?
    ensures n == kept + suffix && suffix[0] != 0 && HEADER <= p < 0x4000 && StartsLabel(n, |kept|)
    ensures Shorten(done, n).value == kept + PointerBytes(p)
    ensures StandsAt(done, p, suffix) && forall q :: HEADER <= q < p ==> !StandsAt(done, q, suffix)
    ensures NoneBefore(done, n, |kept|)
    decreases |n|
  {
    NotRoot(n);
    hide Find;
    hide Labels;
    hide NoneBefore;
    var found := Find(done, n, HEADER);
    if found >= 0 {
      FindForm(done, n, HEADER);
      PointerPointsBack(done, n);
      kept, suffix, p := [], n, found;
      assert [] + n == n && [] + PointerBytes(p) == PointerBytes(p);
      NoneAtAll(done, n);
    } else {
      hide StandsAt;
      NotFound(done, n);
      var more;
      more, suffix, p := ShortenForm(done, Rest(n));
      NoneLonger(done, n, |more|);
      var first := FirstLabel(n);
      kept := first + more;
      Associates(first, more, suffix);
      Associates(first, more, PointerBytes(p));
    }
  }

  lemma NoneAtAll(done: seq<byte>, n: Name)
    ensures NoneBefore(done, n, 0)
  {}

  lemma Associates(a: seq<byte>, b: seq<byte>, c: seq<byte>)
    ensures a + b + c == a + (b + c)
  {}
}
