/** DNS names on the wire (sections 3.1 and 4.1.4 of RFC 1035): label sequences, compression
    pointers, and reading a name back out of a packet. */
module DnsNames {
  import opened Bits
  import opened Wrappers

  const HEADER: nat := 12
  const MAX_NAME: nat := 255

  /** A plain name: labels of 1 to 63 non-zero bytes, each after its length, then a zero. */
  predicate Labels(n: seq<byte>)
    decreases |n|
  {
    && |n| >= 1
    && if n[0] == 0 then |n| == 1
       else
         && n[0] <= 63 && |n| > 1 + n[0]
         && (forall i :: 1 <= i <= n[0] ==> n[i] != 0)
         && Labels(n[1 + n[0]..])
  }

  type Name = n: seq<byte> | Labels(n) witness [0]

  function FirstLabel(n: Name): (l: seq<byte>)
    requires n[0] != 0
    ensures |l| == 1 + n[0]
  {
    n[..1 + n[0]]
  }

  function Rest(n: Name): (r: Name)
    requires n[0] != 0
    ensures 1 <= |r| == |n| - 1 - n[0] && n == FirstLabel(n) + r
  {
    n[1 + n[0]..]
  }

  /** The 14-bit position in a compression pointer. */
  function Target(hi: byte, lo: byte): nat { (hi as int) % 64 * 256 + (lo as int) }

  /** Reading a name from a packet, pointers followed; `rounds` bounds the passes of the
      reading loop, which has no bound of its own in the original. */
  function Decode(pkt: seq<byte>, pos: nat, rounds: nat): Option<seq<byte>>
    decreases rounds
  {
    if rounds == 0 || pos >= |pkt| then None
    else if pkt[pos] == 0 then Some([0])
    else if pkt[pos] >= 64 then
      if pos + 1 >= |pkt| then None
      else Decode(pkt, Target(pkt[pos], pkt[pos + 1]), rounds - 1)
    else
      var next := pos + 1 + pkt[pos];
      if next > |pkt| then None
      else
        match Decode(pkt, next, rounds - 1)
        case None => None
        case Some(r) => Some(pkt[pos..next] + r)
  }

  /** The position after a name: past its zero byte or past its pointer. */
  function SkipName(pkt: seq<byte>, pos: nat): Option<nat>
    decreases |pkt| - pos
  {
    if pos >= |pkt| then None
    else if pkt[pos] == 0 then Some(pos + 1)
    else if pkt[pos] >= 64 then Some(pos + 2)
    else SkipName(pkt, pos + 1 + pkt[pos])
  }

  /** `s` stands at position `pos` of `pkt`. */
  predicate StandsAt(pkt: seq<byte>, pos: nat, s: seq<byte>) {
    pos + |s| <= |pkt| && pkt[pos..pos + |s|] == s
  }

  lemma StandsConcat(pkt: seq<byte>, pos: nat, a: seq<byte>, b: seq<byte>)
    requires StandsAt(pkt, pos, a + b)
    ensures StandsAt(pkt, pos, a) && StandsAt(pkt, pos + |a|, b)
  {
    assert pkt[pos..pos + |a|] == (a + b)[..|a|] == a;
    assert pkt[pos + |a|..pos + |a| + |b|] == (a + b)[|a|..] == b;
  }

  lemma StandsByte(pkt: seq<byte>, pos: nat, s: seq<byte>, i: nat)
    requires StandsAt(pkt, pos, s) && i < |s|
    ensures pos + i < |pkt| && pkt[pos + i] == s[i]
  {
    assert pkt[pos..pos + |s|][i] == s[i];
  }

  /** The position `pos` of a packet holds a name that reads as `n` and takes `len` bytes. */
  ghost predicate ReadsAs(pkt: seq<byte>, pos: nat, n: Name, len: nat, rounds: nat) {
    Decode(pkt, pos, rounds) == Some(n) && SkipName(pkt, pos) == Some(pos + len)
  }

  /** Reading one plain label. */
  lemma ReadsLabel(pkt: seq<byte>, pos: nat, n: Name, len: nat, rounds: nat)
    requires n[0] != 0 && StandsAt(pkt, pos, FirstLabel(n))
    requires ReadsAs(pkt, pos + 1 + n[0], Rest(n), len, rounds)
    ensures ReadsAs(pkt, pos, n, 1 + n[0] + len, rounds + 1)
  {
    StandsByte(pkt, pos, FirstLabel(n), 0);
  }

  lemma ReadsRoot(pkt: seq<byte>, pos: nat, n: Name, rounds: nat)
    requires n[0] == 0 && StandsAt(pkt, pos, n) && rounds > 0
    ensures ReadsAs(pkt, pos, n, |n|, rounds)
  {
    StandsByte(pkt, pos, n, 0);
    assert n == [0];
  }

  lemma StandsLabels(pkt: seq<byte>, pos: nat, n: Name, r: seq<byte>)
    requires n[0] != 0 && StandsAt(pkt, pos, FirstLabel(n) + r)
    ensures StandsAt(pkt, pos, FirstLabel(n)) && StandsAt(pkt, pos + 1 + n[0], r)
  {
    StandsConcat(pkt, pos, FirstLabel(n), r);
  }

  /** A plain name is read as itself. */
  lemma {:induction false} ReadsPlain(pkt: seq<byte>, pos: nat, n: Name, rounds: nat)
    requires StandsAt(pkt, pos, n) && rounds >= |n|
    ensures ReadsAs(pkt, pos, n, |n|, rounds)
    decreases |n|
  {
    hide StandsAt;
    hide ReadsAs;
    hide Rest;
    if n[0] == 0 {
      ReadsRoot(pkt, pos, n, rounds);
    } else {
      StandsLabels(pkt, pos, n, Rest(n));
      ReadsPlain(pkt, pos + 1 + n[0], Rest(n), rounds - 1);
      ReadsLabel(pkt, pos, n, |Rest(n)|, rounds - 1);
    }
  }

  /** Bytes added behind a packet, and more passes, change nothing that could be read before. */
  lemma {:induction false} DecodeExtends(pkt: seq<byte>, more: seq<byte>, pos: nat, rounds: nat, extra: nat)
    requires Decode(pkt, pos, rounds).Some?
    ensures Decode(pkt + more, pos, rounds + extra) == Decode(pkt, pos, rounds)
    decreases rounds
  {
    if pkt[pos] != 0 {
      if pkt[pos] >= 64 {
        DecodeExtends(pkt, more, Target(pkt[pos], pkt[pos + 1]), rounds - 1, extra);
      } else {
        var next := pos + 1 + pkt[pos];
        DecodeExtends(pkt, more, next, rounds - 1, extra);
        assert (pkt + more)[pos..next] == pkt[pos..next];
      }
    }
  }

  /** One pass of the reading loop. */
  lemma DecodeStep(pkt: seq<byte>, pos: nat, rounds: nat)
    requires Decode(pkt, pos, rounds).Some?
    ensures rounds > 0 && pos < |pkt|
    ensures var n := Decode(pkt, pos, rounds).value;
            if pkt[pos] == 0 then n == [0]
            else if pkt[pos] >= 64 then
              && pos + 1 < |pkt|
              && Decode(pkt, Target(pkt[pos], pkt[pos + 1]), rounds - 1) == Some(n)
            else
              var next := pos + 1 + pkt[pos];
              && next <= |pkt| && Decode(pkt, next, rounds - 1).Some?
              && n == pkt[pos..next] + Decode(pkt, next, rounds - 1).value
  {}

  // ---------- the loop ends within as many passes as the packet has bytes, or never ----------

  /** The passes the loop makes from a position: enough, and one less is not. */
  predicate Passes(pkt: seq<byte>, pos: nat, rounds: nat) {
    rounds > 0 && Decode(pkt, pos, rounds).Some? && Decode(pkt, pos, rounds - 1).None?
  }

  lemma PassesUnique(pkt: seq<byte>, pos: nat, a: nat, b: nat)
    requires Passes(pkt, pos, a) && Passes(pkt, pos, b)
    ensures a == b
  {
    assert pkt + [] == pkt;
    if a < b { DecodeExtends(pkt, [], pos, a, b - 1 - a); }
    if b < a { DecodeExtends(pkt, [], pos, b, a - 1 - b); }
  }

  lemma {:induction false} LeastPasses(pkt: seq<byte>, pos: nat, rounds: nat) returns (least: nat)
    requires Decode(pkt, pos, rounds).Some?
    ensures least <= rounds && Passes(pkt, pos, least)
    decreases rounds
  {
    if Decode(pkt, pos, rounds - 1).Some? {
      least := LeastPasses(pkt, pos, rounds - 1);
    } else {
      least := rounds;
    }
  }

  /** Where the next pass starts. */
  function NextPass(pkt: seq<byte>, pos: nat): nat
    requires pos < |pkt|
  {
    if pkt[pos] < 64 || pos + 1 >= |pkt| then pos + 1 + pkt[pos] else Target(pkt[pos], pkt[pos + 1])
  }

  lemma PassesNext(pkt: seq<byte>, pos: nat, rounds: nat)
    requires Passes(pkt, pos, rounds) && rounds > 1
    ensures pos < |pkt| && Passes(pkt, NextPass(pkt, pos), rounds - 1)
  {
    hide Target;
    DecodeStep(pkt, pos, rounds);
  }

  /** As many different positions as passes, all in the packet. */
  lemma {:induction false} Visited(pkt: seq<byte>, pos: nat, rounds: nat) returns (v: set<nat>)
    requires Passes(pkt, pos, rounds)
    ensures |v| == rounds && forall p <- v :: p < |pkt| && exists k :: 0 < k <= rounds && Passes(pkt, p, k)
    decreases rounds
  {
    DecodeStep(pkt, pos, rounds);
    hide Decode;
    if rounds == 1 {
      v := {pos};
    } else {
      PassesNext(pkt, pos, rounds);
      var rest := Visited(pkt, NextPass(pkt, pos), rounds - 1);
      if pos in rest {
        var k :| 0 < k <= rounds - 1 && Passes(pkt, pos, k);
        PassesUnique(pkt, pos, k, rounds);
      }
      v := rest + {pos};
    }
  }

  lemma {:induction false} Below(v: set<nat>, n: nat)
    requires forall p <- v :: p < n
    ensures |v| <= n
  {
    if n > 0 {
      Below(v - {n - 1}, n - 1);
      assert |v| <= |v - {n - 1}| + 1;
    } else {
      assert v == {};
    }
  }

  /** A name that can be read at all is read within as many passes as the packet has bytes. */
  lemma EndsWithinPacket(pkt: seq<byte>, pos: nat, rounds: nat)
    requires Decode(pkt, pos, rounds).Some?
    ensures Decode(pkt, pos, |pkt|) == Decode(pkt, pos, rounds)
  {
    var least := LeastPasses(pkt, pos, rounds);
    var v := Visited(pkt, pos, least);
    Below(v, |pkt|);
    assert pkt + [] == pkt;
    DecodeExtends(pkt, [], pos, least, |pkt| - least);
    DecodeExtends(pkt, [], pos, least, rounds - least);
  }

  function FirstZero(q: seq<byte>): (n: nat)
    ensures n <= |q| && (n < |q| ==> q[n] == 0) && forall i :: 0 <= i < n ==> q[i] != 0
  {
    if q == [] || q[0] == 0 then 0 else 1 + FirstZero(q[1..])
  }

  /** Up to its first zero, which is all a string copy takes. */
  function CString(n: seq<byte>): seq<byte> {
    if FirstZero(n) < |n| then n[..FirstZero(n) + 1] else n
  }

  lemma {:induction false} NameBytes(n: Name)
    ensures n[|n| - 1] == 0
    ensures forall i :: 0 <= i < |n| - 1 ==> n[i] != 0
    decreases |n|
  {
    if n[0] != 0 {
      var r := Rest(n);
      NameBytes(r);
      forall i | 0 <= i < |n| - 1
        ensures n[i] != 0
      {
        if i > n[0] {
          assert n[i] == r[i - 1 - n[0]];
        }
      }
    }
  }

  lemma NameIsCString(n: Name)
    ensures CString(n) == n
  {
    NameBytes(n);
  }
}
