/** Dotted names and the label notation of the wire, converted in place in both directions. */
module DnsNotation {
  import opened Bits
  import opened Wrappers
  import opened DnsNames

  const DOT: byte := 46

  predicate NoDot(s: seq<byte>, from: nat, to: nat)
    requires to <= |s|
  {
    forall i :: from <= i < to ==> s[i] != DOT
  }

  /** The length of the first label. */
  function FirstDot(s: seq<byte>): (d: nat)
    ensures d <= |s| && (d < |s| ==> s[d] == DOT) && NoDot(s, 0, d)
  {
    if s == [] || s[0] == DOT then 0 else 1 + FirstDot(s[1..])
  }

  /** Every dot replaced by the length of the label after it, one length in front, one zero
      behind. */
  function Notate(s: seq<byte>): (q: seq<byte>)
    requires |s| < 256
    ensures |q| == |s| + 2
    decreases |s|
  {
    var d := FirstDot(s);
    if d == |s| then [d] + s + [0] else [d] + s[..d] + Notate(s[d + 1..])
  }

  predicate NameLen(n: nat) { 2 < n < 256 }

  /** A C string: no zero among its bytes. */
  predicate Text(s: seq<byte>) { forall i :: 0 <= i < |s| ==> s[i] != 0 }

  /** A name, a refusal, or a scan past the end of a copy that has no zero in it. */
  datatype Conversion = Name(bytes: seq<byte>) | Refused | Overread

  /** String lengths are sixteen bits wide. */
  function ShortLength(n: nat): nat { n % 0x10000 }

  function ToQname(url: seq<byte>): Conversion {
    if !NameLen(ShortLength(ShortLength(|url|) + 2)) then Refused
    else if |url| >= 0x10000 then Overread
    else Name(Notate(url))
  }

  /** A byte as a signed char. */
  function Signed(b: byte): int { if b < 128 then b else b - 256 }

  /** How many bytes are negative as signed chars. */
  function Negatives(b: seq<byte>): nat {
    if b == [] then 0 else Negatives(b[..|b| - 1]) + (if b[|b| - 1] >= 128 then 1 else 0)
  }

  lemma {:induction false} NegativesPut(b: seq<byte>, at: nat)
    requires at < |b|
    ensures Negatives(b[at := DOT]) == Negatives(b) - (if b[at] >= 128 then 1 else 0)
  {
    var c, n := b[at := DOT], |b| - 1;
    if at < n {
      assert c[..n] == b[..n][at := DOT];
      NegativesPut(b[..n], at);
    } else {
      assert c[..n] == b[..n];
    }
  }

  /** The walk over the labels from `at`: each length byte replaced by a dot and, read as a
      signed char, stepped over. A step to before the buffer ends it. */
  function Dotted(b: seq<byte>, at: nat, len: nat): (r: seq<byte>)
    ensures |r| == |b|
    decreases Negatives(b), |b| - at
  {
    if at >= |b| || b[at] == 0 || at >= len then b
    else
      NegativesPut(b, at);
      var next := at + Signed(b[at]) + 1;
      if next < 0 then b[at := DOT] else Dotted(b[at := DOT], next, len)
  }

  function Padding(n: nat): (z: seq<byte>)
    ensures |z| == n && forall i :: 0 <= i < n ==> z[i] == 0
  {
    seq(n, _ => 0)
  }

  /** The buffer of 256 bytes the name is copied to. */
  function Buffer(q: seq<byte>): (b: seq<byte>)
    requires |q| <= 256
    ensures |b| == 256
  {
    q + Padding(256 - |q|)
  }

  function ToUrl(q: seq<byte>): Option<seq<byte>> {
    var len := ShortLength(FirstZero(q));
    if NameLen(len) then Some(Dotted(Buffer(q[..len]), 0, len)[1..len]) else None
  }

  // ---------- what the notation is ----------

  /** Every label has at least `low` and at most `high` bytes. */
  predicate LabelsWithin(s: seq<byte>, low: nat, high: nat)
    decreases |s|
  {
    var d := FirstDot(s);
    low <= d <= high && (d < |s| ==> LabelsWithin(s[d + 1..], low, high))
  }

  lemma LabelsFront(d: byte, w: seq<byte>, rest: seq<byte>)
    requires |w| == d && Text(w) && rest != []
    ensures Labels([d] + w + rest) <==> 1 <= d <= 63 && Labels(rest)
  {
    var n := [d] + w + rest;
    assert n[1 + d..] == rest;
    assert forall i :: 1 <= i <= d ==> n[i] == w[i - 1];
  }

  /** Dotted names with labels of 1 to 63 bytes, and only they, become label sequences. */
  lemma {:induction false} NotateLabelsIff(s: seq<byte>)
    requires Text(s) && |s| < 256
    ensures Labels(Notate(s)) <==> LabelsWithin(s, 1, 63)
    decreases |s|
  {
    hide FirstDot;
    var d := FirstDot(s);
    if d < |s| {
      NotateLabelsIff(s[d + 1..]);
      LabelsFront(d, s[..d], Notate(s[d + 1..]));
      hide Labels;
    } else {
      LabelsFront(d, s, [0]);
    }
  }

  /** Before the end only an empty label puts a zero. */
  lemma {:induction false} NotateZeros(s: seq<byte>)
    requires Text(s) && |s| < 256
    ensures Notate(s)[|s| + 1] == 0
    ensures FirstZero(Notate(s)) == |s| + 1 <==> LabelsWithin(s, 1, 255)
    decreases |s|
  {
    hide FirstDot;
    var d := FirstDot(s);
    if d == |s| {
      hide LabelsWithin;
      EndZero(d, s, [0]);
      LabelsWithinLast(s, 1, 255);
    } else {
      var rest := s[d + 1..];
      NotateZeros(rest);
      assert Notate(s) == [d] + s[..d] + Notate(rest);
      hide Notate;
      EndZero(d, s[..d], Notate(rest));
      hide FirstZero;
    }
  }

  lemma LabelsWithinLast(s: seq<byte>, low: nat, high: nat)
    requires FirstDot(s) == |s|
    ensures LabelsWithin(s, low, high) <==> low <= |s| <= high
  {}

  /** The first zero of a label with its length in front. */
  lemma {:induction false} EndZero(d: byte, w: seq<byte>, rest: seq<byte>)
    requires |w| == d && Text(w)
    ensures FirstZero([d] + w + rest) == if d == 0 then 0 else 1 + d + FirstZero(rest)
    ensures rest == [0] ==> FirstZero(rest) == 0
  {
    if d == 0 {
      assert ([d] + w + rest)[0] == 0;
    } else {
      FirstZeroAfter([d] + w, rest);
    }
  }

  lemma {:induction false} FirstZeroAfter(a: seq<byte>, b: seq<byte>)
    requires Text(a)
    ensures FirstZero(a + b) == |a| + FirstZero(b)
  {
    if a == [] {
      assert a + b == b;
    } else {
      assert (a + b)[1..] == a[1..] + b;
      FirstZeroAfter(a[1..], b);
    }
  }

  lemma {:induction false} DottedStep(before: seq<byte>, d: byte, tail: seq<byte>, len: nat)
    requires 0 < d && len > |before|
    ensures Dotted(before + [d] + tail, |before|, len)
         == if d < 128 then Dotted(before + [DOT] + tail, |before| + d + 1, len)
            else if |before| + d < 255 then before + [DOT] + tail
            else Dotted(before + [DOT] + tail, |before| + d - 255, len)
  {
    assert (before + [d] + tail)[|before| := DOT] == before + [DOT] + tail;
  }

  /** The notation without its last zero. */
  function Lengths(s: seq<byte>): (q: seq<byte>)
    requires |s| < 256
    ensures |q| == |s| + 1
  {
    Notate(s)[..|s| + 1]
  }

  lemma {:induction false} LengthsStep(s: seq<byte>)
    requires |s| < 256
    ensures var d := FirstDot(s);
            Lengths(s) == if d == |s| then [d] + s else [d] + (s[..d] + Lengths(s[d + 1..]))
  {
    hide FirstDot;
  }

  lemma {:induction false} DottedLabel(before: seq<byte>, d: byte, w: seq<byte>, rest: seq<byte>, len: nat)
    requires |w| == d > 0 && len > |before| && |before| + d < 255
    ensures Dotted(before + ([d] + (w + rest)), |before|, len)
         == if d < 128 then Dotted(before + [DOT] + w + rest, |before + [DOT] + w|, len)
            else before + [DOT] + w + rest
  {
    hide Dotted;
    DottedStep(before, d, w + rest, len);
    assert before + ([d] + (w + rest)) == before + [d] + (w + rest);
    assert before + [DOT] + (w + rest) == before + [DOT] + w + rest;
  }

  lemma DottedStop(before: seq<byte>, after: seq<byte>, len: nat)
    requires |after| > 0 && after[0] == 0
    ensures Dotted(before + after, |before|, len) == before + after
  {
    assert (before + after)[|before|] == 0;
  }

  lemma GroupRight(before: seq<byte>, d: seq<byte>, w: seq<byte>, x: seq<byte>, after: seq<byte>)
    ensures before + (d + (w + x)) + after == before + (d + (w + (x + after)))
  {}

  lemma GroupLeft(before: seq<byte>, d: seq<byte>, w: seq<byte>, x: seq<byte>, after: seq<byte>)
    ensures before + d + w + (x + after) == before + d + w + x + after == before + (d + (w + x)) + after
  {}

  /** What the walk shows of a name: dots in front of the labels, until one of 128 bytes or
      more has been stepped over backwards. */
  function Shown(s: seq<byte>): (q: seq<byte>)
    requires |s| < 256
    ensures |q| == |s| + 1 && q[0] == DOT
    decreases |s|
  {
    var d := FirstDot(s);
    if d == |s| then [DOT] + s
    else [DOT] + (s[..d] + (if d < 128 then Shown(s[d + 1..]) else Lengths(s[d + 1..])))
  }

  lemma {:induction false} DottedLast(before: seq<byte>, d: byte, s: seq<byte>, after: seq<byte>, len: nat)
    requires |s| == d > 0 && |after| > 0 && after[0] == 0 && len > |before| && |before| + d < 255
    ensures Dotted(before + ([d] + s) + after, |before|, len) == before + ([DOT] + s) + after
  {
    hide Dotted;
    GroupRight(before, [d], s, [], after);
    GroupLeft(before, [DOT], s, [], after);
    assert s + [] == s && [] + after == after;
    DottedLabel(before, d, s, after, len);
    DottedStop(before + [DOT] + s, after, len);
  }

  lemma {:induction false} DottedOne(before: seq<byte>, d: byte, w: seq<byte>, x: seq<byte>, after: seq<byte>, len: nat)
    requires |w| == d > 0 && |before| < len && |before| + d < 255
    requires |after| > 0
    ensures Dotted(before + ([d] + (w + x)) + after, |before|, len)
         == if d < 128 then Dotted(before + [DOT] + w + x + after, |before + [DOT] + w|, len)
            else before + [DOT] + w + x + after
  {
    hide Dotted;
    GroupRight(before, [d], w, x, after);
    GroupLeft(before, [DOT], w, x, after);
    DottedLabel(before, d, w, x + after, len);
  }

  lemma {:induction false} ShownStep(s: seq<byte>)
    requires |s| < 256
    ensures var d := FirstDot(s);
            Shown(s) == if d == |s| then [DOT] + s
                        else [DOT] + (s[..d] + (if d < 128 then Shown(s[d + 1..]) else Lengths(s[d + 1..])))
  {
    hide FirstDot;
    hide Lengths;
  }

  /** Putting the dots back. */
  lemma {:induction false} DottedNotate(before: seq<byte>, s: seq<byte>, after: seq<byte>, len: nat)
    requires |s| < 256 && LabelsWithin(s, 1, 255)
    requires |after| > 0 && after[0] == 0 && |before| + |s| + 1 <= len < 255
    ensures Dotted(before + Lengths(s) + after, |before|, len) == before + Shown(s) + after
    decreases |s|
  {
    hide FirstDot;
    hide Dotted;
    hide Lengths;
    hide Shown;
    hide LabelsWithin;
    var d := FirstDot(s);
    LengthsStep(s);
    ShownStep(s);
    RestWithin(s, 1, 255);
    if d == |s| {
      DottedLast(before, d, s, after, len);
    } else {
      var w, rest := s[..d], s[d + 1..];
      var shown := if d < 128 then Shown(rest) else Lengths(rest);
      if d < 128 { DottedNotate(before + [DOT] + w, rest, after, len); }
      DottedOne(before, d, w, Lengths(rest), after, len);
      GroupLeft(before, [DOT], w, shown, after);
    }
  }

  lemma RestWithin(s: seq<byte>, low: nat, high: nat)
    requires LabelsWithin(s, low, high)
    ensures low <= FirstDot(s) <= high
    ensures FirstDot(s) < |s| ==> LabelsWithin(s[FirstDot(s) + 1..], low, high)
  {}

  /** No label is empty, and behind one of 128 bytes or more every label has 46: the length
      that is itself a dot. */
  predicate Survives(s: seq<byte>)
    decreases |s|
  {
    var d := FirstDot(s);
    && d >= 1
    && (d < |s| ==> if d < 128 then Survives(s[d + 1..]) else LabelsWithin(s[d + 1..], 46, 46))
  }

  lemma PrefixCancel(a: seq<byte>, b: seq<byte>, c: seq<byte>)
    ensures a + b == a + c <==> b == c
  {
    assert (a + b)[|a|..] == b && (a + c)[|a|..] == c;
  }

  lemma {:induction false} SplitAtDot(s: seq<byte>)
    requires FirstDot(s) < |s|
    ensures var d := FirstDot(s); s == s[..d] + ([DOT] + s[d + 1..])
  {
    var d := FirstDot(s);
    hide FirstDot;
    assert s == s[..d] + [s[d]] + s[d + 1..];
  }

  /** The length bytes are dots exactly when every label has 46 bytes. */
  lemma {:induction false} LengthsAreDotsIff(s: seq<byte>)
    requires |s| < 256
    ensures Lengths(s) == [DOT] + s <==> LabelsWithin(s, 46, 46)
    decreases |s|
  {
    hide FirstDot;
    LengthsStep(s);
    hide Lengths;
    var d := FirstDot(s);
    if d < |s| {
      var rest := s[d + 1..];
      LengthsAreDotsIff(rest);
      SplitAtDot(s);
      PrefixCancel(s[..d], Lengths(rest), [DOT] + rest);
      assert Lengths(s)[0] == d && Lengths(s)[1..] == s[..d] + Lengths(rest);
      assert ([DOT] + s)[0] == DOT && ([DOT] + s)[1..] == s;
    } else {
      assert Lengths(s)[0] == d;
    }
  }

  /** Behind the first label, what is shown is right exactly when the rest is. */
  lemma {:induction false} ShownRest(s: seq<byte>, shown: seq<byte>)
    requires FirstDot(s) < |s|
    ensures var d := FirstDot(s);
            [DOT] + (s[..d] + shown) == [DOT] + s <==> shown == [DOT] + s[d + 1..]
  {
    hide FirstDot;
    var d := FirstDot(s);
    SplitAtDot(s);
    PrefixCancel([DOT], s[..d] + shown, s);
    PrefixCancel(s[..d], shown, [DOT] + s[d + 1..]);
  }

  lemma {:induction false} ShownIff(s: seq<byte>)
    requires |s| < 256 && LabelsWithin(s, 1, 255)
    ensures Shown(s) == [DOT] + s <==> Survives(s)
    decreases |s|
  {
    hide FirstDot;
    hide Lengths;
    hide Shown;
    ShownStep(s);
    var d := FirstDot(s);
    if d < |s| {
      var rest := s[d + 1..];
      ShownRest(s, if d < 128 then Shown(rest) else Lengths(rest));
      RestWithin(s, 1, 255);
      if d < 128 { ShownIff(rest); } else { LengthsAreDotsIff(rest); }
    }
  }

  lemma {:induction false} SurvivesNonEmpty(s: seq<byte>)
    requires Survives(s) && |s| < 256
    ensures LabelsWithin(s, 1, 255)
    decreases |s|
  {
    var d := FirstDot(s);
    hide FirstDot;
    if d < |s| {
      if d < 128 { SurvivesNonEmpty(s[d + 1..]); } else { WithinWider(s[d + 1..]); }
    }
  }

  lemma {:induction false} WithinWider(s: seq<byte>)
    requires LabelsWithin(s, 46, 46)
    ensures LabelsWithin(s, 1, 255)
    decreases |s|
  {
    var d := FirstDot(s);
    hide FirstDot;
    if d < |s| { WithinWider(s[d + 1..]); }
  }

  /** What comes back when no label is empty. */
  lemma {:induction false} ToUrlForm(url: seq<byte>)
    requires Text(url) && 2 <= |url| <= 253 && LabelsWithin(url, 1, 255)
    ensures ToUrl(Notate(url)) == Some(Shown(url)[1..])
  {
    hide Notate;
    hide LabelsWithin;
    hide FirstZero;
    hide Dotted;
    NotateZeros(url);
    var q, len := Notate(url), |url| + 1;
    var pad := Padding(256 - len);
    DottedNotate([], url, pad, len);
    assert [] + Lengths(url) + pad == Buffer(q[..len]);
    hide Shown;
    assert [] + Shown(url) + pad == Shown(url) + pad;
    assert (Shown(url) + pad)[1..len] == Shown(url)[1..];
  }

  /** What becomes of a string of any length: one of 1 to 253 bytes is converted, and so many or
      more, counted in sixteen bits, are read past the end if there are 65536 or more in all. */
  lemma ConversionIff(url: seq<byte>)
    ensures ToQname(url).Name? <==> 1 <= |url| <= 253
    ensures ToQname(url).Overread? <==> |url| >= 65536 && 1 <= |url| % 65536 <= 253
  {}

  /** Converting to labels and back gives the name itself exactly when it has two bytes or
      more, no label is empty, and no label of 128 bytes or more is followed by one whose
      length is not that of a dot. */
  lemma {:induction false} RoundTripIff(url: seq<byte>)
    requires Text(url) && 1 <= |url| <= 253
    ensures ToQname(url).Name?
    ensures ToUrl(ToQname(url).bytes) == Some(url) <==> |url| >= 2 && Survives(url)
  {
    hide Notate;
    hide LabelsWithin;
    hide FirstZero;
    hide Dotted;
    hide Survives;
    hide Shown;
    var q := Notate(url);
    NotateZeros(url);
    if Survives(url) { SurvivesNonEmpty(url); }
    if LabelsWithin(url, 1, 255) && |url| >= 2 {
      ToUrlForm(url);
      ShownIff(url);
      assert Shown(url) == [DOT] + Shown(url)[1..];
      PrefixCancel([DOT], Shown(url)[1..], url);
    }
  }

  /** A first label of 130 bytes in front of one of a single byte does not come back. */
  lemma LongLabelFails()
    ensures var url := seq(130, _ => 97) + [DOT, 98];
            Text(url) && NameLen(|url| + 2) && ToUrl(ToQname(url).bytes) != Some(url)
  {
    var url := seq(130, _ => 97) + [DOT, 98];
    RoundTripIff(url);
    FirstDotIs(url, 130);
    assert url[131..] == [98];
    FirstDotIs([98], 1);
  }

  // ---------- in place ----------

  /** Labels up to `lbl` are done in b, the rest is still text. */
  ghost predicate Halfway(b: seq<byte>, s: seq<byte>, lbl: nat) {
    && |b| == |s| + 2 && |s| < 256 && lbl <= |s|
    && b[lbl + 1..] == s[lbl..] + [0]
    && Done(b[..lbl], s, lbl)
  }

  /** The notation of what comes before `lbl`. */
  ghost predicate Done(x: seq<byte>, s: seq<byte>, lbl: nat)
    requires lbl <= |s| < 256
  {
    x + Notate(s[lbl..]) == Notate(s)
  }

  lemma {:induction false} DoneLabel(x: seq<byte>, s: seq<byte>, lbl: nat, i: nat, n: byte)
    requires lbl < i <= |s| < 256 && Done(x, s, lbl)
    requires NoDot(s, lbl, i - 1) && s[i - 1] == DOT && n == i - lbl - 1
    ensures Done(x + [n] + s[lbl..i - 1], s, i)
  {
    hide FirstDot;
    hide Notate;
    NotateLabel(s, lbl, i - 1, n);
    hide NoDot;
    Append4(x, [n], s[lbl..i - 1], Notate(s[i..]));
  }

  lemma Append4(a: seq<byte>, b: seq<byte>, c: seq<byte>, d: seq<byte>)
    ensures a + b + c + d == a + (b + c + d)
  {}

  lemma HalfwayStart(b: seq<byte>, s: seq<byte>)
    requires 0 < |b| && |s| < 256 && b[1..] == s + [0]
    ensures Halfway(b, s, 0)
  {
    assert s[0..] == s && b[..0] == [];
  }

  lemma {:induction false} HalfwayByte(b: seq<byte>, s: seq<byte>, lbl: nat, i: nat)
    requires Halfway(b, s, lbl) && lbl < i <= |s| + 1
    ensures b[i] == if i == |s| + 1 then 0 else s[i - 1]
  {
    assert b[i] == b[lbl + 1..][i - lbl - 1];
  }

  lemma SplitAfter(x: seq<byte>, n: byte, z: seq<byte>, k: nat)
    requires k < |z|
    ensures (x + [n] + z)[..|x| + 1 + k] == x + [n] + z[..k]
    ensures (x + [n] + z)[|x| + 2 + k..] == z[k + 1..]
  {}

  lemma TailOf(s: seq<byte>, lbl: nat, i: nat)
    requires lbl < i <= |s|
    ensures (s[lbl..] + [0])[..i - lbl - 1] == s[lbl..i - 1]
    ensures (s[lbl..] + [0])[i - lbl..] == s[i..] + [0]
  {}

  lemma PutLength(b: seq<byte>, s: seq<byte>, lbl: nat, i: nat, n: byte)
    requires |b| == |s| + 2 && lbl < i <= |s| && n == i - lbl - 1 && b[lbl + 1..] == s[lbl..] + [0]
    ensures b[lbl := n][..i] == b[..lbl] + [n] + s[lbl..i - 1]
    ensures b[lbl := n][i + 1..] == s[i..] + [0]
  {
    var x, z := b[..lbl], b[lbl + 1..];
    assert b[lbl := n] == x + [n] + z;
    SplitAfter(x, n, z, n);
    TailOf(s, lbl, i);
  }

  lemma {:induction false} HalfwayLabel(b: seq<byte>, s: seq<byte>, lbl: nat, i: nat, n: byte)
    requires Halfway(b, s, lbl) && lbl < i <= |s| && NoDot(s, lbl, i - 1) && s[i - 1] == DOT && n == i - lbl - 1
    ensures Halfway(b[lbl := n], s, i)
  {
    hide Done;
    hide NoDot;
    PutLength(b, s, lbl, i, n);
    DoneLabel(b[..lbl], s, lbl, i, n);
  }

  lemma {:induction false} HalfwayEnd(b: seq<byte>, s: seq<byte>, lbl: nat)
    requires Halfway(b, s, lbl) && NoDot(s, lbl, |s|)
    ensures b[lbl := |s| - lbl] == Notate(s)
  {
    hide FirstDot;
    NotateEnd(s, lbl);
    hide Notate;
    assert b[lbl := |s| - lbl] == b[..lbl] + [|s| - lbl] + b[lbl + 1..];
  }

  /** A label's length goes in front of it when its dot, or the end, is reached. */
  method NameToNotation(buf: array<byte>, ghost s: seq<byte>)
    requires NameLen(buf.Length) && Text(s) && buf[1..] == s + [0]
    modifies buf
    ensures buf[..] == Notate(s)
  {
    hide Notate;
    hide Halfway;
    var lbl, i := 0, 1;
    assert buf[..][1..] == buf[1..];
    HalfwayStart(buf[..], s);
    HalfwayByte(buf[..], s, lbl, i);
    while buf[i] != 0
      invariant 0 <= lbl < i <= |s| + 1 == buf.Length - 1
      invariant Halfway(buf[..], s, lbl)
      invariant NoDot(s, lbl, i - 1)
      invariant buf[i] == if i == |s| + 1 then 0 else s[i - 1]
      decreases buf.Length - i
    {
      if buf[i] == DOT {
        ghost var before := buf[..];
        var length: byte := i - lbl - 1;
        HalfwayLabel(before, s, lbl, i, length);
        buf[lbl] := length;
        assert buf[..] == before[lbl := length];
        lbl := i;
      }
      i := i + 1;
      HalfwayByte(buf[..], s, lbl, i);
    }
    HalfwayEnd(buf[..], s, lbl);
    buf[lbl] := i - lbl - 1;
  }

  lemma {:induction false} FirstDotIs(s: seq<byte>, d: nat)
    requires d <= |s| && NoDot(s, 0, d) && (d < |s| ==> s[d] == DOT)
    ensures FirstDot(s) == d
  {
    var _ := FirstDot(s);
    hide FirstDot;
  }

  lemma {:induction false} NotateLabel(s: seq<byte>, from: nat, to: nat, n: byte)
    requires from <= to < |s| < 256 && n == to - from && NoDot(s, from, to) && s[to] == DOT
    ensures Notate(s[from..]) == [n] + s[from..to] + Notate(s[to + 1..])
  {
    hide FirstDot;
    var t := s[from..];
    assert t[..to - from] == s[from..to] && t[to - from + 1..] == s[to + 1..];
    FirstDotIs(t, to - from);
  }

  lemma {:induction false} NotateEnd(s: seq<byte>, from: nat)
    requires from <= |s| < 256 && NoDot(s, from, |s|)
    ensures Notate(s[from..]) == [|s| - from] + s[from..] + [0]
  {
    hide FirstDot;
    var t := s[from..];
    assert t[..|t|] == t;
    FirstDotIs(t, |t|);
  }

  method UrlToQname(url: array<byte>, ghost s: seq<byte>) returns (r: Conversion)
    requires Text(s) && url.Length == |s| + 1 && url[..] == s + [0]
    ensures r == ToQname(s)
  {
    hide Notate;
    var namelen := ShortLength(ShortLength(url.Length - 1) + 2);
    if !NameLen(namelen) { return Refused; }
    var qname := new byte[namelen](_ => 0);
    CopyBytes(url, 0, qname, 1, namelen - 1);
    assert qname[1..] == url[..][..namelen - 1];
    if qname[namelen - 1] != 0 {
      assert qname[1..][namelen - 2] == qname[namelen - 1];
      return Overread;
    }
    assert qname[1..][namelen - 2] == 0;
    assert |s| < 0x10000 ==> url[..][..namelen - 1] == s + [0];
    NameToNotation(qname, s);
    r := Name(qname[..]);
  }

  /** The walk over the labels. */
  method NotationToName(buf: array<byte>, len: nat)
    requires len < buf.Length
    modifies buf
    ensures buf[..] == Dotted(old(buf[..]), 0, len)
  {
    var at := 0;
    while 0 <= at < buf.Length && buf[at] != 0 && at < len
      invariant if at >= 0 then Dotted(buf[..], at, len) == Dotted(old(buf[..]), 0, len)
                else buf[..] == Dotted(old(buf[..]), 0, len)
      decreases Negatives(buf[..]), buf.Length - at
    {
      NegativesPut(buf[..], at);
      ghost var was := buf[..];
      var next := at + Signed(buf[at]) + 1;
      buf[at] := DOT;
      assert buf[..] == was[at := DOT];
      at := next;
    }
  }

  /** Copies the name, puts the dots in and leaves the first one out. */
  method QnameToUrl(qname: array<byte>) returns (ok: bool, url: array<byte>)
    requires exists i :: 0 <= i < qname.Length && qname[i] == 0
    ensures ok <==> ToUrl(qname[..]).Some?
    ensures ok ==> fresh(url) && url[..] == ToUrl(qname[..]).value + [0]
  {
    hide Dotted;
    hide FirstZero;
    var length := NameLength(qname);
    var namelen := ShortLength(length);
    if !NameLen(namelen) { return false, qname; }
    url := new byte[namelen](_ => 0);
    var temp := new byte[256](_ => 0);
    CopyBytes(qname, 0, temp, 0, namelen);
    assert temp[..] == Buffer(qname[..][..namelen]) by {
      assert temp[..] == temp[..namelen] + temp[namelen..];
      assert temp[namelen..] == Padding(256 - namelen);
    }
    NotationToName(temp, namelen);
    CopyBytes(temp, 1, url, 0, namelen - 1);
    assert url[..] == url[..namelen - 1] + url[namelen - 1..];
    ok := true;
  }

  method NameLength(q: array<byte>) returns (n: nat)
    requires exists i :: 0 <= i < q.Length && q[i] == 0
    ensures n == FirstZero(q[..]) < q.Length
  {
    n := 0;
    while q[n] != 0
      invariant n < q.Length && forall i :: 0 <= i < n ==> q[i] != 0
      invariant exists i :: n <= i < q.Length && q[i] == 0
      decreases q.Length - n
    {
      n := n + 1;
    }
  }

  method CopyBytes(src: array<byte>, from: nat, dst: array<byte>, to: nat, n: nat)
    requires from + n <= src.Length && to + n <= dst.Length && src != dst
    modifies dst
    ensures dst[..to] == old(dst[..to]) && dst[to..to + n] == src[from..from + n] && dst[to + n..] == old(dst[to + n..])
  {
    for k := 0 to n
      invariant forall i :: 0 <= i < to || to + k <= i < dst.Length ==> dst[i] == old(dst[i])
      invariant dst[to..to + k] == src[from..from + k]
    {
      dst[to + k] := src[from + k];
      assert dst[to..to + k + 1] == dst[to..to + k] + [src[from + k]];
    }
  }
}
