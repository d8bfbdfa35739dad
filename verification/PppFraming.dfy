/** Byte stuffing (section 4.2 of RFC 1662), the receive loop that undoes it, and the
    control and data frames built on top. */
module PppFraming {
  import opened Fcs

  const FLAG: byte := 0x7e
  const ESC: byte := 0x7d
  const ADDR: byte := 0xff
  const CTRL: byte := 0x03
  const MAXPKT: nat := 2048

  // ---------- stuffing ----------

  /** The sender's test, in 32-bit arithmetic in the original. */
  predicate NeedsEscape(b: byte) {
    (((b as bv16) + 1) >> 1) == 0x3F
  }

  function StuffByte(b: byte): seq<byte> {
    if NeedsEscape(b) then [ESC, b ^ 0x20] else [b]
  }

  function Stuff(body: seq<byte>): (r: seq<byte>)
    ensures |r| >= |body|
  {
    if body == [] then [] else Stuff(body[..|body| - 1]) + StuffByte(body[|body| - 1])
  }

  /** What goes on the line for a buffer whose first and last byte are the flags. */
  function Line(buf: seq<byte>): seq<byte> {
    if |buf| < 2 then buf else [buf[0]] + Stuff(buf[1..|buf| - 1]) + [buf[|buf| - 1]]
  }

  function EscapeCount(body: seq<byte>): nat {
    if body == [] then 0
    else EscapeCount(body[..|body| - 1]) + if NeedsEscape(body[|body| - 1]) then 1 else 0
  }

  /** Only the flag and the escape byte are escaped, as section 4.2 of RFC 1662 has it. */
  lemma Escaped(b: byte)
    ensures StuffByte(b) == if b == 0x7E then [0x7D, 0x5E] else if b == 0x7D then [0x7D, 0x5D] else [b]
  {}

  /** No flag stands inside a stuffed body, so a flag on the line always ends a frame. */
  lemma {:induction false} NoFlagInside(body: seq<byte>)
    ensures 0x7E !in Stuff(body)
  {
    if body != [] {
      NoFlagInside(body[..|body| - 1]);
      Escaped(body[|body| - 1]);
      hide StuffByte;
    }
  }

  lemma {:induction false} StuffLength(body: seq<byte>)
    ensures |Stuff(body)| == |body| + EscapeCount(body)
    ensures EscapeCount(body) == 0 ==> Stuff(body) == body
  {
    hide NeedsEscape;
    if body != [] {
      StuffLength(body[..|body| - 1]);
    }
  }

  lemma {:induction false} StuffMonotone(body: seq<byte>, k: nat)
    requires k < |body|
    ensures |Stuff(body[..k])| + |StuffByte(body[k])| <= |Stuff(body)|
    ensures EscapeCount(body[..k]) <= EscapeCount(body)
  {
    hide NeedsEscape;
    if k == |body| - 1 {
    } else {
      var front := body[..|body| - 1];
      StuffMonotone(front, k);
      assert front[..k] == body[..k];
    }
  }

  lemma StuffStep(body: seq<byte>, k: nat)
    requires k < |body|
    ensures Stuff(body[..k + 1]) == Stuff(body[..k]) + StuffByte(body[k])
    ensures EscapeCount(body[..k + 1]) == EscapeCount(body[..k]) + if NeedsEscape(body[k]) then 1 else 0
  {
    hide NeedsEscape;
    assert body[..k + 1][..k] == body[..k];
  }

  method CountEscapes(buf: seq<byte>) returns (count: nat)
    requires |buf| >= 2
    ensures count == EscapeCount(buf[1..|buf| - 1])
  {
    hide NeedsEscape;
    ghost var body := buf[1..|buf| - 1];
    count := 0;
    for i := 1 to |buf| - 1
      invariant count == EscapeCount(body[..i - 1])
    {
      StuffStep(body, i - 1);
      if NeedsEscape(buf[i]) {
        count := count + 1;
      }
    }
    assert body[..|buf| - 2] == body;
  }

  /** The copying loop: flags as they are, everything between them escaped. */
  method FillEscaped(buf: seq<byte>, out: array<byte>)
    requires |buf| >= 2
    requires out.Length == |buf| + EscapeCount(buf[1..|buf| - 1])
    modifies out
    ensures out[..] == Line(buf)
  {
    hide NeedsEscape;
    hide StuffByte;
    hide Stuff;
    hide EscapeCount;
    ghost var body := buf[1..|buf| - 1];
    StuffLength(body);
    out[0] := buf[0];
    var j := 1;
    StuffNothing();
    assert body[..0] == [];
    for i := 1 to |buf| - 1
      invariant j == 1 + |Stuff(body[..i - 1])| <= out.Length - 1
      invariant out[0] == buf[0]
      invariant out[1..j] == Stuff(body[..i - 1])
    {
      StuffStep(body, i - 1);
      StuffMonotone(body, i - 1);
      j := PutStuffed(out, j, buf[i]);
      StuffPrefix(body, i);
    }
    assert body[..|buf| - 2] == body;
    out[out.Length - 1] := buf[|buf| - 1];
    ThreeParts(out[..], j);
    assert out[..][1..j] == out[1..j];
  }

  lemma ThreeParts(s: seq<byte>, j: nat)
    requires 1 <= j && |s| == j + 1
    ensures s == [s[0]] + s[1..j] + [s[j]]
  {}

  lemma StuffNothing()
    ensures Stuff([]) == []
  {}

  lemma StuffPrefix(body: seq<byte>, k: nat)
    requires k <= |body|
    ensures |Stuff(body[..k])| <= |Stuff(body)|
  {
    hide NeedsEscape;
    if k < |body| {
      StuffMonotone(body, k);
    } else {
      assert body[..k] == body;
    }
  }

  method PutStuffed(out: array<byte>, j: nat, b: byte) returns (k: nat)
    requires 1 <= j && j + |StuffByte(b)| <= out.Length
    modifies out
    ensures k == j + |StuffByte(b)|
    ensures out[1..k] == old(out[1..j]) + StuffByte(b) && out[0] == old(out[0])
  {
    hide NeedsEscape;
    if NeedsEscape(b) {
      out[j] := ESC;
      out[j + 1] := b ^ 0x20;
      k := j + 2;
    } else {
      out[j] := b;
      k := j + 1;
    }
  }

  /** Escape into a second buffer, or send the first one as it is when nothing needs it. */
  method SendEscape(buf: seq<byte>) returns (sent: seq<byte>)
    ensures sent == Line(buf)
  {
    hide EscapeCount;
    hide Stuff;
    var count := 0;
    if |buf| >= 2 {
      count := CountEscapes(buf);
      StuffLength(buf[1..|buf| - 1]);
    }
    if count == 0 {
      assert |buf| >= 2 ==> buf == [buf[0]] + buf[1..|buf| - 1] + [buf[|buf| - 1]];
      return buf;
    }
    var out := new byte[|buf| + count](_ => 0);
    FillEscaped(buf, out);
    return out[..];
  }

  // ---------- the receive loop ----------

  /** What `pico_ppp_poll` remembers between bytes. */
  datatype Rx = Rx(buf: seq<byte>, escaped: bool)

  function RxByte(s: Rx, b: byte): Rx {
    if b == FLAG then
      Rx(if s.escaped || |s.buf| > 1 then [] else s.buf, false)
    else if s.escaped then Rx(s.buf + [b ^ 0x20], false)
    else if b == ESC then Rx(s.buf, true)
    else Rx(s.buf + [b], false)
  }

  /** The frame body handed on by one byte, if any. */
  function RxOut(s: Rx, b: byte): seq<seq<byte>> {
    if b == FLAG && !s.escaped && |s.buf| > 1 then [s.buf] else []
  }

  function RxRun(s: Rx, input: seq<byte>): Rx {
    if input == [] then s else RxByte(RxRun(s, input[..|input| - 1]), input[|input| - 1])
  }

  function RxOuts(s: Rx, input: seq<byte>): seq<seq<byte>> {
    if input == [] then []
    else
      var front := input[..|input| - 1];
      RxOuts(s, front) + RxOut(RxRun(s, front), input[|input| - 1])
  }

  /** Splitting the input anywhere changes neither the state nor what is handed on. */
  lemma {:induction false} RxSplit(s: Rx, a: seq<byte>, b: seq<byte>)
    ensures RxRun(s, a + b) == RxRun(RxRun(s, a), b)
    ensures RxOuts(s, a + b) == RxOuts(s, a) + RxOuts(RxRun(s, a), b)
  {
    hide RxByte;
    hide RxOut;
    if b == [] {
      assert a + b == a;
    } else {
      RxSplit(s, a, b[..|b| - 1]);
      assert (a + b)[..|a + b| - 1] == a + b[..|b| - 1];
    }
  }

  // ---------- the modem's answers share the buffer ----------

  const S3: byte := 0x0d
  const S4: byte := 0x0a

  /** Everything the loop remembers: the frame state and whether the last byte was S3. */
  datatype Serial = Serial(rx: Rx, s3: bool)

  /** A byte, and whether the modem is connected when it is handled. */
  datatype Arriving = Arriving(data: byte, connected: bool)

  datatype Out = Frame(body: seq<byte>) | Answer(line: seq<byte>)

  function AnswerByte(s: Serial, b: byte): Serial {
    if b == S3 then Serial(s.rx.(buf := []), true)
    else if b == S4 && s.s3 then s.(s3 := false)
    else Serial(s.rx.(buf := s.rx.buf + [b]), false)
  }

  function AnswerOut(s: Serial, b: byte): seq<Out> {
    if b == S3 && s.rx.buf != [] then [Answer(s.rx.buf)] else []
  }

  function Frames(bodies: seq<seq<byte>>): seq<Out> {
    seq(|bodies|, i requires 0 <= i < |bodies| => Frame(bodies[i]))
  }

  function InByte(s: Serial, a: Arriving): Serial {
    if a.connected then s.(rx := RxByte(s.rx, a.data)) else AnswerByte(s, a.data)
  }

  function InOut(s: Serial, a: Arriving): seq<Out> {
    if a.connected then Frames(RxOut(s.rx, a.data)) else AnswerOut(s, a.data)
  }

  function InRun(s: Serial, input: seq<Arriving>): Serial {
    if input == [] then s else InByte(InRun(s, input[..|input| - 1]), input[|input| - 1])
  }

  function InOuts(s: Serial, input: seq<Arriving>): seq<Out> {
    if input == [] then []
    else
      var front := input[..|input| - 1];
      InOuts(s, front) + InOut(InRun(s, front), input[|input| - 1])
  }

  /** Bytes with the state of the modem at each of them. */
  function Tagged(bytes: seq<byte>, connected: nat -> bool): (r: seq<Arriving>)
    ensures |r| == |bytes|
  {
    seq(|bytes|, i requires 0 <= i < |bytes| => Arriving(bytes[i], connected(i)))
  }

  class Receiver {
    const buf: array<byte>          // ppp_recv_buf
    var len: nat
    var escaped: bool
    var s3: bool
    var serial: seq<byte>           // bytes the serial line still holds
    var received: seq<Out>          // what was passed to ppp_recv_data or ppp_modem_recv

    ghost predicate Valid()
      reads this
    {
      buf.Length == MAXPKT && len <= MAXPKT
    }

    ghost function View(): Serial
      requires Valid()
      reads this, buf
    {
      Serial(Rx(buf[..len], escaped), s3)
    }

    constructor (serial: seq<byte>)
      ensures Valid() && fresh(buf) && View() == Serial(Rx([], false), false)
      ensures this.serial == serial && received == []
    {
      buf := new byte[MAXPKT](_ => 0);
      len, escaped, s3, received := 0, false, false, [];
      this.serial := serial;
    }

    /** One byte of a connected modem, already stored at buf[len]. */
    method OnByte() returns (delivered: bool)
      requires Valid() && len < MAXPKT
      modifies this`len, this`escaped, this`received, buf
      ensures Valid()
      ensures View() == InByte(old(View()), Arriving(old(buf[len]), true))
      ensures received == old(received) + InOut(old(View()), Arriving(old(buf[len]), true))
      ensures delivered <==> InOut(old(View()), Arriving(old(buf[len]), true)) != []
    {
      delivered := false;
      if buf[len] == FLAG {
        if escaped {
          escaped, len := false, 0;
        }
        if len > 1 {
          received := received + [Frame(buf[..len])];
          delivered := true;
          len := 0;
        }
      } else if escaped {
        buf[len] := buf[len] ^ 0x20;
        escaped := false;
        len := len + 1;
      } else if buf[len] == ESC {
        escaped := true;
      } else {
        len := len + 1;
      }
    }

    /** One byte of a modem that is not connected, already stored at buf[len]. */
    method OnAnswerByte()
      requires Valid() && len < MAXPKT
      modifies this`len, this`s3, this`received, buf
      ensures Valid()
      ensures View() == InByte(old(View()), Arriving(old(buf[len]), false))
      ensures received == old(received) + InOut(old(View()), Arriving(old(buf[len]), false))
    {
      if buf[len] == S3 {
        s3 := true;
        if len > 0 {
          ghost var line := buf[..len];
          buf[len] := 0;
          assert buf[..len] == line;
          received := received + [Answer(buf[..len])];
          len := 0;
        }
      } else if buf[len] == S4 {
        if !s3 { len := len + 1; }
        s3 := false;
      } else {
        s3 := false;
        len := len + 1;
      }
    }

    /** Stores a byte and handles it as the state of the modem says. */
    method Handle(b: byte, connected: bool) returns (delivered: bool)
      requires Valid() && len < MAXPKT
      modifies this`len, this`escaped, this`s3, this`received, buf
      ensures Valid()
      ensures View() == InByte(old(View()), Arriving(b, connected))
      ensures received == old(received) + InOut(old(View()), Arriving(b, connected))
      ensures delivered <==> connected && InOut(old(View()), Arriving(b, connected)) != []
    {
      hide InByte;
      hide InOut;
      ghost var before := buf[..len];
      buf[len] := b;
      assert buf[..len] == before;
      delivered := false;
      if connected { delivered := OnByte(); } else { OnAnswerByte(); }
    }

    /** Handles some prefix of what the line holds, and stops only when the line is empty,
        the score is used up or the buffer is full. Entered with a full buffer and a byte on the
        line it stores that byte past the end. What a frame or an answer brings about may
        change the state of the modem, so it is given for every byte. */
    method Poll(score: int, connected: nat -> bool) returns (left: int, overrun: bool)
      requires Valid()
      modifies this, buf
      ensures Valid()
      ensures overrun <==> old(len) == MAXPKT && old(serial) != []
      ensures !overrun && old(serial) != [] ==> |serial| < |old(serial)|
      ensures !overrun ==> exists k ::
                && 0 <= k <= |old(serial)| && serial == old(serial[k..])
                && Polled(old(View()), Tagged(old(serial[..k]), connected),
                          View(), old(received), received, score - left)
      ensures serial == [] || left <= 0 || len == MAXPKT
    {
      hide InByte;
      hide InOut;
      hide Polled;
      left, overrun := score, len == MAXPKT && serial != [];
      if overrun { return; }
      ghost var all, s0, r0 := serial, View(), received;
      var k := 0;
      NonePolled(s0, all, connected, r0);
      hide Tagged;
      while true
        invariant Valid() && (len < MAXPKT || serial == [])
        invariant 0 <= k <= |all| && serial == all[k..]
        invariant Polled(s0, Tagged(all[..k], connected), View(), r0, received, score - left)
        decreases |serial|
      {
        if serial == [] {
          break;
        }
        ghost var v, r := View(), received;
        var b := serial[0];
        serial := serial[1..];
        var delivered := Handle(b, connected(k));
        OnePolled(s0, all, k, connected, v, r0, r, score - left);
        if delivered { left := left - 1; }
        k := k + 1;
        if len >= MAXPKT || left <= 0 {
          break;
        }
      }
    }
  }

  /** From s, the input has led to v, and what was handed on has been added to the list; as
      many frames as `used` were among it. */
  ghost predicate Polled(s: Serial, input: seq<Arriving>, v: Serial, before: seq<Out>, after: seq<Out>, used: int) {
    v == InRun(s, input) && after == before + InOuts(s, input) && used == FrameCount(InOuts(s, input))
  }

  lemma NonePolled(s: Serial, all: seq<byte>, connected: nat -> bool, before: seq<Out>)
    ensures Polled(s, Tagged(all[..0], connected), s, before, before, 0)
  {
    NoneYet(s);
    assert Tagged(all[..0], connected) == [] && before + [] == before;
  }

  lemma {:induction false} OnePolled(s: Serial, all: seq<byte>, k: nat, connected: nat -> bool,
                  v: Serial, before: seq<Out>, after: seq<Out>, used: int)
    requires k < |all| && Polled(s, Tagged(all[..k], connected), v, before, after, used)
    ensures var a := Arriving(all[k], connected(k));
            var more := if a.connected && InOut(v, a) != [] then 1 else 0;
            Polled(s, Tagged(all[..k + 1], connected), InByte(v, a), before, after + InOut(v, a), used + more)
  {
    hide Tagged;
    hide InRun;
    hide InOuts;
    hide InOut;
    hide InByte;
    hide FrameCount;
    var input, a := Tagged(all[..k], connected), Arriving(all[k], connected(k));
    TaggedNext(all, k, connected);
    OneMore(s, input, a);
    assert before + InOuts(s, input) + InOut(v, a) == before + (InOuts(s, input) + InOut(v, a));
  }

  /** The frames among what was handed on; only they use up the score. */
  function FrameCount(outs: seq<Out>): nat {
    if outs == [] then 0
    else FrameCount(outs[..|outs| - 1]) + (if outs[|outs| - 1].Frame? then 1 else 0)
  }

  lemma NoneYet(s: Serial)
    ensures InRun(s, []) == s && InOuts(s, []) == [] && FrameCount([]) == 0
  {}

  lemma TaggedNext(all: seq<byte>, k: nat, connected: nat -> bool)
    requires k < |all|
    ensures Tagged(all[..k + 1], connected) == Tagged(all[..k], connected) + [Arriving(all[k], connected(k))]
  {}

  lemma OneMore(s: Serial, input: seq<Arriving>, a: Arriving)
    ensures InRun(s, input + [a]) == InByte(InRun(s, input), a)
    ensures InOuts(s, input + [a]) == InOuts(s, input) + InOut(InRun(s, input), a)
    ensures FrameCount(InOuts(s, input + [a]))
         == FrameCount(InOuts(s, input)) + (if a.connected && InOut(InRun(s, input), a) != [] then 1 else 0)
  {
    assert (input + [a])[..|input|] == input;
    hide RxByte;
    var outs, out := InOuts(s, input), InOut(InRun(s, input), a);
    if out == [] {
      assert outs + out == outs;
    } else {
      assert |out| == 1 && (outs + out)[..|outs|] == outs && (out[0].Frame? <==> a.connected);
    }
  }

  /** Bytes of a modem that stays connected. */
  function Connected(bytes: seq<byte>): (r: seq<Arriving>)
    ensures |r| == |bytes|
  {
    seq(|bytes|, i requires 0 <= i < |bytes| => Arriving(bytes[i], true))
  }

  lemma ConnectedMore(front: seq<byte>, b: byte)
    ensures Connected(front + [b]) == Connected(front) + [Arriving(b, true)]
  {}

  lemma FramesMore(a: seq<seq<byte>>, b: seq<seq<byte>>)
    ensures Frames(a + b) == Frames(a) + Frames(b)
  {}

  lemma ConnectedByte(s: Serial, b: byte)
    ensures InByte(s, Arriving(b, true)) == s.(rx := RxByte(s.rx, b))
    ensures InOut(s, Arriving(b, true)) == Frames(RxOut(s.rx, b))
  {}

  lemma RxMore(s: Rx, front: seq<byte>, b: byte)
    ensures RxRun(s, front + [b]) == RxByte(RxRun(s, front), b)
    ensures RxOuts(s, front + [b]) == RxOuts(s, front) + RxOut(RxRun(s, front), b)
  {
    assert (front + [b])[..|front|] == front;
  }

  /** While the modem stays connected the loop is the frame receiver. */
  lemma {:induction false} ConnectedRun(s: Serial, bytes: seq<byte>)
    ensures InRun(s, Connected(bytes)) == s.(rx := RxRun(s.rx, bytes))
    ensures InOuts(s, Connected(bytes)) == Frames(RxOuts(s.rx, bytes))
  {
    if bytes != [] {
      hide RxByte;
      hide RxOut;
      hide InByte;
      hide InOut;
      hide InRun;
      hide InOuts;
      hide RxRun;
      hide RxOuts;
      hide Frames;
      hide Connected;
      var front, b := bytes[..|bytes| - 1], bytes[|bytes| - 1];
      assert bytes == front + [b];
      ConnectedRun(s, front);
      ConnectedMore(front, b);
      OneMore(s, Connected(front), Arriving(b, true));
      ConnectedByte(InRun(s, Connected(front)), b);
      RxMore(s.rx, front, b);
      FramesMore(RxOuts(s.rx, front), RxOut(RxRun(s.rx, front), b));
    }
  }

  // ---------- one poll after the other ----------

  function Flatten(chunks: seq<seq<Arriving>>): seq<Arriving> {
    if chunks == [] then [] else Flatten(chunks[..|chunks| - 1]) + chunks[|chunks| - 1]
  }

  /** Polls in a row: states and lists before and after each, and what each handled. */
  ghost predicate Polls(states: seq<Serial>, lists: seq<seq<Out>>, chunks: seq<seq<Arriving>>) {
    && |states| == |lists| == |chunks| + 1
    && forall i :: 0 <= i < |chunks| ==>
         states[i + 1] == InRun(states[i], chunks[i]) && lists[i + 1] == lists[i] + InOuts(states[i], chunks[i])
  }

  /** What two polls do one poll over both inputs does. */
  lemma {:induction false} PollsJoin(states: seq<Serial>, lists: seq<seq<Out>>, chunks: seq<seq<Arriving>>)
    requires Polls(states, lists, chunks)
    ensures states[|chunks|] == InRun(states[0], Flatten(chunks))
    ensures lists[|chunks|] == lists[0] + InOuts(states[0], Flatten(chunks))
  {
    hide InRun;
    hide InOuts;
    if chunks == [] {
      NoneYet(states[0]);
      assert lists[0] + [] == lists[0];
    } else {
      var n := |chunks| - 1;
      PollsJoin(states[..n + 1], lists[..n + 1], chunks[..n]);
      InSplit(states[0], Flatten(chunks[..n]), chunks[n]);
      var a, b := InOuts(states[0], Flatten(chunks[..n])), InOuts(states[n], chunks[n]);
      assert lists[0] + a + b == lists[0] + (a + b);
    }
  }

  /** However the line is split over polls, once they have handled a stream of framed bodies on
      a connected modem they have handed on exactly those bodies, in order. */
  lemma PollsDeliver(states: seq<Serial>, lists: seq<seq<Out>>, chunks: seq<seq<Arriving>>, bodies: seq<seq<byte>>)
    requires Polls(states, lists, chunks) && states[0].rx.buf == []
    requires Flatten(chunks) == Connected(FramedAll(bodies)) && forall b <- bodies :: |b| >= 2
    ensures lists[|chunks|] == lists[0] + Frames(bodies) && states[|chunks|].rx.buf == []
  {
    hide InRun;
    hide InOuts;
    hide FramedAll;
    hide RxRun;
    hide RxOuts;
    PollsJoin(states, lists, chunks);
    hide Flatten;
    hide Polls;
    ConnectedRun(states[0], FramedAll(bodies));
    RxFramedAll(states[0].rx, bodies);
  }

  // ---------- answers ----------

  /** An answer line: bytes other than the two terminators. */
  predicate PlainLine(line: seq<byte>) {
    line != [] && forall b <- line :: b != S3 && b != S4
  }

  function Unconnected(bytes: seq<byte>): (r: seq<Arriving>)
    ensures |r| == |bytes|
  {
    seq(|bytes|, i requires 0 <= i < |bytes| => Arriving(bytes[i], false))
  }

  /** A line added to the buffer. */
  function Grown(s: Serial, line: seq<byte>): Serial {
    if line == [] then s else Serial(s.rx.(buf := s.rx.buf + line), false)
  }

  lemma GrownMore(s: Serial, front: seq<byte>, b: byte)
    requires b != S3 && b != S4
    ensures InByte(Grown(s, front), Arriving(b, false)) == Grown(s, front + [b])
    ensures InOut(Grown(s, front), Arriving(b, false)) == []
  {
    hide InByte;
    hide InOut;
    PlainByte(Grown(s, front), b);
    assert s.rx.buf + front + [b] == s.rx.buf + (front + [b]);
    assert front == [] ==> s.rx.buf + [b] == s.rx.buf + (front + [b]);
  }

  lemma {:induction false} LineStored(s: Serial, line: seq<byte>)
    requires forall b <- line :: b != S3 && b != S4
    ensures InOuts(s, Unconnected(line)) == []
    ensures InRun(s, Unconnected(line)) == Grown(s, line)
  {
    hide InByte;
    hide InOut;
    hide Grown;
    if line == [] {
      NoneYet(s);
      assert Grown(s, []) == s by { NothingGrown(s); }
    } else {
      hide InRun;
      hide InOuts;
      var front, b := line[..|line| - 1], line[|line| - 1];
      assert line == front + [b] && b in line && forall x <- front :: x in line;
      LineStored(s, front);
      UnconnectedMore(front, b);
      hide Unconnected;
      OneMore(s, Unconnected(front), Arriving(b, false));
      GrownMore(s, front, b);
    }
  }

  lemma NothingGrown(s: Serial)
    ensures Grown(s, []) == s
  {}

  lemma UnconnectedMore(front: seq<byte>, b: byte)
    ensures Unconnected(front + [b]) == Unconnected(front) + [Arriving(b, false)]
  {}

  lemma UnconnectedConcat(a: seq<byte>, b: seq<byte>)
    ensures Unconnected(a + b) == Unconnected(a) + Unconnected(b)
  {}

  lemma PlainByte(s: Serial, b: byte)
    requires b != S3 && b != S4
    ensures InByte(s, Arriving(b, false)) == Serial(s.rx.(buf := s.rx.buf + [b]), false)
    ensures InOut(s, Arriving(b, false)) == []
  {}

  lemma EndBytes(s: Serial)
    ensures InByte(s, Arriving(S3, false)) == Serial(s.rx.(buf := []), true)
    ensures InOut(s, Arriving(S3, false)) == if s.rx.buf == [] then [] else [Answer(s.rx.buf)]
    ensures s.s3 ==> InByte(s, Arriving(S4, false)) == s.(s3 := false)
    ensures InOut(s, Arriving(S4, false)) == []
  {}

  lemma {:induction false} InSplit(s: Serial, a: seq<Arriving>, b: seq<Arriving>)
    ensures InRun(s, a + b) == InRun(InRun(s, a), b)
    ensures InOuts(s, a + b) == InOuts(s, a) + InOuts(InRun(s, a), b)
  {
    hide InByte;
    hide InOut;
    if b == [] {
      assert a + b == a;
    } else {
      InSplit(s, a, b[..|b| - 1]);
      assert (a + b)[..|a + b| - 1] == a + b[..|b| - 1];
    }
  }

  /** A line and its two terminators, from an empty buffer. */
  lemma {:induction false} AnswerArrives(s: Serial, line: seq<byte>)
    requires PlainLine(line) && s.rx.buf == []
    ensures var input := Unconnected(line + [S3, S4]);
            InOuts(s, input) == [Answer(line)] && InRun(s, input) == Serial(s.rx, false)
  {
    hide InByte;
    hide InOut;
    hide InRun;
    hide InOuts;
    LineStored(s, line);
    assert [] + line == line && line + [S3] + [S4] == line + [S3, S4];
    var text := Unconnected(line);
    UnconnectedMore(line, S3);
    UnconnectedMore(line + [S3], S4);
    hide Unconnected;
    OneMore(s, text, Arriving(S3, false));
    OneMore(s, text + [Arriving(S3, false)], Arriving(S4, false));
    EndBytes(InRun(s, text));
    EndBytes(InRun(s, text + [Arriving(S3, false)]));
  }

  function Terminated(lines: seq<seq<byte>>): seq<byte> {
    if lines == [] then [] else Terminated(lines[..|lines| - 1]) + (lines[|lines| - 1] + [S3, S4])
  }

  function Answers(lines: seq<seq<byte>>): seq<Out> {
    seq(|lines|, i requires 0 <= i < |lines| => Answer(lines[i]))
  }

  lemma AnswersMore(lines: seq<seq<byte>>)
    requires lines != []
    ensures Answers(lines) == Answers(lines[..|lines| - 1]) + [Answer(lines[|lines| - 1])]
  {}

  /** Any list of answers, each ended by S3 and S4, is handed on line by line and in order. */
  lemma {:induction false} AnswersArrive(s: Serial, lines: seq<seq<byte>>)
    requires s.rx.buf == [] && forall line <- lines :: PlainLine(line)
    ensures InOuts(s, Unconnected(Terminated(lines))) == Answers(lines)
    ensures InRun(s, Unconnected(Terminated(lines))) == if lines == [] then s else Serial(s.rx, false)
  {
    if lines == [] {
      NoneYet(s);
      assert Unconnected([]) == [];
    } else {
      hide PlainLine;
      hide InRun;
      hide InOuts;
      var front, line := lines[..|lines| - 1], lines[|lines| - 1];
      assert line in lines && forall x <- front :: x in lines;
      AnswersArrive(s, front);
      var before := Unconnected(Terminated(front));
      hide Unconnected;
      hide Answers;
      AnswerArrives(InRun(s, before), line);
      InSplit(s, before, Unconnected(line + [S3, S4]));
      assert Terminated(lines) == Terminated(front) + (line + [S3, S4]);
      UnconnectedConcat(Terminated(front), line + [S3, S4]);
      AnswersMore(lines);
    }
  }

  // ---------- stuffing and receiving are inverse ----------

  lemma EscapedBytes(b: byte)
    ensures NeedsEscape(b) <==> b == FLAG || b == ESC
    ensures NeedsEscape(b) ==> b ^ 0x20 != FLAG
    ensures (b ^ 0x20) ^ 0x20 == b
  {}

  lemma RxOne(s: Rx, b: byte)
    ensures RxRun(s, [b]) == RxByte(s, b) && RxOuts(s, [b]) == RxOut(s, b)
  {
    assert [b][..0] == [];
  }

  /** Two line bytes or one, a stuffed byte arrives as itself and completes nothing. */
  lemma RxStuffed(s: Rx, b: byte)
    requires !s.escaped
    ensures RxRun(s, StuffByte(b)) == Rx(s.buf + [b], false)
    ensures RxOuts(s, StuffByte(b)) == []
  {
    hide NeedsEscape;
    EscapedBytes(b);
    if NeedsEscape(b) {
      RxOne(s, ESC);
      RxOne(Rx(s.buf, true), b ^ 0x20);
      RxSplit(s, [ESC], [b ^ 0x20]);
      assert [ESC] + [b ^ 0x20] == StuffByte(b);
    } else {
      RxOne(s, b);
    }
  }

  lemma {:induction false} RxStuff(s: Rx, body: seq<byte>)
    requires !s.escaped
    ensures RxRun(s, Stuff(body)) == Rx(s.buf + body, false)
    ensures RxOuts(s, Stuff(body)) == []
  {
    hide RxByte;
    hide RxOut;
    hide StuffByte;
    hide RxRun;
    hide RxOuts;
    if body == [] {
      RxNothing(s);
    } else {
      var front, last := body[..|body| - 1], body[|body| - 1];
      RxStuff(s, front);
      RxSplit(s, Stuff(front), StuffByte(last));
      RxStuffed(Rx(s.buf + front, false), last);
      assert s.buf + front + [last] == s.buf + body;
    }
  }

  lemma RxNothing(s: Rx)
    ensures RxRun(s, []) == s && RxOuts(s, []) == []
  {}

  /** The line image of a frame body. */
  function Framed(body: seq<byte>): seq<byte> {
    [FLAG] + Stuff(body) + [FLAG]
  }

  /** From an empty receiver, even one that just saw an escape byte, a framed body is handed
      on whole and leaves the receiver empty. */
  lemma RxFramed(s: Rx, body: seq<byte>)
    requires s.buf == [] && |body| >= 2
    ensures RxRun(s, Framed(body)) == Rx([], false)
    ensures RxOuts(s, Framed(body)) == [body]
  {
    hide Stuff;
    hide RxRun;
    hide RxOuts;
    RxOne(s, FLAG);
    RxSplit(s, [FLAG], Stuff(body));
    RxStuff(Rx([], false), body);
    assert [] + body == body;
    RxSplit(s, [FLAG] + Stuff(body), [FLAG]);
    RxOne(Rx(body, false), FLAG);
  }

  function FramedAll(bodies: seq<seq<byte>>): seq<byte> {
    if bodies == [] then [] else FramedAll(bodies[..|bodies| - 1]) + Framed(bodies[|bodies| - 1])
  }

  /** Any list of bodies of two bytes or more comes back unchanged and in order. */
  lemma {:induction false} RxFramedAll(s: Rx, bodies: seq<seq<byte>>)
    requires s.buf == [] && forall b <- bodies :: |b| >= 2
    ensures RxOuts(s, FramedAll(bodies)) == bodies
    ensures RxRun(s, FramedAll(bodies)).buf == []
  {
    hide Framed;
    hide RxRun;
    hide RxOuts;
    if bodies == [] {
      RxNothing(s);
    } else {
      var front, last := bodies[..|bodies| - 1], bodies[|bodies| - 1];
      assert last in bodies && FramedAll(bodies) == FramedAll(front) + Framed(last);
      hide FramedAll;
      RxFramedAll(s, front);
      RxSplit(s, FramedAll(front), Framed(last));
      RxFramed(RxRun(s, FramedAll(front)), last);
    }
  }

  /** Bodies that fit never fill the receive buffer, so polling may go on at any point. */
  lemma {:induction false} RxNeverFull(s: Rx, bodies: seq<seq<byte>>, k: nat)
    requires s.buf == [] && k <= |FramedAll(bodies)|
    requires forall b <- bodies :: 2 <= |b| < MAXPKT
    ensures |RxRun(s, FramedAll(bodies)[..k]).buf| < MAXPKT
  {
    hide Framed;
    hide RxRun;
    hide RxOuts;
    if bodies == [] {
      assert FramedAll(bodies)[..k] == [];
      RxNothing(s);
    } else {
      var front, last := bodies[..|bodies| - 1], bodies[|bodies| - 1];
      assert last in bodies;
      var head := FramedAll(front);
      if k <= |head| {
        RxNeverFull(s, front, k);
        assert FramedAll(bodies)[..k] == head[..k];
      } else {
        RxFramedAll(s, front);
        assert FramedAll(bodies)[..k] == head + Framed(last)[..k - |head|];
        RxSplit(s, head, Framed(last)[..k - |head|]);
        RxPartial(RxRun(s, head), last, k - |head|);
      }
    }
  }

  lemma RxPartial(s: Rx, body: seq<byte>, k: nat)
    requires s.buf == [] && 0 < k <= |Framed(body)| && 2 <= |body|
    ensures |RxRun(s, Framed(body)[..k]).buf| <= |body|
  {
    hide Stuff;
    hide RxRun;
    hide RxOuts;
    if k == |Framed(body)| {
      assert Framed(body)[..k] == Framed(body);
      RxFramed(s, body);
    } else {
      assert Framed(body)[..k] == [FLAG] + Stuff(body)[..k - 1];
      RxOne(s, FLAG);
      RxSplit(s, [FLAG], Stuff(body)[..k - 1]);
      RxStuffPart(Rx([], false), body, k - 1);
    }
  }

  lemma {:induction false} RxStuffPart(s: Rx, body: seq<byte>, k: nat)
    requires !s.escaped && k <= |Stuff(body)|
    ensures |RxRun(s, Stuff(body)[..k]).buf| <= |s.buf| + |body|
  {
    hide RxRun;
    hide RxOuts;
    hide StuffByte;
    if body == [] {
      assert Stuff(body)[..k] == [];
      RxNothing(s);
    } else {
      var front, last := body[..|body| - 1], body[|body| - 1];
      var head := Stuff(front);
      if k <= |head| {
        RxStuffPart(s, front, k);
        assert Stuff(body)[..k] == head[..k];
      } else {
        RxStuff(s, front);
        var tail := StuffByte(last)[..k - |head|];
        assert Stuff(body)[..k] == head + tail;
        RxSplit(s, head, tail);
        RxGrowth(Rx(s.buf + front, false), last, k - |head|);
      }
    }
  }

  lemma RxGrowth(s: Rx, b: byte, n: nat)
    requires !s.escaped && 0 < n <= |StuffByte(b)|
    ensures |RxRun(s, StuffByte(b)[..n]).buf| <= |s.buf| + 1
  {
    hide NeedsEscape;
    if n == |StuffByte(b)| {
      assert StuffByte(b)[..n] == StuffByte(b);
      RxStuffed(s, b);
    } else {
      assert StuffByte(b)[..n] == [ESC];
      RxOne(s, ESC);
    }
  }

  /** A body of MAXPKT bytes or more does fill it, after which the next poll would store a
      byte past its end. */
  lemma OverlongFills(s: Rx, body: seq<byte>)
    requires s.buf == [] && |body| >= 2048
    ensures |RxRun(s, [FLAG] + Stuff(body[..2048])).buf| == 2048 == MAXPKT
  {
    hide Stuff;
    hide RxRun;
    hide RxOuts;
    RxOne(s, FLAG);
    RxSplit(s, [FLAG], Stuff(body[..MAXPKT]));
    RxStuff(Rx([], false), body[..MAXPKT]);
  }

  /** An escape byte right before a flag discards the frame so far, whatever it holds (section
      4.3 of RFC 1662). */
  lemma AbortDiscards(s: Rx)
    requires !s.escaped
    ensures RxRun(s, [0x7D, 0x7E]) == Rx([], false) && RxOuts(s, [0x7D, 0x7E]) == []
  {
    assert [0x7D, 0x7E][..1] == [ESC] && [ESC][..0] == [];
    assert RxRun(s, [ESC]) == Rx(s.buf, true) && RxOuts(s, [ESC]) == [];
  }

  // ---------- control frames ----------

  datatype CtlFrame = CtlFrame(code: word, payload: seq<byte>)

  /** The body of a control frame: address, control, protocol, payload and check bytes. */
  function CtlBody(code: word, payload: seq<byte>): seq<byte> {
    var covered := [ADDR, CTRL, LowByte(code), HighByte(code)] + payload;
    covered + Trailer(covered)
  }

  lemma SliceOfSlice(s: seq<byte>, len: nat)
    requires 2 <= len <= |s|
    ensures s[..len][1..len - 1] == s[1..len - 1]
  {}

  method PutHeader(pkt: array<byte>, code: word, len: nat)
    requires 8 <= len <= pkt.Length
    modifies pkt
    ensures pkt[0] == FLAG
    ensures pkt[1..len - 3] == [ADDR, CTRL, LowByte(code), HighByte(code)] + old(pkt[5..len - 3])
  {
    hide LowByte;
    hide HighByte;
    pkt[0], pkt[1], pkt[2] := FLAG, ADDR, CTRL;
    pkt[3], pkt[4] := LowByte(code), HighByte(code);
    assert pkt[1..len - 3] == pkt[1..5] + pkt[5..len - 3];
  }

  method PutCheck(pkt: array<byte>, fcs: word, len: nat)
    requires 8 <= len <= pkt.Length
    modifies pkt
    ensures pkt[0] == old(pkt[0]) && pkt[len - 1] == FLAG
    ensures pkt[1..len - 1] == old(pkt[1..len - 3]) + [LowByte(fcs), HighByte(fcs)]
  {
    hide LowByte;
    hide HighByte;
    pkt[len - 3], pkt[len - 2], pkt[len - 1] := LowByte(fcs), HighByte(fcs), FLAG;
    assert pkt[1..len - 1] == pkt[1..len - 3] + pkt[len - 3..len - 1];
  }

  /** Fills in the header, the check bytes and the flags around a payload already in place. */
  method CtlSend(pkt: array<byte>, code: word, len: nat) returns (sent: seq<byte>)
    requires 8 <= len <= pkt.Length
    modifies pkt
    ensures sent == Framed(CtlBody(code, old(pkt[5..len - 3])))
  {
    hide FcsContinue;
    hide FcsFinish;
    hide LowByte;
    hide HighByte;
    hide Stuff;
    ghost var covered := [ADDR, CTRL, LowByte(code), HighByte(code)] + pkt[5..len - 3];
    PutHeader(pkt, code, len);
    assert pkt[1..1 + (len - 4)] == pkt[1..len - 3] == covered;
    var fcs := ComputeFcs(INIT, pkt, 1, len - 4);
    fcs := FcsFinish(fcs);
    PutCheck(pkt, fcs, len);
    assert pkt[1..len - 1] == covered + Trailer(covered);
    SliceOfSlice(pkt[..], len);
    assert pkt[..][..len] == pkt[..len] && pkt[..][1..len - 1] == pkt[1..len - 1];
    sent := SendEscape(pkt[..len]);
  }

  datatype Received = Rejected | Payload(bytes: seq<byte>)

  /** FCS test, then removal of the check bytes and of a leading address and control. (The
      check bytes of an empty or one-byte body never look like address and control.) */
  function ProcessPacket(body: seq<byte>): Received
    requires |body| >= 2
  {
    if !FcsVerify(body) then Rejected
    else
      var rest := body[..|body| - 2];
      if |rest| >= 2 && rest[0] == ADDR && rest[1] == CTRL then Payload(rest[2..]) else Payload(rest)
  }

  /** A control frame arrives as its protocol and payload. */
  lemma CtlRoundTrip(code: word, payload: seq<byte>)
    ensures ProcessPacket(CtlBody(code, payload)) == Payload([LowByte(code), HighByte(code)] + payload)
  {
    hide FcsVerify;
    hide Trailer;
    hide LowByte;
    hide HighByte;
    var covered := [ADDR, CTRL, LowByte(code), HighByte(code)] + payload;
    TrailerVerifies(covered);
    var body := CtlBody(code, payload);
    assert body[..|body| - 2] == covered;
    assert covered[2..] == [LowByte(code), HighByte(code)] + payload;
  }

  function CtlBodies(frames: seq<CtlFrame>): (r: seq<seq<byte>>)
    ensures |r| == |frames|
  {
    seq(|frames|, i requires 0 <= i < |frames| => CtlBody(frames[i].code, frames[i].payload))
  }

  /** Whatever list of control frames is sent, the receiver is handed exactly their protocols
      and payloads, in order, and its buffer is empty again. */
  lemma CtlFramesRoundTrip(s: Rx, frames: seq<CtlFrame>)
    requires s.buf == []
    ensures var outs := RxOuts(s, FramedAll(CtlBodies(frames)));
            && |outs| == |frames|
            && forall i :: 0 <= i < |outs| ==>
                 && |outs[i]| >= 2
                 && ProcessPacket(outs[i]) ==
                    Payload([LowByte(frames[i].code), HighByte(frames[i].code)] + frames[i].payload)
    ensures RxRun(s, FramedAll(CtlBodies(frames))).buf == []
  {
    hide FramedAll;
    hide RxRun;
    hide RxOuts;
    hide LowByte;
    hide HighByte;
    hide ProcessPacket;
    var bodies := CtlBodies(frames);
    forall b | b in bodies ensures |b| >= 2 {
      var i :| 0 <= i < |bodies| && bodies[i] == b;
    }
    RxFramedAll(s, bodies);
    forall i | 0 <= i < |frames|
      ensures |bodies[i]| >= 2 && ProcessPacket(bodies[i]) ==
              Payload([LowByte(frames[i].code), HighByte(frames[i].code)] + frames[i].payload)
    {
      CtlRoundTrip(frames[i].code, frames[i].payload);
    }
  }

  // ---------- data frames ----------

  /** The body of a data frame; the check bytes start after address and control. */
  function DataBody(addrCtlComp: bool, protoComp: bool, data: seq<byte>): seq<byte> {
    var covered := (if protoComp then [] else [0x00]) + [0x21] + data;
    (if addrCtlComp then [] else [ADDR, CTRL]) + covered + Trailer(covered)
  }

  /** What the stack is handed for a payload that carries IP. */
  function IpData(payload: seq<byte>): Received
    requires payload != []
  {
    var rest := if payload[0] == 0x00 then payload[1..] else payload;
    if rest != [] && (rest[0] == 0x21 || rest[0] == 0x57) then Payload(rest[1..]) else Rejected
  }

  /** A payload carries IP if and only if its protocol number is 0x21 or 0x57, in one octet or
      after a zero one. */
  lemma IpDataIff(payload: seq<byte>, data: seq<byte>)
    requires payload != []
    ensures IpData(payload) == Payload(data) <==>
            || payload == [0x21] + data || payload == [0x57] + data
            || payload == [0x00, 0x21] + data || payload == [0x00, 0x57] + data
  {
    if IpData(payload) == Payload(data) {
      var rest := if payload[0] == 0x00 then payload[1..] else payload;
      assert rest == [rest[0]] + data;
      assert payload[0] == 0x00 ==> payload == [0x00, rest[0]] + data;
    }
  }

  lemma AddressMatters()
    ensures FcsContinue(INIT, [ADDR, CTRL]) != INIT
  {
    assert [ADDR, CTRL][..1] == [ADDR];
    assert [ADDR][..0] == [];
    assert FcsContinue(INIT, [ADDR]) == FcsChar(INIT, ADDR);
    assert FcsChar(FcsChar(INIT, ADDR), CTRL) != INIT;
  }

  /** The driver accepts its own data frames exactly when the peer negotiated address and
      control compression, because the sender leaves those two bytes out of the check. */
  lemma DataRoundTripIff(addrCtlComp: bool, protoComp: bool, data: seq<byte>)
    ensures var r := ProcessPacket(DataBody(addrCtlComp, protoComp, data));
            if addrCtlComp then r.Payload? && r.bytes != [] && IpData(r.bytes) == Payload(data)
            else r == Rejected
  {
    hide FcsVerify;
    hide Trailer;
    hide FcsContinue;
    var covered := (if protoComp then [] else [0x00]) + [0x21] + data;
    var body := DataBody(addrCtlComp, protoComp, data);
    TrailerVerifies(covered);
    if addrCtlComp {
      assert body == covered + Trailer(covered);
      assert body[..|body| - 2] == covered;
      assert (if protoComp then covered else covered[1..])[1..] == data;
    } else {
      var tail := covered + Trailer(covered);
      assert body == [ADDR, CTRL] + tail;
      VerifyIsResidue(tail);
      VerifyIsResidue(body);
      ContinueConcat(INIT, [ADDR, CTRL], tail);
      AddressMatters();
      if FcsVerify(body) {
        ContinueInjective(FcsContinue(INIT, [ADDR, CTRL]), INIT, tail);
      }
    }
  }
}
