/** How long the PPP driver waits, to the second, and what it sends when the wait is over. */
module PppTiming {
  import opened PppTables
  import opened PppFsm
  import opened PppLayering
  import opened PppRuns
  import opened PppOutcomes
  import opened PppRechallenge

  // ---------- LCP ----------

  /** The retries left: those of the last exchange if it used up not all of them. */
  function Retries(s: State, full: nat): nat { if s.timerCount == 0 then full else s.timerCount }

  /** LCP keeps waiting for n seconds and is then below the modem. */
  ghost predicate LastsExactly(t: State, n: nat) {
    Below(Ticks(t, n).lcp) && forall k :: 0 <= k < n ==> RestartRuns(Ticks(t, k).lcp)
  }

  lemma Unanswered(t: State, n: nat)
    requires Layered(t) && RestartRuns(t.lcp) && t.timerVal > 0 && n == t.timerVal + 3 * t.timerCount
    ensures LastsExactly(t, n)
  {
    hide Ticks;
    hide RestartRuns;
    hide Layered;
    GivesUpExactly(t);
    assert TicksToGiveUp(t) == n;
  }

  lemma ConnectForm(s: State)
    requires Layered(s) && s.modem == Dial
    ensures var t := Step(s, RecvLine(LineConnect));
            && t.lcp == LcpState.ReqSent && t.wire == s.wire + [Sent(ConfReq, Connected)]
            && t.timerVal == 3 && t.timerCount == Retries(s, 10)
  {
    hide EvalLcp;
    hide EvalAuth;
    hide EvalIpcp;
    hide LcpTable;
    var s1 := s.(modem := Connected);
    RunOne(s1, ModemUp, 1);
    LcpUpForm(s1);
  }

  /** A connected modem brings LCP up with a request, and a peer that never answers is given up
      after three seconds and three for each retry, ten of them unless some are left over. */
  lemma UnansweredLink(s: State)
    requires Layered(s) && s.modem == Dial
    ensures var t, n := Step(s, RecvLine(LineConnect)), 3 + 3 * Retries(s, 10);
            && t.lcp == LcpState.ReqSent && SentBetween(s, t, ConfReq)
            && LastsExactly(t, n)
  {
    hide Step;
    hide EvalLcp;
    hide LcpTable;
    hide LastsExactly;
    ConnectForm(s);
    StepKeeps(s, RecvLine(LineConnect));
    var t := Step(s, RecvLine(LineConnect));
    assert t.wire[|s.wire|] == Sent(ConfReq, Connected);
    hide Layered;
    RestartStates(t.lcp);
    Unanswered(t, 3 + 3 * Retries(s, 10));
  }

  lemma CloseForm(s: State)
    requires Layered(s) && s.lcp == LcpState.Opened
    ensures var t := Step(s, DisconnectCall);
            && t.lcp == Closing && t.wire == s.wire + [Sent(TermReq, Connected)]
            && t.timerVal == (if s.timerVal == 0 then 3 else s.timerVal) && t.timerCount == Retries(s, 2)
  {
    hide EvalAuth;
    hide EvalIpcp;
    hide EvalModem;
    var s1 := EnterLcp(s.(autoreconnect := false), Closing);
    RunTwo(s1, LayerDown, SendTermReq, 4);
    AuthDownForm(s1);
  }

  /** A disconnect call on an OPENED link asks the peer to terminate, and without an answer the
      device is down after what is left of the shared timer and three seconds for each retry, two
      of them unless some are left over. */
  lemma UnansweredClose(s: State)
    requires Layered(s) && s.lcp == LcpState.Opened
    ensures var t := Step(s, DisconnectCall);
            var n := (if s.timerVal == 0 then 3 else s.timerVal) + 3 * Retries(s, 2);
            && t.lcp == Closing && SentBetween(s, t, TermReq)
            && LastsExactly(t, n)
  {
    hide Step;
    hide EvalLcp;
    hide LcpTable;
    hide LastsExactly;
    CloseForm(s);
    StepKeeps(s, DisconnectCall);
    var t := Step(s, DisconnectCall);
    assert t.wire[|s.wire|] == Sent(TermReq, Connected);
    hide Layered;
    RestartStates(t.lcp);
    Unanswered(t, (if s.timerVal == 0 then 3 else s.timerVal) + 3 * Retries(s, 2));
  }

  // ---------- the modem ----------

  predicate Dialogue(state: ModemState) { !state.Initial? && state != Connected }

  lemma DialogueQuiet(s: State)
    requires Layered(s) && Dialogue(s.modem) && s.timerVal > 0
    ensures CheckLcp(s) == s && CheckAuth(s) == s && CheckIpcp(s) == s && s.lcp.Starting?
  {}

  lemma ModemTimeoutForm(s: State)
    requires Dialogue(s.modem)
    ensures var t := EvalModem(s, Timeout);
            && t == s.(modem := Reset, timers := s.timers + {ModemTimer}, timerVal := 3, wire := t.wire)
            && t.wire == s.wire + [Sent(AtCommand, Reset)]
  {
    hide EvalLcp;
    hide EvalAuth;
    hide EvalIpcp;
    hide LcpTable;
    ResetEntry(s.modem);
    hide ModemTable;
    RunOne(s.(modem := Reset), SendAt, 0);
  }

  lemma ResetEntry(state: ModemState)
    requires Dialogue(state)
    ensures ModemTable(state, Timeout) == Entry(Reset, [SendAt])
  {}

  /** While the modem answers nothing, its machine waits for the shared timer to run out and then
      starts again with a command. */
  lemma DialogueTick(s: State)
    requires Layered(s) && Dialogue(s.modem) && ModemTimer in s.timers && s.timerVal > 0
    ensures var t := TickStep(s);
            if s.timerVal > 1 then t == s.(timerVal := s.timerVal - 1)
            else t.modem == Reset && t.timerVal == 3 && ModemTimer in t.timers
                 && t.wire == s.wire + [Sent(AtCommand, Reset)]
  {
    hide EvalModem;
    hide EvalLcp;
    hide EvalAuth;
    hide EvalIpcp;
    TickKeeps(s);
    var s1 := s.(timerVal := s.timerVal - 1);
    ChecksKeep(s1);
    ModemTimeoutForm(s1.(timers := s1.timers - {ModemTimer}));
    DialogueQuiet(CheckModem(s1));
  }

  lemma {:induction false} DialogueTicks(s: State, k: nat)
    requires Layered(s) && Dialogue(s.modem) && ModemTimer in s.timers && s.timerVal > 0 && k <= s.timerVal
    ensures if k < s.timerVal then Ticks(s, k) == s.(timerVal := s.timerVal - k)
            else Ticks(s, k).modem == Reset && Ticks(s, k).wire == s.wire + [Sent(AtCommand, Reset)]
    decreases k
  {
    hide TickStep;
    if k > 0 {
      DialogueTick(s);
      TickKeeps(s);
      if s.timerVal > 1 {
        DialogueTicks(TickStep(s), k - 1);
      } else {
        assert Ticks(TickStep(s), 0) == TickStep(s);
      }
    }
  }

  /** Every positive answer moves the dialogue on; the next command has three seconds, dialling
      twenty, and after exactly that long without an answer the dialogue starts again. */
  lemma UnansweredCommand(s: State)
    requires Layered(s) && Dialogue(s.modem) && s.modem != Dial
    ensures var t := Step(s, RecvLine(LineOk)); var n := if s.modem == Cgatt then 20 else 3;
            && t.modem == (match s.modem case Reset => Echo case Echo => Creg case Creg => Cgreg case Cgreg => Cgdcont
                           case Cgdcont => Cgatt case _ => Dial)
            && t.wire == s.wire + [Sent(AtCommand, t.modem)]
            && (forall k :: 0 <= k < n ==> Ticks(t, k).modem == t.modem)
            && Ticks(t, n).modem == Reset
  {
    OkForm(s);
    StepKeeps(s, RecvLine(LineOk));
    var t, n := Step(s, RecvLine(LineOk)), if s.modem == Cgatt then 20 else 3;
    hide Step;
    hide Layered;
    hide Ticks;
    forall k | 0 <= k <= n ensures k < n ==> Ticks(t, k).modem == t.modem { DialogueTicks(t, k); }
    DialogueTicks(t, n);
  }

  lemma OkForm(s: State)
    requires Dialogue(s.modem) && s.modem != Dial
    ensures var t := Step(s, RecvLine(LineOk));
            && t.modem == (match s.modem case Reset => Echo case Echo => Creg case Creg => Cgreg case Cgreg => Cgdcont
                           case Cgdcont => Cgatt case _ => Dial)
            && t.wire == s.wire + [Sent(AtCommand, t.modem)]
            && ModemTimer in t.timers && t.timerVal == (if s.modem == Cgatt then 20 else 3)
  {
    var Entry(next, hs) := ModemTable(s.modem, ModemEvent.Ok);
    RunOne(s.(modem := next), hs[0], 0);
  }

  // ---------- authentication and addresses ----------

  lemma PapRetry(s: State)
    requires s.auth == AuthState.ReqSent && AuthTimer in s.timers && s.timerVal == 0
    ensures CheckAuth(s) == s.(timerVal := 3, timers := s.timers, wire := s.wire + [Sent(PapRequest, s.modem)])
  {
    RunTwo(s.(timers := s.timers - {AuthTimer}), Send(PapRequest), StartAuthTimer, 1);
  }

  lemma AddressRetry(s: State)
    requires !s.ipcp.Initial? && s.ipcp != IpcpState.Opened && IpcpTimer in s.timers && s.timerVal == 0
    ensures CheckIpcp(s) == s.(timerVal := 15, timers := s.timers, wire := s.wire + [Sent(IpcpReq, s.modem)])
  {
    RunTwo(s.(timers := s.timers - {IpcpTimer}), Send(IpcpReq), StartIpcpTimer, 0);
  }

  /** A request for authentication that finds no answer is repeated, and again three seconds
      later. */
  lemma PapRepeats(s: State)
    requires Layered(s) && s.lcp == LcpState.Opened && s.auth == AuthState.ReqSent && AuthTimer in s.timers
    ensures var t := TickStep(s);
            && t.lcp == s.lcp && t.auth == s.auth && AuthTimer in t.timers
            && (if s.timerVal > 1 then t == s.(timerVal := s.timerVal - 1)
                else t.timerVal == 3 && t.wire == s.wire + [Sent(PapRequest, Connected)])
  {
    hide EvalModem;
    hide EvalLcp;
    hide EvalAuth;
    hide EvalIpcp;
    RestartStates(s.lcp);
    var s1 := s.(timerVal := if s.timerVal > 0 then s.timerVal - 1 else 0);
    QuietModem(s1);
    var s2 := CheckModem(s1);
    if s.timerVal <= 1 { PapRetry(s2); }
  }

  lemma AuthenticatedQuiet(s: State)
    requires s.auth == Authenticated
    ensures CheckAuth(s) == s || CheckAuth(s) == s.(timers := s.timers - {AuthTimer})
  {
    RunNone(s.(timers := s.timers - {AuthTimer}), AuthRank(AuthEvent.To));
  }

  /** And one for addresses, and again fifteen seconds later. */
  lemma AddressesRepeat(s: State)
    requires Layered(s) && s.lcp == LcpState.Opened && s.auth == Authenticated
    requires s.ipcp != IpcpState.Opened && IpcpTimer in s.timers
    ensures var t := TickStep(s);
            && t.lcp == s.lcp && t.auth == s.auth && t.ipcp == s.ipcp && IpcpTimer in t.timers
            && (if s.timerVal > 1 then t == s.(timerVal := s.timerVal - 1)
                else t.timerVal == 15 && t.wire == s.wire + [Sent(IpcpReq, Connected)])
  {
    hide EvalModem;
    hide EvalLcp;
    hide EvalAuth;
    hide EvalIpcp;
    RestartStates(s.lcp);
    var s1 := s.(timerVal := if s.timerVal > 0 then s.timerVal - 1 else 0);
    QuietModem(s1);
    var s2 := CheckModem(s1);
    AuthenticatedQuiet(s2);
    if s.timerVal <= 1 { AddressRetry(CheckAuth(s2)); }
  }

  /** A challenge under CHAP is answered by a device whose link is up for it. */
  lemma ChallengeAnswered(s: State)
    requires Layered(s) && s.modem == Connected && s.authProto == PROTO_CHAP
    ensures SentBetween(s, Step(s, RecvPacket(Chap(Challenge))), ChapResponse) <==>
            s.auth == AuthState.Starting || s.auth == RspSent || s.auth == Authenticated
  {
    var Entry(next, hs) := AuthTable(s.auth, Rac);
    var s1 := s.(auth := next);
    if hs == [] {
      RunNone(s1, 1);
    } else if |hs| == 1 {
      RunOne(s1, hs[0], 1);
    } else {
      RunTwo(s1, hs[0], hs[1], 1);
    }
  }

  /** A request for addresses is acknowledged by every device that has asked for its own, unless
      it wants compressed headers: then another request goes out. */
  lemma AddressesAnswered(s: State, vj: bool)
    requires s.modem == Connected
    ensures var t := Step(s, RecvPacket(Ipcp(CodeReq, vj)));
            && (SentBetween(s, t, IpcpAck) <==> !vj && !s.ipcp.Initial?)
            && (SentBetween(s, t, IpcpReq) <==> vj || s.ipcp == IpcpState.Opened)
  {
    hide EvalIpcp;
    AcksAddresses(s);
    var t := Step(s, RecvPacket(Ipcp(CodeReq, vj)));
    assert t.wire[|s.wire|..] == if vj then [Sent(IpcpReq, Connected)]
                                 else if s.ipcp.Initial? then []
                                 else if s.ipcp == IpcpState.Opened then
                                   [Sent(IpcpReq, Connected), Sent(IpcpAck, Connected)]
                                 else [Sent(IpcpAck, Connected)];
  }

  lemma AcksAddresses(s: State)
    requires s.modem == Connected
    ensures EvalIpcp(s, IpcpEvent.RcrPos).wire ==
            s.wire + (match s.ipcp
                      case Initial => []
                      case Opened => [Sent(IpcpReq, Connected), Sent(IpcpAck, Connected)]
                      case _ => [Sent(IpcpAck, Connected)])
  {
    hide EvalLcp;
    hide EvalAuth;
    hide EvalModem;
    var Entry(next, hs) := IpcpTable(s.ipcp, IpcpEvent.RcrPos);
    var s1 := s.(ipcp := next);
    match s.ipcp
    case Initial => RunNone(s1, 0);
    case AckRcvd => RunTwo(s1, hs[0], hs[1], 0);
    case Opened =>
      assert hs[1..] == [hs[1], hs[2]];
      RunTwo(s1, hs[1], hs[2], 0);
    case _ => RunOne(s1, hs[0], 0);
  }
}
