/** How the device gets where only a disconnect call helps: exactly by an ERROR answer while
    LCP waits for the modem. */
module PppStuck {
  import opened PppTables
  import opened PppFsm
  import opened PppLayering
  import opened PppRuns

  lemma LeafMoves(s: State, next: LcpState, hs: seq<Handler>, rank: nat)
    requires Bounded(hs, rank) && LeafEntry(s.lcp, next, hs)
    ensures !Stuck(RunHandlers(EnterLcp(s, next), hs, rank))
  {
    LeafHandlersForm(EnterLcp(s, next), hs, rank);
  }

  lemma FinishMoves(s: State, next: LcpState, hs: seq<Handler>, rank: nat)
    requires s.modem == Connected && Bounded(hs, rank) && FinishEntry(s.lcp, next, hs)
    ensures !Stuck(RunHandlers(EnterLcp(s, next), hs, rank))
  {
    assert HandlerRank(hs[0]) <= rank;
    RunOne(EnterLcp(s, next), LayerFinished, rank);
    FinishedForm(EnterLcp(s, next));
  }

  lemma UpMoves(s: State, next: LcpState, hs: seq<Handler>, rank: nat)
    requires Layered(s) && Bounded(hs, rank) && UpEntry(s.lcp, next, hs)
    ensures !Stuck(RunHandlers(EnterLcp(s, next), hs, rank))
  {
    hide EvalAuth;
    hide EvalLcp;
    hide LcpTable;
    var s1 := EnterLcp(s, next);
    assert HandlerRank(hs[|hs| - 1]) <= rank;
    if hs == [LayerUp] {
      RunOne(s1, LayerUp, rank);
      AuthUpForm(s1);
    } else {
      RunTwo(s1, Send(ConfAck), LayerUp, rank);
      AuthUpForm(Emit(s1, ConfAck));
    }
  }

  lemma DownMoves(s: State, next: LcpState, hs: seq<Handler>, rank: nat)
    requires Bounded(hs, rank) && DownEntry(s.lcp, next, hs)
    ensures !Stuck(RunHandlers(EnterLcp(s, next), hs, rank))
  {
    var s1 := EnterLcp(s, next);
    RestartStates(next);
    AuthDownForm(s1);
    LeafHandlersForm(EvalAuth(s1, AuthEvent.Down), hs[1..], rank);
  }

  lemma LcpMoves(s: State, e: LcpEvent)
    requires Layered(s) && s.modem == Connected && !e.Up? && !e.Down?
    ensures !Stuck(EvalLcp(s, e))
  {
    hide EnterLcp;
    hide RunHandlers;
    var Entry(next, hs) := LcpTable(s.lcp, e);
    LcpTableBounded(s.lcp, e);
    LcpShapes(s.lcp, e);
    if LeafEntry(s.lcp, next, hs) {
      LeafMoves(s, next, hs, LcpRank(e));
    } else if FinishEntry(s.lcp, next, hs) {
      FinishMoves(s, next, hs, LcpRank(e));
    } else if UpEntry(s.lcp, next, hs) {
      UpMoves(s, next, hs, LcpRank(e));
    } else {
      DownMoves(s, next, hs, LcpRank(e));
    }
  }

  lemma OpenMoves(s: State)
    requires Layered(s) && s.lcp.Initial?
    ensures !Stuck(EvalLcp(s, Open))
  {
    var s1 := EnterLcp(s, LcpState.Starting);
    RunOne(s1, LayerStarted, 4);
    ModemStartForm(s1);
  }

  lemma CloseMoves(s: State)
    requires Layered(s)
    ensures !Stuck(EvalLcp(s, Close))
  {
    if s.modem == Connected {
      LcpMoves(s, Close);
    } else {
      var s1 := EnterLcp(s, LcpState.Initial);
      RunNone(s1, 4);
      RunOne(s1, LayerFinished, 4);
      ModemStopForm(s1);
    }
  }

  lemma ModemEntriesMove(state: ModemState, e: ModemEvent)
    requires e.Ok? || e.Timeout? || e.Connect?
    ensures ModemTable(state, e).next.Initial? <==> state.Initial?
  {}

  lemma ModemMoves(s: State, e: ModemEvent)
    requires Layered(s) && !Stuck(s) && (e.Ok? || e.Timeout? || (s.modem != Connected && e.Connect?))
    ensures !Stuck(EvalModem(s, e))
  {
    var Entry(next, hs) := ModemTable(s.modem, e);
    var s1 := s.(modem := next);
    ModemTableBounded(s.modem, e);
    ModemShapes(s.modem, e);
    ModemEntriesMove(s.modem, e);
    hide ModemTable;
    if hs == [] {
      RunNone(s1, ModemRank(e));
    } else {
      RunOne(s1, hs[0], ModemRank(e));
      if hs[0] == ModemUp { LcpUpForm(s1); }
    }
  }

  lemma AbortMoves(s: State, next: AuthState)
    requires Layered(s) && s.auth != Authenticated && next != Authenticated && (next.Initial? <==> s.auth.Initial?)
    ensures !Stuck(RunHandler(s.(auth := next), AbortAuth))
  {
    hide EvalLcp;
    hide LcpTable;
    hide EvalAuth;
    hide EvalModem;
    hide EvalIpcp;
    CloseMoves(s.(auth := next, timers := s.timers - {AuthTimer}));
  }

  lemma AuthMoves(s: State, e: AuthEvent)
    requires Layered(s) && !Stuck(s) && (e.Rac? || e.Raa? || e.Ran? || e.To?)
    ensures !Stuck(EvalAuth(s, e))
  {
    var Entry(next, hs) := AuthTable(s.auth, e);
    var s1 := s.(auth := next);
    AuthTableBounded(s.auth, e);
    AuthShapes(s.auth, e);
    hide AuthTable;
    hide EvalLcp;
    hide EvalIpcp;
    hide EvalModem;
    hide Layered;
    if hs == [AbortAuth] {
      assert HandlerRank(hs[0]) <= AuthRank(e);
      RunOne(s1, AbortAuth, AuthRank(e));
      AbortMoves(s, next);
    } else if hs == [Authorize] {
      RunOne(s1, Authorize, AuthRank(e));
      IpcpForm(s1, IpcpEvent.Up);
    } else {
      AuthLeafForm(s1, hs, AuthRank(e));
    }
  }

  lemma ChecksMove(s: State)
    requires Layered(s) && !Stuck(s)
    ensures !Stuck(CheckModem(s)) && !Stuck(CheckAuth(s)) && !Stuck(CheckIpcp(s)) && !Stuck(CheckLcp(s))
  {
    hide EvalLcp;
    hide EvalModem;
    hide EvalAuth;
    hide EvalIpcp;
    hide LcpTable;
    hide ModemTable;
    ModemMoves(s.(timers := s.timers - {ModemTimer}), Timeout);
    AuthMoves(s.(timers := s.timers - {AuthTimer}), AuthEvent.To);
    IpcpForm(s.(timers := s.timers - {IpcpTimer}), IpcpEvent.To);
    if s.modem == Connected {
      LcpMoves(s, ToNeg);
      LcpMoves(s, ToPos);
    } else {
      RestartStates(s.lcp);
    }
  }

  lemma TickMoves(s: State)
    requires Layered(s) && !Stuck(s)
    ensures !Stuck(TickStep(s))
  {
    hide CheckModem;
    hide CheckLcp;
    hide CheckAuth;
    hide CheckIpcp;
    hide EvalLcp;
    hide LcpTable;
    var s1 := s.(timerVal := if s.timerVal > 0 then s.timerVal - 1 else 0);
    ChecksKeep(s1);
    ChecksMove(s1);
    var s2 := CheckModem(s1);
    CheckLcpKeeps(s2);
    ChecksMove(s2);
    var s3 := CheckLcp(s2);
    ChecksKeep(s3);
    ChecksMove(s3);
    var s4 := CheckAuth(s3);
    ChecksKeep(s4);
    ChecksMove(s4);
    var s5 := CheckIpcp(s4);
    if s5.lcp.Initial? { OpenMoves(s5); }
  }

  lemma PacketMoves(s: State, p: Packet)
    requires Layered(s) && s.modem == Connected
    ensures !Stuck(ProcessPacket(s, p))
  {
    hide EvalLcp;
    hide EvalAuth;
    hide EvalIpcp;
    hide LcpTable;
    match p
    case LcpConfReq(options) =>
      var s' := s.(authProto := AdjustAuth(options, s.authProto));
      LcpMoves(s', LcpEvent.RcrNeg);
      LcpMoves(s'.(peerOpts := OptFlags(options)), LcpEvent.RcrPos);
    case LcpConfAck => LcpMoves(s, LcpEvent.Rca);
    case LcpConfNak(options) =>
      LcpMoves(s.(authProto := AdjustAuth(options, s.authProto)), LcpEvent.Rcn);
    case LcpConfRej(options) =>
      LcpMoves(s.(localOpts := s.localOpts - OptFlags(options)), LcpEvent.Rcn);
    case LcpEchoReq => LcpMoves(s, Rxr);
    case Pap(reply) =>
      AuthMoves(s, Raa);
      AuthMoves(s, Ran);
    case Chap(c) =>
      AuthMoves(s, Rac);
      AuthMoves(s, Raa);
      AuthMoves(s, Ran);
    case Ipcp(code, asksForVj) =>
      IpcpForm(s, IpcpEvent.RcrPos);
      IpcpForm(s, IpcpEvent.Rca);
      IpcpForm(s, IpcpEvent.Rcn);
    case Ignored =>
  }

  /** Over all inputs: one leads into it if and only if it is an ERROR answer that finds the
      modem not connected and LCP waiting for it. */
  lemma GetsStuckIff(s: State, i: Input)
    requires Layered(s) && !Stuck(s)
    ensures Stuck(Step(s, i)) <==> i == RecvLine(LineError) && s.modem != Connected && s.lcp.Starting?
  {
    hide EvalLcp;
    hide EvalModem;
    hide TickStep;
    hide ProcessPacket;
    match i
    case Tick => TickMoves(s);
    case ConnectCall =>
    case DisconnectCall => CloseMoves(s.(autoreconnect := false));
    case RecvLine(line) =>
      if s.modem != Connected {
        ModemMoves(s, ModemEvent.Ok);
        ModemMoves(s, Connect);
        ModemStopForm(s);
      }
    case RecvPacket(p) => if s.modem == Connected { PacketMoves(s, p); }
  }

  /** LCP waits for a modem that is not connected. */
  predicate Dialling(s: State) { s.modem != Connected && s.lcp.Starting? }

  /** The k-th input is an ERROR answer that finds the device dialling, and no disconnect call
      comes after it. */
  predicate PendingAt(inputs: seq<Input>, k: nat)
    requires k < |inputs|
  {
    && inputs[k] == RecvLine(LineError) && Dialling(Run(CREATED, inputs[..k]))
    && forall j :: k < j < |inputs| ==> inputs[j] != DisconnectCall
  }

  predicate ErrorPending(inputs: seq<Input>) {
    exists k :: 0 <= k < |inputs| && PendingAt(inputs, k)
  }

  lemma {:induction false} PendingEarlier(rest: seq<Input>, i: Input, k: nat)
    requires k < |rest|
    ensures PendingAt(rest + [i], k) <==> i != DisconnectCall && PendingAt(rest, k)
  {
    hide Run;
    hide Dialling;
    var inputs := rest + [i];
    assert inputs[..k] == rest[..k] && inputs[k] == rest[k];
    assert inputs[|rest|] == i;
    assert forall j :: k < j < |rest| ==> inputs[j] == rest[j];
    if i != DisconnectCall && PendingAt(rest, k) {
      forall j | k < j < |inputs| ensures inputs[j] != DisconnectCall {
        assert j < |rest| ==> inputs[j] == rest[j];
      }
    }
    if PendingAt(inputs, k) {
      forall j | k < j < |rest| ensures rest[j] != DisconnectCall {
        assert inputs[j] == rest[j];
      }
    }
  }

  lemma {:induction false} PendingLast(rest: seq<Input>, i: Input)
    ensures PendingAt(rest + [i], |rest|) <==> i == RecvLine(LineError) && Dialling(Run(CREATED, rest))
  {
    hide Run;
    hide Dialling;
    assert (rest + [i])[..|rest|] == rest;
  }

  lemma {:induction false} PendingExtends(rest: seq<Input>, i: Input)
    ensures ErrorPending(rest + [i]) <==>
            (i != DisconnectCall && ErrorPending(rest)) || (i == RecvLine(LineError) && Dialling(Run(CREATED, rest)))
  {
    hide Run;
    hide Dialling;
    hide PendingAt;
    PendingLast(rest, i);
    forall k | 0 <= k < |rest| ensures PendingAt(rest + [i], k) <==> i != DisconnectCall && PendingAt(rest, k) {
      PendingEarlier(rest, i, k);
    }
    if i != DisconnectCall && ErrorPending(rest) {
      var k :| 0 <= k < |rest| && PendingAt(rest, k);
      assert PendingAt(rest + [i], k);
    }
  }

  /** After every run the device is stuck if and only if such an answer is pending. */
  lemma {:induction false} StuckAfterIff(inputs: seq<Input>)
    ensures Stuck(Run(CREATED, inputs)) <==> ErrorPending(inputs)
  {
    hide Step;
    hide Layered;
    if inputs != [] {
      var rest, i := inputs[..|inputs| - 1], inputs[|inputs| - 1];
      assert inputs == rest + [i];
      StuckAfterIff(rest);
      PendingExtends(rest, i);
      hide ErrorPending;
      RunLayered(rest);
      if Stuck(Run(CREATED, rest)) {
        StuckStep(Run(CREATED, rest), i);
      } else {
        GetsStuckIff(Run(CREATED, rest), i);
      }
    }
  }
}
