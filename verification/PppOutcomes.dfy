/** What brings each layer of the PPP driver up and what takes it down, for every layered
    state and every input. */
module PppOutcomes {
  import opened PppTables
  import opened PppFsm
  import opened PppLayering
  import opened PppRuns

  // ---------- where an LCP event leads ----------

  /** Where authentication stands when LCP has just come up. */
  function Asked(authProto: nat): AuthState {
    if authProto == 0 then Authenticated
    else if authProto == PROTO_PAP then AuthState.ReqSent
    else if authProto == PROTO_CHAP then AuthState.Starting
    else AuthState.Initial
  }

  lemma UpOutcome(s: State)
    requires s.auth.Initial?
    ensures RunHandler(s, LayerUp).auth == Asked(s.authProto)
    ensures RunHandler(s, LayerUp).ipcp == IpcpState.Opened ==> s.ipcp == IpcpState.Opened
  {
    hide EvalIpcp;
    hide EvalLcp;
    hide EvalModem;
    hide IpcpTable;
    hide LcpTable;
    if s.authProto == PROTO_CHAP {
      RunNone(s.(auth := AuthState.Starting), 1);
    } else if s.authProto == PROTO_PAP {
      RunTwo(s.(auth := AuthState.ReqSent), Send(PapRequest), StartAuthTimer, 1);
    } else if s.authProto == 0 {
      IpcpEntries(s.ipcp);
      RunOne(s.(auth := Authenticated), Authorize, 1);
      IpcpForm(s.(auth := Authenticated), IpcpEvent.Up);
    }
  }

  /** The layers after an LCP event that leaves OPENED, reaches it, or neither. */
  ghost predicate Led(s: State, next: LcpState, t: State) {
    && (if next.Closed? || next.Stopped? then Below(t.lcp) else t.lcp == next && t.modem == Connected)
    && t.auth == (if next != LcpState.Opened then AuthState.Initial
                  else if s.lcp == LcpState.Opened then s.auth else Asked(s.authProto))
    && (t.ipcp == IpcpState.Opened ==> s.ipcp == IpcpState.Opened)
  }

  lemma LeafLeads(s: State, next: LcpState, hs: seq<Handler>, rank: nat)
    requires Layered(s) && s.modem == Connected && Bounded(hs, rank) && LeafEntry(s.lcp, next, hs)
    ensures Led(s, next, RunHandlers(EnterLcp(s, next), hs, rank))
  {
    LeafHandlersForm(EnterLcp(s, next), hs, rank);
  }

  lemma FinishLeads(s: State, next: LcpState, hs: seq<Handler>, rank: nat)
    requires Layered(s) && s.modem == Connected && Bounded(hs, rank) && FinishEntry(s.lcp, next, hs)
    ensures Led(s, next, RunHandlers(EnterLcp(s, next), hs, rank))
  {
    assert HandlerRank(hs[0]) <= rank;
    RunOne(EnterLcp(s, next), LayerFinished, rank);
    FinishedForm(EnterLcp(s, next));
  }

  lemma UpLeads(s: State, next: LcpState, hs: seq<Handler>, rank: nat)
    requires Layered(s) && s.modem == Connected && Bounded(hs, rank) && UpEntry(s.lcp, next, hs)
    ensures Led(s, next, RunHandlers(EnterLcp(s, next), hs, rank))
  {
    hide EvalAuth;
    hide EvalLcp;
    hide LcpTable;
    var s1 := EnterLcp(s, next);
    assert HandlerRank(hs[|hs| - 1]) <= rank;
    if hs == [LayerUp] {
      RunOne(s1, LayerUp, rank);
      AuthUpForm(s1);
      UpOutcome(s1);
    } else {
      RunTwo(s1, Send(ConfAck), LayerUp, rank);
      AuthUpForm(Emit(s1, ConfAck));
      UpOutcome(Emit(s1, ConfAck));
    }
  }

  lemma DownLeads(s: State, next: LcpState, hs: seq<Handler>, rank: nat)
    requires Layered(s) && s.modem == Connected && Bounded(hs, rank) && DownEntry(s.lcp, next, hs)
    ensures Led(s, next, RunHandlers(EnterLcp(s, next), hs, rank))
  {
    var s1 := EnterLcp(s, next);
    RestartStates(next);
    AuthDownForm(s1);
    LeafHandlersForm(EvalAuth(s1, AuthEvent.Down), hs[1..], rank);
  }

  lemma LcpLeads(s: State, e: LcpEvent)
    requires Layered(s) && s.modem == Connected && !e.Up? && !e.Down?
    ensures Led(s, LcpTable(s.lcp, e).next, EvalLcp(s, e))
  {
    hide EnterLcp;
    hide RunHandlers;
    hide Led;
    var Entry(next, hs) := LcpTable(s.lcp, e);
    LcpTableBounded(s.lcp, e);
    LcpShapes(s.lcp, e);
    if LeafEntry(s.lcp, next, hs) {
      LeafLeads(s, next, hs, LcpRank(e));
    } else if FinishEntry(s.lcp, next, hs) {
      FinishLeads(s, next, hs, LcpRank(e));
    } else if UpEntry(s.lcp, next, hs) {
      UpLeads(s, next, hs, LcpRank(e));
    } else {
      DownLeads(s, next, hs, LcpRank(e));
    }
  }

  // ---------- where an authentication event leads ----------

  lemma AuthLeads(s: State, e: AuthEvent)
    requires Layered(s) && s.modem == Connected && (e.Rac? || e.Raa? || e.To?)
    ensures var t := EvalAuth(s, e);
            && t.lcp == s.lcp && t.modem == s.modem
            && (t.ipcp == IpcpState.Opened ==> s.ipcp == IpcpState.Opened)
            && t.auth == AuthTable(s.auth, e).next
  {
    hide EvalLcp;
    hide EvalIpcp;
    hide EvalModem;
    var Entry(next, hs) := AuthTable(s.auth, e);
    var s1 := s.(auth := next);
    AuthTableBounded(s.auth, e);
    assert hs == [Authorize] || AllAuthLeaf(hs);
    hide AuthTable;
    hide Layered;
    if hs == [Authorize] {
      RunOne(s1, Authorize, AuthRank(e));
      IpcpForm(s1, IpcpEvent.Up);
    } else {
      AuthLeafForm(s1, hs, AuthRank(e));
    }
  }

  /** A refusal closes the link, wherever it stands, unless it comes too late. */
  lemma RefusalLeads(s: State)
    requires Layered(s) && s.modem == Connected
    ensures var t := EvalAuth(s, Ran);
            if s.auth == Authenticated then t == s
            else t.lcp == Closing && t.auth.Initial? && (t.ipcp == IpcpState.Opened ==> s.ipcp == IpcpState.Opened)
  {
    hide EvalLcp;
    hide EvalIpcp;
    hide EvalModem;
    var Entry(next, hs) := AuthTable(s.auth, Ran);
    var s1 := s.(auth := next);
    if s.auth == Authenticated {
      RunNone(s1, AuthRank(Ran));
    } else {
      RunOne(s1, AbortAuth, AuthRank(Ran));
      LcpLeads(s1.(timers := s.timers - {AuthTimer}), Close);
    }
  }

  // ---------- ticks ----------

  /** No layer has come up, and LCP and authentication have not gone down from the top. */
  predicate Quiet(s: State, t: State) {
    && (t.modem == Connected ==> s.modem == Connected)
    && (t.lcp == LcpState.Opened <==> s.lcp == LcpState.Opened)
    && (t.auth == Authenticated <==> s.auth == Authenticated)
    && (t.ipcp == IpcpState.Opened ==> s.ipcp == IpcpState.Opened)
  }

  lemma TimeoutQuiet(s: State)
    requires Layered(s)
    ensures Quiet(s, EvalModem(s, Timeout))
  {
    var Entry(next, hs) := ModemTable(s.modem, Timeout);
    if hs == [] { RunNone(s, 0); } else { RunOne(s.(modem := next), SendAt, 0); }
  }

  lemma LcpTimeoutQuiet(s: State)
    requires Layered(s) && RestartRuns(s.lcp)
    ensures Quiet(s, EvalLcp(s, ToPos)) && Quiet(s, EvalLcp(s, ToNeg))
  {
    hide EvalLcp;
    LcpLeads(s, ToPos);
    LcpLeads(s, ToNeg);
    RestartStates(s.lcp);
  }

  lemma OpenQuiet(s: State)
    requires Layered(s) && s.lcp.Initial?
    ensures Quiet(s, EvalLcp(s, Open))
  {
    var s1 := EnterLcp(s, LcpState.Starting);
    RunOne(s1, LayerStarted, 4);
    ModemStartForm(s1);
  }

  lemma AuthTimeoutQuiet(s: State)
    requires Layered(s)
    ensures Quiet(s, EvalAuth(s, AuthEvent.To))
  {
    if s.modem == Connected {
      AuthLeads(s, AuthEvent.To);
    } else {
      RunNone(s, AuthRank(AuthEvent.To));
    }
  }

  lemma ChecksQuiet(s: State)
    requires Layered(s)
    ensures Quiet(s, CheckModem(s)) && Quiet(s, CheckAuth(s)) && Quiet(s, CheckIpcp(s))
  {
    hide EvalLcp;
    hide EvalModem;
    hide EvalAuth;
    hide EvalIpcp;
    hide LcpTable;
    TimeoutQuiet(s.(timers := s.timers - {ModemTimer}));
    AuthTimeoutQuiet(s.(timers := s.timers - {AuthTimer}));
    IpcpForm(s.(timers := s.timers - {IpcpTimer}), IpcpEvent.To);
  }

  lemma CheckLcpQuiet(s: State)
    requires Layered(s)
    ensures Quiet(s, CheckLcp(s))
  {
    hide EvalLcp;
    if LcpReqTimer in s.timers || LcpTermTimer in s.timers { LcpTimeoutQuiet(s); }
  }

  lemma TickQuiet(s: State)
    requires Layered(s)
    ensures Quiet(s, TickStep(s))
  {
    hide CheckModem;
    hide CheckLcp;
    hide CheckAuth;
    hide CheckIpcp;
    hide EvalLcp;
    hide Layered;
    var s1 := s.(timerVal := if s.timerVal > 0 then s.timerVal - 1 else 0);
    TimeChangesNothing(s, s1);
    ChecksQuiet(s1);
    ChecksKeep(s1);
    var s2 := CheckModem(s1);
    CheckLcpQuiet(s2);
    CheckLcpKeeps(s2);
    var s3 := CheckLcp(s2);
    ChecksQuiet(s3);
    ChecksKeep(s3);
    var s4 := CheckAuth(s3);
    ChecksQuiet(s4);
    ChecksKeep(s4);
    var s5 := CheckIpcp(s4);
    if s5.lcp.Initial? { OpenQuiet(s5); }
  }

  lemma TimeChangesNothing(s: State, t: State)
    requires Layered(s) && t == s.(timerVal := t.timerVal)
    ensures Layered(t)
  {}

  // ---------- what brings the layers up ----------

  /** Every option of a request is one the device knows. */
  predicate Acceptable(options: seq<LcpOption>, known: set<nat>) {
    forall o <- options :: o.kind % 32 < 16 ==> o.kind % 32 in known
  }

  lemma AcceptableFlags(options: seq<LcpOption>, known: set<nat>)
    ensures OptFlags(options) - known == {} <==> Acceptable(options, known)
  {
    if OptFlags(options) - known == {} {
      forall o | o in options && o.kind % 32 < 16 ensures o.kind % 32 in known {
        assert o.kind % 32 in OptFlags(options);
        assert o.kind % 32 in OptFlags(options) - known || o.kind % 32 in known;
      }
    }
  }

  /** The inputs that can bring LCP up: a request the device accepts, after its own was
      acknowledged, or the acknowledgement, after it accepted the peer's. */
  predicate Opening(s: State, i: Input) {
    || (s.lcp == LcpState.AckRcvd && i.RecvPacket? && i.packet.LcpConfReq? && Acceptable(i.packet.options, s.localOpts))
    || (s.lcp == LcpState.AckSent && i == RecvPacket(LcpConfAck))
  }

  /** A tick, a call or a modem answer brings up no layer above the modem. */
  lemma OtherInputs(s: State, i: Input)
    requires Layered(s) && !i.RecvPacket? && !i.DisconnectCall?
    ensures var t := Step(s, i);
            && (t.lcp == LcpState.Opened <==> s.lcp == LcpState.Opened)
            && (t.auth == Authenticated <==> s.auth == Authenticated)
            && (t.ipcp == IpcpState.Opened ==> s.ipcp == IpcpState.Opened)
  {
    hide EvalLcp;
    hide EvalModem;
    hide TickStep;
    match i
    case Tick => TickQuiet(s);
    case ConnectCall =>
    case RecvLine(line) => if s.modem != Connected { LineQuiet(s, line); }
  }

  lemma LineQuiet(s: State, line: Line)
    requires Layered(s) && s.modem != Connected
    ensures var t := Step(s, RecvLine(line));
            && (t.modem == Connected <==> s.modem == Dial && line == LineConnect)
            && t.lcp != LcpState.Opened && t.auth == s.auth && t.ipcp == s.ipcp
  {
    hide EvalModem;
    ModemLeads(s, ModemEvent.Ok);
    ModemLeads(s, Stop);
    ModemLeads(s, Connect);
  }

  lemma ModemLeads(s: State, e: ModemEvent)
    requires Layered(s) && s.modem != Connected && (e.Ok? || e.Stop? || e.Connect?)
    ensures var t := EvalModem(s, e);
            && (t.modem == Connected <==> s.modem == Dial && e.Connect?)
            && t.lcp != LcpState.Opened && t.auth == s.auth && t.ipcp == s.ipcp
  {
    hide EvalLcp;
    hide EvalAuth;
    hide EvalIpcp;
    var Entry(next, hs) := ModemTable(s.modem, e);
    var s1 := s.(modem := next);
    ModemTableBounded(s.modem, e);
    if hs == [] {
      RunNone(s1, ModemRank(e));
    } else {
      RunOne(s1, hs[0], ModemRank(e));
      if hs[0] == ModemUp { LcpUpForm(s1); }
    }
  }

  predicate IsLcp(p: Packet) {
    p.LcpConfReq? || p.LcpConfAck? || p.LcpConfNak? || p.LcpConfRej? || p.LcpEchoReq?
  }

  /** The event an LCP packet raises. */
  function LcpEventOf(s: State, p: Packet): LcpEvent
    requires IsLcp(p)
  {
    match p
    case LcpConfReq(options) => if Acceptable(options, s.localOpts) then LcpEvent.RcrPos else LcpEvent.RcrNeg
    case LcpConfAck => LcpEvent.Rca
    case LcpEchoReq => Rxr
    case _ => LcpEvent.Rcn
  }

  lemma ConfigChangesNothing(s: State, t: State)
    requires Layered(s) && t == s.(authProto := t.authProto, peerOpts := t.peerOpts, localOpts := t.localOpts)
    ensures Layered(t)
  {}

  lemma LcpPacketLeads(s: State, p: Packet)
    requires Layered(s) && s.modem == Connected && IsLcp(p)
    ensures var t := ProcessPacket(s, p);
            && Led(s.(authProto := t.authProto), LcpTable(s.lcp, LcpEventOf(s, p)).next, t)
            && t.authProto == (if p.LcpConfReq? || p.LcpConfNak? then AdjustAuth(p.options, s.authProto)
                               else s.authProto)
            && t.peerOpts == (if p.LcpConfReq? && Acceptable(p.options, s.localOpts) then OptFlags(p.options)
                              else s.peerOpts)
            && t.localOpts == (if p.LcpConfRej? then s.localOpts - OptFlags(p.options) else s.localOpts)
  {
    hide EvalLcp;
    hide LcpTable;
    hide Layered;
    hide Acceptable;
    hide AdjustAuth;
    var e := LcpEventOf(s, p);
    if p.LcpConfReq? { AcceptableFlags(p.options, s.localOpts); }
    var s' := (
      match p
      case LcpConfReq(options) =>
        s.(authProto := AdjustAuth(options, s.authProto),
           peerOpts := if Acceptable(options, s.localOpts) then OptFlags(options) else s.peerOpts)
      case LcpConfNak(options) => s.(authProto := AdjustAuth(options, s.authProto))
      case LcpConfRej(options) => s.(localOpts := s.localOpts - OptFlags(options))
      case _ => s);
    hide OptFlags;
    ConfigChangesNothing(s, s');
    LcpLeads(s', e);
    LcpConfig(s', e);
    hide Led;
    assert ProcessPacket(s, p) == EvalLcp(s', e);
    LedAlike(s', s.(authProto := s'.authProto), LcpTable(s.lcp, e).next, EvalLcp(s', e));
  }

  lemma LedAlike(a: State, b: State, next: LcpState, t: State)
    requires a.lcp == b.lcp && a.auth == b.auth && a.ipcp == b.ipcp && a.authProto == b.authProto
    ensures Led(a, next, t) <==> Led(b, next, t)
  {}

  /** The device is authenticated by this input: its credentials are accepted under the
      protocol agreed on, or the link comes up with no protocol asked for. */
  predicate Accepted(s: State, i: Input) {
    && s.modem == Connected && (s.auth == AuthState.ReqSent || s.auth == RspSent)
    && ((s.authProto == PROTO_PAP && i == RecvPacket(Pap(PapAck)))
        || (s.authProto == PROTO_CHAP && i == RecvPacket(Chap(Success))))
  }

  /** And this one refuses it. */
  predicate Refused(s: State, i: Input) {
    && s.modem == Connected
    && ((s.authProto == PROTO_PAP && i == RecvPacket(Pap(PapNak)))
        || (s.authProto == PROTO_CHAP && i == RecvPacket(Chap(Failure))))
  }

  /** Inputs after which LCP is not OPENED any more. */
  predicate TakesDown(s: State, i: Input) {
    || i == DisconnectCall
    || (i.RecvPacket? && IsLcp(i.packet) && !i.packet.LcpEchoReq?)
    || (Refused(s, i) && s.auth != Authenticated)
  }

  lemma AuthPacketLeads(s: State, p: Packet)
    requires Layered(s) && s.modem == Connected && (p.Pap? || p.Chap?)
    ensures var i, t := RecvPacket(p), ProcessPacket(s, p);
            && (t.ipcp == IpcpState.Opened ==> s.ipcp == IpcpState.Opened)
            && (if Refused(s, i) && s.auth != Authenticated then t.lcp == Closing && t.auth.Initial?
                else t.lcp == s.lcp
                     && (s.auth != Authenticated ==> (t.auth == Authenticated <==> Accepted(s, i)))
                     && (s.auth == Authenticated ==> (t.auth == Authenticated <==> !Rechallenge(s, i))))
  {
    hide EvalAuth;
    hide EvalLcp;
    hide EvalIpcp;
    hide EvalModem;
    AuthLeads(s, Rac);
    AuthLeads(s, Raa);
    RefusalLeads(s);
    AuthEntries(s.auth);
    hide AuthTable;
    hide Layered;
  }

  lemma AuthEntries(state: AuthState)
    ensures var raa, rac := AuthTable(state, Raa).next, AuthTable(state, Rac).next;
            && (raa == Authenticated <==> state == AuthState.ReqSent || state == RspSent || state == Authenticated)
            && rac != Authenticated
  {}

  lemma IpcpPacketLeads(s: State, p: Packet)
    requires p.Ipcp?
    ensures var t := ProcessPacket(s, p);
            && t.lcp == s.lcp && t.auth == s.auth
            && (s.ipcp != IpcpState.Opened ==> (t.ipcp == IpcpState.Opened <==> Agreed(s, p)))
  {
    hide EvalIpcp;
    hide EvalAuth;
    hide EvalLcp;
    IpcpForm(s, IpcpEvent.RcrPos);
    IpcpForm(s, IpcpEvent.Rca);
    IpcpForm(s, IpcpEvent.Rcn);
    IpcpEntries(s.ipcp);
    hide IpcpTable;
    hide AtOk;
    hide FramesOk;
  }

  lemma IpcpEntries(state: IpcpState)
    ensures IpcpTable(state, IpcpEvent.RcrPos).next == IpcpState.Opened <==> state == IpcpState.AckRcvd
    ensures state != IpcpState.Opened ==>
              (IpcpTable(state, IpcpEvent.Rca).next == IpcpState.Opened <==> state == IpcpState.AckSent)
    ensures IpcpTable(state, IpcpEvent.Rcn).next != IpcpState.Opened
    ensures IpcpTable(state, IpcpEvent.Up).next == IpcpState.Opened <==> state == IpcpState.Opened
  {}

  /** The peer's addresses are accepted after ours were, or the other way round. */
  predicate Agreed(s: State, p: Packet) {
    || (s.ipcp == IpcpState.AckRcvd && p == Ipcp(CodeReq, false))
    || (s.ipcp == IpcpState.AckSent && p == Ipcp(CodeAck, false))
  }

  lemma DisconnectLeads(s: State)
    requires Layered(s)
    ensures var t := Step(s, DisconnectCall);
            t.lcp != LcpState.Opened && t.auth.Initial? && (t.ipcp == IpcpState.Opened ==> s.ipcp == IpcpState.Opened)
  {
    hide EvalLcp;
    var s1 := s.(autoreconnect := false);
    if s.modem == Connected {
      LcpLeads(s1, Close);
    } else {
      CloseBelow(s1);
    }
  }

  lemma CloseBelow(s: State)
    requires Layered(s) && s.modem != Connected
    ensures var t := EvalLcp(s, Close); t.lcp.Initial? && t.auth == s.auth && t.ipcp == s.ipcp
  {
    var s1 := EnterLcp(s, LcpState.Initial);
    RunNone(s1, 4);
    RunOne(s1, LayerFinished, 4);
    ModemStopForm(s1);
  }

  /** LCP comes up by exactly these inputs. */
  lemma OpensIff(s: State, i: Input)
    requires Layered(s) && s.lcp != LcpState.Opened
    ensures Step(s, i).lcp == LcpState.Opened <==> Opening(s, i)
  {
    hide ProcessPacket;
    hide Layered;
    if i.RecvPacket? && s.modem == Connected {
      PacketLeads(s, i.packet);
    } else if i.DisconnectCall? {
      DisconnectLeads(s);
    } else if i.RecvPacket? {
      BelowModem(s);
    } else {
      OtherInputs(s, i);
    }
  }

  lemma BelowModem(s: State)
    requires Layered(s) && s.modem != Connected
    ensures Below(s.lcp) && s.auth.Initial?
  {}

  lemma PacketLeads(s: State, p: Packet)
    requires Layered(s) && s.modem == Connected
    ensures var i, t := RecvPacket(p), ProcessPacket(s, p);
            && (s.lcp != LcpState.Opened ==> (t.lcp == LcpState.Opened <==> Opening(s, i)))
            && (s.lcp == LcpState.Opened ==> (t.lcp != LcpState.Opened <==> TakesDown(s, i)))
            && (s.auth != Authenticated ==>
                  (t.auth == Authenticated <==>
                   Accepted(s, i) || (s.lcp != LcpState.Opened && t.lcp == LcpState.Opened && t.authProto == 0)))
            && (s.auth == Authenticated ==>
                  (t.auth == Authenticated <==> !Rechallenge(s, i) && t.lcp == LcpState.Opened))
            && (s.ipcp != IpcpState.Opened ==> (t.ipcp == IpcpState.Opened <==> Agreed(s, p)))
  {
    hide EvalAuth;
    hide EvalLcp;
    if IsLcp(p) {
      LcpPacketLeads(s, p);
      LcpEntries(s, p);
      hide LcpTable;
      hide ProcessPacket;
    } else if p.Pap? || p.Chap? {
      AuthPacketLeads(s, p);
      hide ProcessPacket;
    } else if p.Ipcp? {
      IpcpPacketLeads(s, p);
      hide ProcessPacket;
    }
  }

  lemma LcpEntries(s: State, p: Packet)
    requires Layered(s) && s.modem == Connected && IsLcp(p)
    ensures var next := LcpTable(s.lcp, LcpEventOf(s, p)).next;
            && (s.lcp != LcpState.Opened ==> (next == LcpState.Opened <==> Opening(s, RecvPacket(p))))
            && (s.lcp == LcpState.Opened ==> (next != LcpState.Opened <==> !p.LcpEchoReq?))
  {}

  /** The link comes up with no authentication protocol asked for. */
  predicate OpensFreely(s: State, t: State) {
    s.lcp != LcpState.Opened && t.lcp == LcpState.Opened && t.authProto == 0
  }

  /** A device becomes AUTHENTICATED by exactly three things: a PAP acknowledgement under PAP
      or a CHAP success under CHAP, either of them while an answer is out, or the link coming
      up with no protocol asked for. */
  lemma AuthenticatesIff(s: State, i: Input)
    requires Layered(s) && s.auth != Authenticated
    ensures Step(s, i).auth == Authenticated <==> Accepted(s, i) || OpensFreely(s, Step(s, i))
  {
    Moves(s, i);
  }

  /** And it stays so until it is challenged again or LCP leaves OPENED. */
  lemma StaysAuthenticatedIff(s: State, i: Input)
    requires Layered(s) && s.auth == Authenticated
    ensures Step(s, i).auth == Authenticated <==> !Rechallenge(s, i) && Step(s, i).lcp == LcpState.Opened
  {
    Moves(s, i);
  }

  /** LCP leaves OPENED by a disconnect call, by any LCP packet but an echo request, and by a
      refusal before authentication. */
  lemma LeavesOpenedIff(s: State, i: Input)
    requires Layered(s) && s.lcp == LcpState.Opened
    ensures Step(s, i).lcp != LcpState.Opened <==> TakesDown(s, i)
  {
    Moves(s, i);
  }

  /** A PAP refusal under PAP and a CHAP failure under CHAP close the link of a device that is
      not authenticated. */
  lemma RefusalCloses(s: State, i: Input)
    requires Layered(s) && Refused(s, i) && s.auth != Authenticated
    ensures Step(s, i).lcp == Closing && Step(s, i).auth.Initial?
  {
    AuthPacketLeads(s, i.packet);
  }

  /** IPCP comes up by the second of the two agreements and by nothing else. */
  lemma NetworkOpensIff(s: State, i: Input)
    requires Layered(s) && s.ipcp != IpcpState.Opened
    ensures Step(s, i).ipcp == IpcpState.Opened <==> s.modem == Connected && i.RecvPacket? && Agreed(s, i.packet)
  {
    Moves(s, i);
  }

  /** The modem is connected by the answer to dialling and by nothing else. */
  lemma ConnectsIff(s: State, i: Input)
    requires Layered(s) && s.modem != Connected
    ensures Step(s, i).modem == Connected <==> s.modem == Dial && i == RecvLine(LineConnect)
  {
    hide EvalLcp;
    hide TickStep;
    hide EvalModem;
    match i
    case Tick => TickQuiet(s);
    case ConnectCall =>
    case DisconnectCall =>
      StepKeeps(s, i);
      CloseBelow(s.(autoreconnect := false));
    case RecvLine(line) => LineQuiet(s, line);
    case RecvPacket(_) =>
  }

  lemma Moves(s: State, i: Input)
    requires Layered(s)
    ensures var t := Step(s, i);
            && (s.lcp == LcpState.Opened ==> (t.lcp != LcpState.Opened <==> TakesDown(s, i)))
            && (s.auth != Authenticated ==> (t.auth == Authenticated <==> Accepted(s, i) || OpensFreely(s, t)))
            && (s.auth == Authenticated ==>
                  (t.auth == Authenticated <==> !Rechallenge(s, i) && t.lcp == LcpState.Opened))
            && (s.ipcp != IpcpState.Opened ==>
                  (t.ipcp == IpcpState.Opened <==> s.modem == Connected && i.RecvPacket? && Agreed(s, i.packet)))
  {
    hide ProcessPacket;
    if i.RecvPacket? {
      if s.modem == Connected {
        PacketLeads(s, i.packet);
      } else {
        BelowModem(s);
      }
    } else if i.DisconnectCall? {
      DisconnectLeads(s);
    } else {
      OtherInputs(s, i);
    }
    OnlyAbove(s);
    hide Step;
    hide Layered;
  }

  lemma OnlyAbove(s: State)
    requires Layered(s)
    ensures s.auth == Authenticated ==> s.lcp == LcpState.Opened && s.modem == Connected
  {}

  // ---------- what a request is answered with ----------

  /** The last option asking for an authentication protocol decides, if there is one. */
  lemma {:induction false} LastAsked(options: seq<LcpOption>, current: nat)
    ensures if forall o <- options :: o.kind != OPT_AUTH then AdjustAuth(options, current) == current
            else exists k :: 0 <= k < |options| && options[k] == LcpOption(OPT_AUTH, AdjustAuth(options, current))
                             && forall j :: k < j < |options| ==> options[j].kind != OPT_AUTH
  {
    if options != [] {
      var front := options[..|options| - 1];
      assert options == front + [options[|options| - 1]];
      LastAsked(front, current);
      if options[|options| - 1].kind == OPT_AUTH {
        assert options[|options| - 1] == LcpOption(OPT_AUTH, AdjustAuth(options, current));
      }
    }
  }

  lemma IpcpUpEntry(state: IpcpState)
    ensures IpcpTable(state, IpcpEvent.Up) ==
            if state.Initial? then Entry(IpcpState.ReqSent, [Send(IpcpReq), StartIpcpTimer]) else Entry(state, [])
  {}

  lemma SendForm(s: State, f: Frame)
    ensures RunHandler(s, Send(f)) == Emit(s, f)
  {}

  lemma TimerForm(s: State)
    ensures RunHandler(s, StartIpcpTimer) == StartTimer(s, IpcpTimer, 15)
  {}

  lemma IpcpUpRuns(s: State)
    ensures var Entry(next, hs) := IpcpTable(s.ipcp, IpcpEvent.Up);
            Bounded(hs, 0) && EvalIpcp(s, IpcpEvent.Up) == RunHandlers(s.(ipcp := next), hs, 0)
  {
    hide IpcpTable;
    hide RunHandlers;
    hide RunHandler;
    IpcpTableBounded(s.ipcp, IpcpEvent.Up);
  }

  lemma IpcpUpWire(s: State)
    ensures EvalIpcp(s, IpcpEvent.Up).wire == s.wire + (if s.ipcp.Initial? then [Sent(IpcpReq, s.modem)] else [])
  {
    hide EvalIpcp;
    hide RunHandlers;
    hide RunHandler;
    hide IpcpTable;
    IpcpUpEntry(s.ipcp);
    IpcpUpRuns(s);
    if s.ipcp.Initial? {
      var s1 := s.(ipcp := IpcpState.ReqSent);
      RunTwo(s1, Send(IpcpReq), StartIpcpTimer, 0);
      SendForm(s1, IpcpReq);
      TimerForm(Emit(s1, IpcpReq));
    } else {
      RunNone(s.(ipcp := s.ipcp), 0);
    }
  }

  /** What goes out when LCP comes up. */
  function UpFrames(s: State): seq<Sent> {
    if s.authProto == PROTO_PAP then [Sent(PapRequest, s.modem)]
    else if s.authProto == 0 && s.ipcp.Initial? then [Sent(IpcpReq, s.modem)]
    else []
  }

  lemma UpWire(s: State)
    requires s.auth.Initial?
    ensures RunHandler(s, LayerUp).wire == s.wire + UpFrames(s)
  {
    hide EvalLcp;
    hide EvalModem;
    hide EvalIpcp;
    hide LcpTable;
    hide ModemTable;
    hide IpcpTable;
    if s.authProto == PROTO_CHAP {
      RunNone(s.(auth := AuthState.Starting), 1);
    } else if s.authProto == PROTO_PAP {
      RunTwo(s.(auth := AuthState.ReqSent), Send(PapRequest), StartAuthTimer, 1);
    } else if s.authProto == 0 {
      var s1 := s.(auth := Authenticated);
      RunOne(s1, Authorize, 1);
      IpcpUpWire(s1);
    }
  }

  /** The frame is among those that went out between the two states. */
  ghost predicate SentBetween(s: State, t: State, f: Frame) {
    |s.wire| <= |t.wire| && Sent(f, Connected) in t.wire[|s.wire|..]
  }

  predicate Negotiating(state: LcpState) {
    state == LcpState.ReqSent || state == LcpState.AckRcvd || state == LcpState.AckSent || state == LcpState.Opened
  }

  lemma AnswerOne(s: State, next: LcpState, f: Frame)
    requires s.modem == Connected
    ensures RunHandlers(EnterLcp(s, next), [Send(f)], 4).wire == s.wire + [Sent(f, Connected)]
  {
    RunOne(EnterLcp(s, next), Send(f), 4);
  }

  lemma RunFirst(s: State, h: Handler, rest: seq<Handler>, rank: nat)
    requires Bounded([h] + rest, rank)
    ensures Bounded(rest, rank) && RunHandlers(s, [h] + rest, rank) == RunHandlers(RunHandler(s, h), rest, rank)
  {
    hide RunHandler;
    hide HandlerRank;
    assert ([h] + rest)[1..] == rest && ([h] + rest)[0] == h;
    assert forall i :: 0 <= i < |rest| ==> rest[i] == ([h] + rest)[i + 1];
  }

  lemma DownHandler(s: State)
    ensures RunHandler(s, LayerDown)
         == s.(auth := AuthState.Initial, ipcp := if s.auth.Initial? then s.ipcp else IpcpState.Initial)
  {
    hide EvalAuth;
    AuthDownForm(s);
  }

  lemma DownThen(s: State, a: Handler, f: Frame)
    requires a.SendTermReq? || a.SendConfReq?
    ensures RunHandlers(s, [LayerDown, a, Send(f)], 4)
         == RunHandler(RunHandler(s.(auth := AuthState.Initial,
                                     ipcp := if s.auth.Initial? then s.ipcp else IpcpState.Initial), a), Send(f))
  {
    hide RunHandlers;
    hide RunHandler;
    DownHandler(s);
    assert [LayerDown, a, Send(f)] == [LayerDown] + [a, Send(f)];
    RunFirst(s, LayerDown, [a, Send(f)], 4);
    RunTwo(RunHandler(s, LayerDown), a, Send(f), 4);
  }

  lemma TermReqForm(s: State)
    ensures RunHandler(s, SendTermReq) == LcpTimerStart(Emit(s, TermReq), {LcpTermTimer})
  {}

  lemma ConfReqForm(s: State)
    ensures RunHandler(s, SendConfReq) == LcpTimerStart(Emit(s, ConfReq).(timerVal := DEFAULT_TIMER), {LcpReqTimer})
  {}

  lemma WireGrows(s: State, a: Handler, f: Frame)
    requires a.SendTermReq? || a.SendConfReq?
    ensures RunHandler(RunHandler(s, a), Send(f)).wire
         == s.wire + [Sent(if a.SendTermReq? then TermReq else ConfReq, s.modem), Sent(f, s.modem)]
  {
    TermReqForm(s);
    ConfReqForm(s);
    hide RunHandler;
    SendForm(RunHandler(s, a), f);
  }

  lemma AnswerDown(s: State, next: LcpState, a: Handler, f: Frame)
    requires s.modem == Connected && (a.SendTermReq? || a.SendConfReq?)
    ensures var g := if a.SendTermReq? then TermReq else ConfReq;
            RunHandlers(EnterLcp(s, next), [LayerDown, a, Send(f)], 4).wire
            == s.wire + [Sent(g, Connected), Sent(f, Connected)]
  {
    hide RunHandlers;
    hide RunHandler;
    hide LcpTable;
    var s1 := EnterLcp(s, next);
    DownThen(s1, a, f);
    WireGrows(s1.(auth := AuthState.Initial, ipcp := if s1.auth.Initial? then s1.ipcp else IpcpState.Initial), a, f);
  }

  lemma AnswerUp(s: State, next: LcpState)
    requires s.modem == Connected && s.auth.Initial?
    ensures var t := RunHandlers(EnterLcp(s, next), [Send(ConfAck), LayerUp], 4);
            && SentBetween(s, t, ConfAck) && !SentBetween(s, t, ConfRej)
  {
    hide EvalAuth;
    var s1 := Emit(EnterLcp(s, next), ConfAck);
    RunTwo(EnterLcp(s, next), Send(ConfAck), LayerUp, 4);
    UpWire(s1);
    hide RunHandlers;
    hide RunHandler;
    assert (s1.wire + UpFrames(s1))[|s.wire|..] == [Sent(ConfAck, Connected)] + UpFrames(s1);
  }

  /** The handlers that answer a request, by their last frame. */
  predicate Answering(hs: seq<Handler>, ok: bool) {
    var f := if ok then ConfAck else ConfRej;
    || hs == [Send(f)]
    || (ok && hs == [Send(ConfAck), LayerUp])
    || (|hs| == 3 && hs[0] == LayerDown && (hs[1].SendTermReq? || hs[1].SendConfReq?) && hs[2] == Send(f))
  }

  lemma RequestEntries(state: LcpState, ok: bool)
    requires Negotiating(state)
    ensures var hs := LcpTable(state, if ok then LcpEvent.RcrPos else LcpEvent.RcrNeg).handlers;
            Answering(hs, ok) && Bounded(hs, 4) && (hs == [Send(ConfAck), LayerUp] ==> state != LcpState.Opened)
  {}

  lemma Answers(s: State, next: LcpState, hs: seq<Handler>, ok: bool)
    requires s.modem == Connected && Answering(hs, ok) && Bounded(hs, 4)
    requires hs == [Send(ConfAck), LayerUp] ==> s.auth.Initial?
    ensures var t := RunHandlers(EnterLcp(s, next), hs, 4);
            (SentBetween(s, t, ConfAck) <==> ok) && (SentBetween(s, t, ConfRej) <==> !ok)
  {
    hide RunHandlers;
    hide EnterLcp;
    hide LcpTable;
    var f := if ok then ConfAck else ConfRej;
    if hs == [Send(ConfAck), LayerUp] {
      AnswerUp(s, next);
    } else if |hs| == 3 {
      assert hs == [LayerDown, hs[1], Send(f)];
      AnswerDown(s, next, hs[1], f);
    } else {
      AnswerOne(s, next, f);
    }
  }

  /** While LCP negotiates or is OPENED, a request is answered by an acknowledgement if and
      only if every option is known, and by a rejection otherwise. */
  lemma RequestAnswered(s: State, options: seq<LcpOption>)
    requires Layered(s) && Negotiating(s.lcp)
    ensures var t := Step(s, RecvPacket(LcpConfReq(options)));
            && (SentBetween(s, t, ConfAck) <==> Acceptable(options, s.localOpts))
            && (SentBetween(s, t, ConfRej) <==> !Acceptable(options, s.localOpts))
  {
    hide OptFlags;
    hide AdjustAuth;
    hide Acceptable;
    hide RunHandlers;
    hide LcpTable;
    hide SentBetween;
    hide EnterLcp;
    AcceptableFlags(options, s.localOpts);
    var flags, ok := OptFlags(options), Acceptable(options, s.localOpts);
    var e := if ok then LcpEvent.RcrPos else LcpEvent.RcrNeg;
    var s0 := s.(authProto := AdjustAuth(options, s.authProto), peerOpts := if ok then flags else s.peerOpts);
    var Entry(next, hs) := LcpTable(s.lcp, e);
    RequestEntries(s.lcp, ok);
    Answers(s0, next, hs, ok);
    assert EvalLcp(s0, e) == RunHandlers(EnterLcp(s0, next), hs, 4);
    hide EvalLcp;
    SameWire(s, s0, EvalLcp(s0, e), ConfAck);
    SameWire(s, s0, EvalLcp(s0, e), ConfRej);
  }

  lemma SameWire(s: State, s0: State, t: State, f: Frame)
    requires s.wire == s0.wire
    ensures SentBetween(s, t, f) == SentBetween(s0, t, f)
  {}

  /** An echo request is answered exactly by an OPENED device. */
  lemma EchoAnsweredIff(s: State)
    requires Layered(s)
    ensures SentBetween(s, Step(s, RecvPacket(LcpEchoReq)), EchoReply) <==> s.lcp == LcpState.Opened
  {
    if s.modem == Connected {
      if s.lcp == LcpState.Opened { AnswerOne(s, s.lcp, EchoReply); } else { RunNone(EnterLcp(s, s.lcp), 4); }
    }
  }

  // ---------- over whole runs ----------

  /** The k-th input authenticates the device. */
  predicate AcceptedAt(inputs: seq<Input>, k: nat)
    requires k < |inputs|
  {
    var s := Run(CREATED, inputs[..k]);
    s.auth != Authenticated && (Accepted(s, inputs[k]) || OpensFreely(s, Run(CREATED, inputs[..k + 1])))
  }

  /** The j-th input challenges the device again or leaves LCP out of OPENED. */
  predicate DisturbedAt(inputs: seq<Input>, j: nat)
    requires j < |inputs|
  {
    Rechallenge(Run(CREATED, inputs[..j]), inputs[j]) || Run(CREATED, inputs[..j + 1]).lcp != LcpState.Opened
  }

  predicate Undisturbed(inputs: seq<Input>, k: nat)
    requires k < |inputs|
  {
    forall j :: k < j < |inputs| ==> !DisturbedAt(inputs, j)
  }

  lemma {:induction false} FrontAt(front: seq<Input>, i: Input, j: nat)
    requires j < |front|
    ensures AcceptedAt(front + [i], j) <==> AcceptedAt(front, j)
    ensures DisturbedAt(front + [i], j) <==> DisturbedAt(front, j)
  {
    hide Run;
    hide Rechallenge;
    hide Accepted;
    hide OpensFreely;
    var all := front + [i];
    assert all[..j] == front[..j] && all[..j + 1] == front[..j + 1] && all[j] == front[j];
  }

  lemma {:induction false} LastAt(front: seq<Input>, i: Input)
    ensures var all, s, t := front + [i], Run(CREATED, front), Run(CREATED, front + [i]);
            && (AcceptedAt(all, |front|) <==> s.auth != Authenticated && (Accepted(s, i) || OpensFreely(s, t)))
            && (DisturbedAt(all, |front|) <==> Rechallenge(s, i) || t.lcp != LcpState.Opened)
  {
    hide Run;
    hide Rechallenge;
    hide Accepted;
    hide OpensFreely;
    var all := front + [i];
    assert all[..|front|] == front && all[..|front| + 1] == all && all[|front|] == i;
  }

  lemma {:induction false} FrontRun(front: seq<Input>, i: Input, k: nat)
    requires k < |front|
    ensures Undisturbed(front + [i], k) <==> Undisturbed(front, k) && !DisturbedAt(front + [i], |front|)
  {
    hide DisturbedAt;
    forall j | 0 <= j < |front| ensures DisturbedAt(front + [i], j) <==> DisturbedAt(front, j) {
      FrontAt(front, i, j);
    }
  }

  /** After every run the device is AUTHENTICATED if and only if some input of the run
      authenticated it and nothing disturbed it since. */
  lemma {:induction false} AuthenticatedByIff(inputs: seq<Input>)
    ensures Run(CREATED, inputs).auth == Authenticated <==>
            exists k :: 0 <= k < |inputs| && AcceptedAt(inputs, k) && Undisturbed(inputs, k)
  {
    if inputs != [] {
      var front, i := inputs[..|inputs| - 1], inputs[|inputs| - 1];
      assert inputs == front + [i];
      AuthenticatedByIff(front);
      RunLayered(front);
      Moves(Run(CREATED, front), i);
      AuthenticatedStep(front, i);
    }
  }

  lemma {:induction false} AuthenticatedStep(front: seq<Input>, i: Input)
    requires var s, t := Run(CREATED, front), Run(CREATED, front + [i]);
             && (s.auth != Authenticated ==> (t.auth == Authenticated <==> Accepted(s, i) || OpensFreely(s, t)))
             && (s.auth == Authenticated ==>
                   (t.auth == Authenticated <==> !Rechallenge(s, i) && t.lcp == LcpState.Opened))
    requires Run(CREATED, front).auth == Authenticated <==>
             exists k :: 0 <= k < |front| && AcceptedAt(front, k) && Undisturbed(front, k)
    requires forall k :: 0 <= k < |front| && AcceptedAt(front, k) && Undisturbed(front, k) ==>
               Run(CREATED, front).auth == Authenticated
    ensures Run(CREATED, front + [i]).auth == Authenticated <==>
            exists k :: 0 <= k < |front + [i]| && AcceptedAt(front + [i], k) && Undisturbed(front + [i], k)
  {
    hide Run;
    hide Accepted;
    hide OpensFreely;
    hide Rechallenge;
    hide AcceptedAt;
    hide DisturbedAt;
    var all, n := front + [i], |front|;
    forall k | 0 <= k < n
      ensures AcceptedAt(all, k) && Undisturbed(all, k) <==>
              AcceptedAt(front, k) && Undisturbed(front, k) && !DisturbedAt(all, n)
    {
      FrontAt(front, i, k);
      FrontRun(front, i, k);
    }
    LastAt(front, i);
    assert Undisturbed(all, n);
    hide Undisturbed;
    if Run(CREATED, all).auth == Authenticated {
      if Run(CREATED, front).auth == Authenticated {
        var k :| 0 <= k < n && AcceptedAt(front, k) && Undisturbed(front, k);
        assert AcceptedAt(all, k) && Undisturbed(all, k);
      } else {
        assert AcceptedAt(all, n);
      }
    }
  }
}
