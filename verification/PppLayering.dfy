/** Invariants of the PPP driver over every run, and exactly when the strongest one breaks. */
module PppLayering {
  import opened PppTables
  import opened PppFsm

  /** Modem commands leave only outside the connected state. */
  ghost predicate AtOk(wire: seq<Sent>) {
    forall i :: 0 <= i < |wire| && wire[i].frame == AtCommand ==> wire[i].modem != Connected
  }

  /** PPP frames leave only in the connected state. */
  ghost predicate FramesOk(wire: seq<Sent>) {
    forall i :: 0 <= i < |wire| && wire[i].frame != AtCommand ==> wire[i].modem == Connected
  }

  // ---------- unfolding handler lists ----------

  lemma RunNone(s: State, rank: nat)
    ensures RunHandlers(s, [], rank) == s
  {}

  lemma RunOne(s: State, a: Handler, rank: nat)
    requires HandlerRank(a) <= rank
    ensures RunHandlers(s, [a], rank) == RunHandler(s, a)
  {
    RunNone(RunHandler(s, a), rank);
  }

  lemma RunTwo(s: State, a: Handler, b: Handler, rank: nat)
    requires HandlerRank(a) <= rank && HandlerRank(b) <= rank
    ensures RunHandlers(s, [a, b], rank) == RunHandler(RunHandler(s, a), b)
  {
    assert [a, b][1..] == [b];
    RunOne(RunHandler(s, a), b, rank);
  }

  // ---------- closed forms of the cascades, bottom up ----------

  predicate IpcpHandler(h: Handler) {
    h.NoEffect? || h.StartIpcpTimer? || (h.Send? && h.frame != AtCommand)
  }

  lemma IpcpTableHandlers(state: IpcpState, e: IpcpEvent)
    ensures forall h <- IpcpTable(state, e).handlers :: IpcpHandler(h)
    ensures state.Initial? && !e.Up? ==> IpcpTable(state, e) == Entry(state, [])
  {}

  /** What an IPCP event can change. */
  ghost predicate IpcpFrame(s: State, t: State) {
    && t == s.(timers := t.timers, timerVal := t.timerVal, wire := t.wire)
    && s.timers <= t.timers <= s.timers + {IpcpTimer}
    && (s.timerVal != 0 ==> t.timerVal != 0)
    && (AtOk(s.wire) ==> AtOk(t.wire))
    && (s.modem == Connected && FramesOk(s.wire) ==> FramesOk(t.wire))
  }

  lemma IpcpHandlersForm(s: State, hs: seq<Handler>, rank: nat)
    requires Bounded(hs, rank) && forall h <- hs :: IpcpHandler(h)
    ensures IpcpFrame(s, RunHandlers(s, hs, rank))
    decreases |hs|
  {
    if hs != [] {
      assert hs[0] in hs;
      assert IpcpFrame(s, RunHandler(s, hs[0]));
      IpcpHandlersForm(RunHandler(s, hs[0]), hs[1..], rank);
    }
  }

  lemma IpcpForm(s: State, e: IpcpEvent)
    ensures EvalIpcp(s, e).ipcp == IpcpTable(s.ipcp, e).next
    ensures IpcpFrame(s.(ipcp := IpcpTable(s.ipcp, e).next), EvalIpcp(s, e))
    ensures s.ipcp.Initial? && !e.Up? ==> EvalIpcp(s, e) == s
  {
    var entry := IpcpTable(s.ipcp, e);
    IpcpTableBounded(s.ipcp, e);
    IpcpTableHandlers(s.ipcp, e);
    IpcpHandlersForm(s.(ipcp := entry.next), entry.handlers, 0);
  }

  lemma IpcpDownForm(s: State)
    ensures EvalIpcp(s, IpcpEvent.Down) == s.(ipcp := IpcpState.Initial)
  {
    hide EvalLcp;
    hide EvalModem;
    hide EvalAuth;
    hide LcpTable;
    hide ModemTable;
    hide AuthTable;
    var s1 := s.(ipcp := IpcpState.Initial);
    RunNone(s1, 0);
    RunOne(s1, NoEffect, 0);
    hide RunHandlers;
    IpcpForm(s, IpcpEvent.Down);
  }

  lemma AuthDownForm(s: State)
    ensures EvalAuth(s, AuthEvent.Down) ==
            s.(auth := AuthState.Initial,
               ipcp := if s.auth.Initial? then s.ipcp else IpcpState.Initial)
  {
    hide EvalLcp;
    hide EvalModem;
    hide LcpTable;
    hide ModemTable;
    hide IpcpTable;
    hide EvalIpcp;
    var s1 := s.(auth := AuthState.Initial);
    RunNone(s1, 1);
    RunOne(s1, Deauthorize, 1);
    hide RunHandlers;
    IpcpDownForm(s1);
  }

  lemma ModemStartForm(s: State)
    ensures EvalModem(s, Start) ==
            if s.modem.Initial?
            then StartTimer(Emit(s.(modem := Reset), AtCommand), ModemTimer, DEFAULT_TIMER)
            else s
  {
    RunNone(s, 0);
    RunOne(s.(modem := Reset), SendAt, 0);
  }

  lemma LcpUpForm(s: State)
    requires s.lcp.Starting?
    ensures EvalLcp(s, LcpEvent.Up) == RunHandler(s.(lcp := LcpState.ReqSent), SendConfReq)
  {
    RunOne(s.(lcp := LcpState.ReqSent), SendConfReq, 0);
  }

  /** Losing the lower layer from a state the cascades can be in when the modem stops. */
  lemma LcpDownForm(s: State)
    requires s.lcp.Closed? || s.lcp.Stopped?
    ensures EvalLcp(s, LcpEvent.Down) ==
            if s.lcp.Closed? then EnterLcp(s, LcpState.Initial)
            else EvalModem(EnterLcp(s, LcpState.Starting), Start)
  {
    RunNone(EnterLcp(s, LcpState.Initial), 2);
    RunOne(EnterLcp(s, LcpState.Starting), LayerStarted, 2);
  }

  lemma ModemStopEntry(state: ModemState)
    ensures ModemTable(state, Stop) == Entry(ModemState.Initial, if state == Connected then [ModemDown] else [])
  {}

  lemma ModemStopForm(s: State)
    ensures EvalModem(s, Stop) ==
            if s.modem == Connected
            then EvalLcp(Emit(s.(modem := ModemState.Initial), AtCommand), LcpEvent.Down)
            else s.(modem := ModemState.Initial)
  {
    hide LcpTable;
    hide AuthTable;
    hide EvalLcp;
    hide EvalAuth;
    hide IpcpTable;
    hide EvalIpcp;
    hide ModemTable;
    ModemStopEntry(s.modem);
    var s1 := s.(modem := ModemState.Initial);
    RunNone(s1, 3);
    RunOne(s1, ModemDown, 3);
    hide RunHandlers;
  }

  // ---------- the invariants ----------

  /** Kept by every input without exception. */
  ghost predicate Layered(s: State) {
    && (s.modem == Connected <==> !s.lcp.Initial? && !s.lcp.Starting?)
    && (!s.modem.Initial? && s.modem != Connected ==> s.lcp.Starting?)
    && !s.lcp.Closed? && !s.lcp.Stopped?
    && (!s.auth.Initial? ==> s.lcp == LcpState.Opened)
    && (s.auth == Authenticated ==> !s.ipcp.Initial?)
    && (LcpReqTimer in s.timers || LcpTermTimer in s.timers <==> RestartRuns(s.lcp))
    && AtOk(s.wire)
  }

  /** The network layer is up only above an authenticated link. */
  ghost predicate FullyLayered(s: State) {
    && Layered(s)
    && (!s.ipcp.Initial? ==> s.auth == Authenticated)
    && FramesOk(s.wire)
  }

  lemma RestartStates(state: LcpState)
    ensures RestartRuns(state) <==>
            state in {Closing, Stopping, LcpState.ReqSent, LcpState.AckRcvd, LcpState.AckSent}
  {}

  /** Ending a session: the lower layer is told to stop and comes back as a Down event. */
  lemma FinishedForm(s: State)
    requires s.lcp.Closed? || s.lcp.Stopped?
    requires s.modem == Connected
    ensures var t := RunHandler(s, LayerFinished);
            && t == s.(modem := t.modem, lcp := t.lcp, timers := t.timers, timerVal := t.timerVal, wire := t.wire)
            && (if s.lcp.Closed? then t.lcp.Initial? && t.modem.Initial? else t.lcp.Starting? && t.modem == Reset)
            && LcpReqTimer !in t.timers && LcpTermTimer !in t.timers
            && (AtOk(s.wire) ==> AtOk(t.wire))
            && (FramesOk(s.wire) ==> FramesOk(t.wire))
  {
    hide EvalLcp;
    hide EvalModem;
    hide RestartRuns;
    ModemStopForm(s);
    var s1 := Emit(s.(modem := ModemState.Initial), AtCommand);
    LcpDownForm(s1);
    RestartStates(LcpState.Initial);
    RestartStates(LcpState.Starting);
    ModemStartForm(EnterLcp(s1, LcpState.Starting));
  }

  /** What bringing authentication up can change. */
  ghost predicate AuthUpFrame(s: State, t: State) {
    && t == s.(auth := t.auth, ipcp := t.ipcp, timers := t.timers, timerVal := t.timerVal, wire := t.wire)
    && (t.auth == Authenticated ==> !t.ipcp.Initial?)
    && (s.ipcp.Initial? && !t.ipcp.Initial? ==> t.auth == Authenticated)
    && s.timers <= t.timers <= s.timers + {AuthTimer, IpcpTimer}
    && (AtOk(s.wire) ==> AtOk(t.wire))
    && (s.modem == Connected && FramesOk(s.wire) ==> FramesOk(t.wire))
  }

  lemma AuthUpNone(s: State)
    requires s.auth.Initial?
    ensures AuthUpFrame(s, EvalAuth(s, UpNone))
  {
    hide EvalIpcp;
    var s1 := s.(auth := Authenticated);
    RunOne(s1, Authorize, 1);
    IpcpForm(s1, IpcpEvent.Up);
  }

  lemma AuthUpPap(s: State)
    requires s.auth.Initial?
    ensures AuthUpFrame(s, EvalAuth(s, UpPap))
  {
    RunTwo(s.(auth := AuthState.ReqSent), Send(PapRequest), StartAuthTimer, 1);
  }

  lemma AuthUpForm(s: State)
    requires s.auth.Initial?
    ensures AuthUpFrame(s, RunHandler(s, LayerUp))
  {
    if s.authProto == PROTO_CHAP {
      RunNone(s.(auth := AuthState.Starting), 1);
    } else {
      hide EvalAuth;
      AuthUpNone(s);
      AuthUpPap(s);
    }
  }

  predicate LcpLeaf(h: Handler) {
    h.NoEffect? || (h.Send? && h.frame != AtCommand) || Arms(h)
  }

  predicate Arms(h: Handler) {
    h.SendConfReq? || h.SendTermReq? || h.InitRestartCount? || h.ZeroRestartCount?
  }

  /** What LCP handlers that raise no event can change. */
  ghost predicate LeafFrame(s: State, t: State, armed: bool) {
    && t == s.(timers := t.timers, timerVal := t.timerVal, timerCount := t.timerCount, wire := t.wire)
    && s.timers <= t.timers <= s.timers + {LcpReqTimer, LcpTermTimer}
    && (if armed then LcpReqTimer in t.timers || LcpTermTimer in t.timers else t.timers == s.timers)
    && (AtOk(s.wire) ==> AtOk(t.wire))
    && (s.modem == Connected && FramesOk(s.wire) ==> FramesOk(t.wire))
  }

  predicate AllLeaf(hs: seq<Handler>) {
    forall i :: 0 <= i < |hs| ==> LcpLeaf(hs[i])
  }

  predicate Armed(hs: seq<Handler>) {
    || (|hs| > 0 && Arms(hs[0]))
    || (|hs| > 1 && Arms(hs[1]))
    || (|hs| > 2 && Arms(hs[2]))
  }

  lemma LeafForm(s: State, h: Handler)
    requires LcpLeaf(h)
    ensures LeafFrame(s, RunHandler(s, h), Arms(h))
  {}

  lemma LeafHandlersForm(s: State, hs: seq<Handler>, rank: nat)
    requires Bounded(hs, rank) && AllLeaf(hs)
    ensures LeafFrame(s, RunHandlers(s, hs, rank), Armed(hs))
    decreases |hs|
  {
    if hs != [] {
      LeafForm(s, hs[0]);
      LeafHandlersForm(RunHandler(s, hs[0]), hs[1..], rank);
    }
  }

  predicate Below(state: LcpState) {
    state.Initial? || state.Starting?
  }

  /** Every LCP entry above the modem has one of four shapes. */
  predicate LeafEntry(state: LcpState, next: LcpState, hs: seq<Handler>) {
    && AllLeaf(hs)
    && (state.Opened? <==> next.Opened?)
    && !Below(next) && !next.Closed? && !next.Stopped?
    && (if Armed(hs) then RestartRuns(next) else RestartRuns(state) == RestartRuns(next))
  }

  predicate FinishEntry(state: LcpState, next: LcpState, hs: seq<Handler>) {
    hs == [LayerFinished] && (next.Closed? || next.Stopped?) && !state.Opened?
  }

  predicate UpEntry(state: LcpState, next: LcpState, hs: seq<Handler>) {
    next.Opened? && !state.Opened? && (hs == [LayerUp] || hs == [Send(ConfAck), LayerUp])
  }

  predicate DownEntry(state: LcpState, next: LcpState, hs: seq<Handler>) {
    && state.Opened? && RestartRuns(next)
    && hs != [] && hs[0] == LayerDown && AllLeaf(hs[1..]) && Armed(hs[1..])
  }

  lemma LcpShapes(state: LcpState, e: LcpEvent)
    requires !Below(state) && !state.Closed? && !state.Stopped? && !e.Up? && !e.Down?
    ensures var entry := LcpTable(state, e);
            || LeafEntry(state, entry.next, entry.handlers)
            || FinishEntry(state, entry.next, entry.handlers)
            || UpEntry(state, entry.next, entry.handlers)
            || DownEntry(state, entry.next, entry.handlers)
  {}

  lemma LeafKeeps(s: State, next: LcpState, hs: seq<Handler>, rank: nat)
    requires Layered(s) && s.modem == Connected
    requires Bounded(hs, rank) && LeafEntry(s.lcp, next, hs)
    ensures Layered(RunHandlers(EnterLcp(s, next), hs, rank))
    ensures FullyLayered(s) ==> FullyLayered(RunHandlers(EnterLcp(s, next), hs, rank))
  {
    LeafHandlersForm(EnterLcp(s, next), hs, rank);
  }

  lemma FinishKeeps(s: State, next: LcpState, hs: seq<Handler>, rank: nat)
    requires Layered(s) && s.modem == Connected
    requires Bounded(hs, rank) && FinishEntry(s.lcp, next, hs)
    ensures Layered(RunHandlers(EnterLcp(s, next), hs, rank))
    ensures FullyLayered(s) ==> FullyLayered(RunHandlers(EnterLcp(s, next), hs, rank))
  {
    assert HandlerRank(hs[0]) <= rank;
    RunOne(EnterLcp(s, next), LayerFinished, rank);
    FinishedForm(EnterLcp(s, next));
  }

  lemma UpKeeps(s: State, next: LcpState, hs: seq<Handler>, rank: nat)
    requires Layered(s) && s.modem == Connected
    requires Bounded(hs, rank) && UpEntry(s.lcp, next, hs)
    ensures Layered(RunHandlers(EnterLcp(s, next), hs, rank))
    ensures FullyLayered(s) ==> FullyLayered(RunHandlers(EnterLcp(s, next), hs, rank))
  {
    hide EvalAuth;
    hide EvalLcp;
    hide LcpTable;
    var s1 := EnterLcp(s, next);
    RestartStates(next);
    assert HandlerRank(hs[|hs| - 1]) <= rank;
    if hs == [LayerUp] {
      RunOne(s1, LayerUp, rank);
      AuthUpForm(s1);
    } else {
      RunTwo(s1, Send(ConfAck), LayerUp, rank);
      AuthUpForm(Emit(s1, ConfAck));
    }
  }

  lemma DownKeeps(s: State, next: LcpState, hs: seq<Handler>, rank: nat)
    requires Layered(s) && s.modem == Connected
    requires Bounded(hs, rank) && DownEntry(s.lcp, next, hs)
    ensures Layered(RunHandlers(EnterLcp(s, next), hs, rank))
    ensures FullyLayered(s) ==> FullyLayered(RunHandlers(EnterLcp(s, next), hs, rank))
  {
    var s1 := EnterLcp(s, next);
    RestartStates(next);
    AuthDownForm(s1);
    LeafHandlersForm(EvalAuth(s1, AuthEvent.Down), hs[1..], rank);
  }

  lemma LcpKeeps(s: State, e: LcpEvent)
    requires Layered(s) && s.modem == Connected && !e.Up? && !e.Down?
    ensures Layered(EvalLcp(s, e))
    ensures FullyLayered(s) ==> FullyLayered(EvalLcp(s, e))
  {
    hide FullyLayered;
    hide EnterLcp;
    hide RunHandlers;
    var Entry(next, hs) := LcpTable(s.lcp, e);
    LcpTableBounded(s.lcp, e);
    LcpShapes(s.lcp, e);
    if LeafEntry(s.lcp, next, hs) {
      LeafKeeps(s, next, hs, LcpRank(e));
    } else if FinishEntry(s.lcp, next, hs) {
      FinishKeeps(s, next, hs, LcpRank(e));
    } else if UpEntry(s.lcp, next, hs) {
      UpKeeps(s, next, hs, LcpRank(e));
    } else {
      DownKeeps(s, next, hs, LcpRank(e));
    }
  }

  // ---------- every input ----------

  lemma OpenKeeps(s: State)
    requires Layered(s) && s.lcp.Initial?
    ensures Layered(EvalLcp(s, Open))
    ensures FullyLayered(s) ==> FullyLayered(EvalLcp(s, Open))
  {
    var s1 := EnterLcp(s, LcpState.Starting);
    RunOne(s1, LayerStarted, 4);
    ModemStartForm(s1);
  }

  lemma CloseKeeps(s: State)
    requires Layered(s)
    ensures Layered(EvalLcp(s, Close))
    ensures FullyLayered(s) ==> FullyLayered(EvalLcp(s, Close))
  {
    if s.modem == Connected {
      LcpKeeps(s, Close);
    } else {
      var s1 := EnterLcp(s, LcpState.Initial);
      RunNone(s1, 4);
      RunOne(s1, LayerFinished, 4);
      ModemStopForm(s1);
    }
  }

  lemma ModemShapes(state: ModemState, e: ModemEvent)
    requires e.Ok? || e.Timeout? || (state != Connected && (e.Stop? || e.Connect?))
    ensures var Entry(next, hs) := ModemTable(state, e);
            || (hs == [] && (next == state || (next.Initial? && state != Connected)))
            || ((hs == [SendAt] || hs == [SendDial]) && next != Connected && state != Connected
                && (state.Initial? ==> next.Initial?))
            || (hs == [ModemUp] && state == Dial && next == Connected)
  {}

  lemma SendAtKeeps(s: State, next: ModemState, h: Handler)
    requires Layered(s) && (h == SendAt || h == SendDial)
    requires next != Connected && s.modem != Connected && (s.modem.Initial? ==> next.Initial?)
    ensures Layered(RunHandler(s.(modem := next), h))
    ensures FullyLayered(s) ==> FullyLayered(RunHandler(s.(modem := next), h))
  {}

  lemma ModemKeeps(s: State, e: ModemEvent)
    requires Layered(s) && (e.Ok? || e.Timeout? || (s.modem != Connected && (e.Stop? || e.Connect?)))
    ensures Layered(EvalModem(s, e))
    ensures FullyLayered(s) ==> FullyLayered(EvalModem(s, e))
  {
    var Entry(next, hs) := ModemTable(s.modem, e);
    var s1 := s.(modem := next);
    ModemTableBounded(s.modem, e);
    ModemShapes(s.modem, e);
    if hs == [] {
      RunNone(s1, ModemRank(e));
    } else {
      RunOne(s1, hs[0], ModemRank(e));
      if hs[0] == ModemUp {
        ModemUpKeeps(s);
      } else {
        SendAtKeeps(s, next, hs[0]);
      }
    }
  }

  lemma ModemUpKeeps(s: State)
    requires Layered(s) && s.modem == Dial
    ensures Layered(RunHandler(s.(modem := Connected), ModemUp))
    ensures FullyLayered(s) ==> FullyLayered(RunHandler(s.(modem := Connected), ModemUp))
  {
    var s1 := s.(modem := Connected);
    LcpUpForm(s1);
    LeafForm(s1.(lcp := LcpState.ReqSent), SendConfReq);
  }

  lemma AuthShapes(state: AuthState, e: AuthEvent)
    requires e.Rac? || e.Raa? || e.Ran? || e.To?
    ensures var Entry(next, hs) := AuthTable(state, e);
            || (hs == [] && next == state)
            || (hs == [AbortAuth] && state != Authenticated && next != Authenticated
                && (next.Initial? <==> state.Initial?))
            || (hs == [Authorize] && !state.Initial? && state != Authenticated && next == Authenticated)
            || (hs == [Send(ChapResponse)] && e.Rac? && state == Authenticated && next == RspSent)
            || (AllAuthLeaf(hs) && !state.Initial? && state != Authenticated && next != Authenticated)
  {}

  predicate AllAuthLeaf(hs: seq<Handler>) {
    forall i :: 0 <= i < |hs| ==> hs[i] == StartAuthTimer || (hs[i].Send? && hs[i].frame != AtCommand)
  }

  lemma AuthLeafForm(s: State, hs: seq<Handler>, rank: nat)
    requires Bounded(hs, rank) && AllAuthLeaf(hs)
    ensures var t := RunHandlers(s, hs, rank);
            && t == s.(timers := t.timers, timerVal := t.timerVal, wire := t.wire)
            && s.timers <= t.timers <= s.timers + {AuthTimer}
            && (AtOk(s.wire) ==> AtOk(t.wire))
            && (s.modem == Connected && FramesOk(s.wire) ==> FramesOk(t.wire))
    decreases |hs|
  {
    if hs != [] {
      AuthLeafForm(RunHandler(s, hs[0]), hs[1..], rank);
    }
  }

  lemma AbortKeeps(s: State, next: AuthState)
    requires Layered(s) && s.auth != Authenticated && next != Authenticated && (next.Initial? <==> s.auth.Initial?)
    ensures Layered(RunHandler(s.(auth := next), AbortAuth))
    ensures FullyLayered(s) ==> FullyLayered(RunHandler(s.(auth := next), AbortAuth))
  {
    hide EvalLcp;
    hide LcpTable;
    hide EvalAuth;
    hide EvalModem;
    hide EvalIpcp;
    CloseKeeps(s.(auth := next, timers := s.timers - {AuthTimer}));
  }

  lemma AuthorizeKeeps(s: State)
    requires Layered(s) && !s.auth.Initial? && s.auth != Authenticated
    ensures Layered(RunHandler(s.(auth := Authenticated), Authorize))
    ensures FullyLayered(s) ==> FullyLayered(RunHandler(s.(auth := Authenticated), Authorize))
  {
    IpcpForm(s.(auth := Authenticated), IpcpEvent.Up);
  }

  lemma AuthLeafKeeps(s: State, next: AuthState, hs: seq<Handler>, rank: nat)
    requires Layered(s) && Bounded(hs, rank) && AllAuthLeaf(hs)
    requires !s.auth.Initial? || (hs == [] && next == s.auth)
    requires next == Authenticated ==> s.auth == Authenticated
    ensures Layered(RunHandlers(s.(auth := next), hs, rank))
    ensures FullyLayered(s) ==>
              (FullyLayered(RunHandlers(s.(auth := next), hs, rank)) <==>
               (s.auth == Authenticated ==> next == Authenticated))
  {
    AuthLeafForm(s.(auth := next), hs, rank);
  }

  lemma AuthKeeps(s: State, e: AuthEvent)
    requires Layered(s) && (e.Rac? || e.Raa? || e.Ran? || e.To?)
    ensures Layered(EvalAuth(s, e))
    ensures FullyLayered(s) ==>
              (FullyLayered(EvalAuth(s, e)) <==> !(e.Rac? && s.auth == Authenticated))
  {
    var Entry(next, hs) := AuthTable(s.auth, e);
    var s1 := s.(auth := next);
    AuthTableBounded(s.auth, e);
    AuthShapes(s.auth, e);
    if hs == [AbortAuth] {
      assert HandlerRank(hs[0]) <= AuthRank(e);
      RunOne(s1, AbortAuth, AuthRank(e));
      AbortKeeps(s, next);
    } else if hs == [Authorize] {
      RunOne(s1, Authorize, AuthRank(e));
      AuthorizeKeeps(s);
    } else {
      AuthLeafKeeps(s, next, hs, AuthRank(e));
    }
  }

  lemma IpcpKeeps(s: State, e: IpcpEvent)
    requires Layered(s) && !e.Up? && !e.Down?
    ensures Layered(EvalIpcp(s, e))
    ensures FullyLayered(s) ==> FullyLayered(EvalIpcp(s, e))
  {
    IpcpForm(s, e);
  }

  lemma ChecksKeep(s: State)
    requires Layered(s)
    ensures Layered(CheckModem(s)) && Layered(CheckAuth(s)) && Layered(CheckIpcp(s))
    ensures FullyLayered(s) ==>
              FullyLayered(CheckModem(s)) && FullyLayered(CheckAuth(s)) && FullyLayered(CheckIpcp(s))
  {
    hide EvalLcp;
    hide EvalModem;
    hide EvalAuth;
    hide EvalIpcp;
    hide LcpTable;
    hide ModemTable;
    ModemKeeps(s.(timers := s.timers - {ModemTimer}), Timeout);
    AuthKeeps(s.(timers := s.timers - {AuthTimer}), AuthEvent.To);
    IpcpKeeps(s.(timers := s.timers - {IpcpTimer}), IpcpEvent.To);
  }

  lemma CheckLcpKeeps(s: State)
    requires Layered(s)
    ensures Layered(CheckLcp(s))
    ensures FullyLayered(s) ==> FullyLayered(CheckLcp(s))
  {
    if s.modem == Connected {
      LcpKeeps(s, ToNeg);
      LcpKeeps(s, ToPos);
    } else {
      RestartStates(s.lcp);
    }
  }

  lemma TickKeeps(s: State)
    requires Layered(s)
    ensures Layered(TickStep(s))
    ensures FullyLayered(s) ==> FullyLayered(TickStep(s))
  {
    hide CheckModem;
    hide CheckLcp;
    hide CheckAuth;
    hide CheckIpcp;
    hide EvalLcp;
    hide LcpTable;
    var s1 := s.(timerVal := if s.timerVal > 0 then s.timerVal - 1 else 0);
    ChecksKeep(s1);
    var s2 := CheckModem(s1);
    CheckLcpKeeps(s2);
    var s3 := CheckLcp(s2);
    ChecksKeep(s3);
    var s4 := CheckAuth(s3);
    ChecksKeep(s4);
    var s5 := CheckIpcp(s4);
    if s5.lcp.Initial? { OpenKeeps(s5); }
  }

  /** A CHAP challenge that reaches an authenticated device. */
  predicate Rechallenge(s: State, i: Input) {
    && i == RecvPacket(Chap(Challenge)) && s.modem == Connected
    && s.authProto == PROTO_CHAP && s.auth == Authenticated
  }

  /** Every input keeps the unconditional layering; the full layering is lost by a
      re-challenge and by nothing else. */
  lemma StepKeeps(s: State, i: Input)
    requires Layered(s)
    ensures Layered(Step(s, i))
    ensures FullyLayered(s) ==> (FullyLayered(Step(s, i)) <==> !Rechallenge(s, i))
  {
    match i
    case Tick => TickKeeps(s);
    case ConnectCall =>
    case DisconnectCall => CloseKeeps(s.(autoreconnect := false));
    case RecvLine(line) =>
      if s.modem != Connected {
        ModemKeeps(s, ModemEvent.Ok);
        ModemKeeps(s, Stop);
        ModemKeeps(s, Connect);
      }
    case RecvPacket(p) =>
      if s.modem == Connected {
        PacketKeeps(s, p);
      }
  }

  lemma PacketKeeps(s: State, p: Packet)
    requires Layered(s) && s.modem == Connected
    ensures Layered(ProcessPacket(s, p))
    ensures FullyLayered(s) ==> (FullyLayered(ProcessPacket(s, p)) <==> !Rechallenge(s, RecvPacket(p)))
  {
    hide EvalLcp;
    hide EvalAuth;
    hide EvalIpcp;
    hide LcpTable;
    match p
    case LcpConfReq(options) =>
      var s' := s.(authProto := AdjustAuth(options, s.authProto));
      LcpKeeps(s', LcpEvent.RcrNeg);
      LcpKeeps(s'.(peerOpts := OptFlags(options)), LcpEvent.RcrPos);
    case LcpConfAck => LcpKeeps(s, LcpEvent.Rca);
    case LcpConfNak(options) =>
      LcpKeeps(s.(authProto := AdjustAuth(options, s.authProto)), LcpEvent.Rcn);
    case LcpConfRej(options) =>
      LcpKeeps(s.(localOpts := s.localOpts - OptFlags(options)), LcpEvent.Rcn);
    case LcpEchoReq => LcpKeeps(s, Rxr);
    case Pap(reply) =>
      AuthKeeps(s, Raa);
      AuthKeeps(s, Ran);
    case Chap(c) =>
      AuthKeeps(s, Rac);
      AuthKeeps(s, Raa);
      AuthKeeps(s, Ran);
    case Ipcp(code, asksForVj) =>
      IpcpKeeps(s, IpcpEvent.RcrPos);
      IpcpKeeps(s, IpcpEvent.Rca);
      IpcpKeeps(s, IpcpEvent.Rcn);
    case Ignored =>
  }
}
