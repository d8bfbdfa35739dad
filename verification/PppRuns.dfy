/** What holds over whole runs of the PPP driver: layering, restart timeout, dead ends. */
module PppRuns {
  import opened PppTables
  import opened PppFsm
  import opened PppLayering

  // ---------- layering ----------

  /** Over every run, the unconditional layering holds after each completed event. */
  lemma {:induction false} RunLayered(inputs: seq<Input>)
    ensures Layered(Run(CREATED, inputs))
  {
    if inputs == [] {
      RestartStates(LcpState.Initial);
    } else {
      RunLayered(inputs[..|inputs| - 1]);
      StepKeeps(Run(CREATED, inputs[..|inputs| - 1]), inputs[|inputs| - 1]);
    }
  }

  lemma RunExtend(s: State, inputs: seq<Input>, k: nat)
    requires k < |inputs|
    ensures Run(s, inputs[..k + 1]) == Step(Run(s, inputs[..k]), inputs[k])
  {
    assert inputs[..k + 1][..k] == inputs[..k];
  }

  /** No input of the run is a challenge to an already authenticated device. */
  ghost predicate NeverRechallenged(inputs: seq<Input>) {
    forall k :: 0 <= k < |inputs| ==> !Rechallenge(Run(CREATED, inputs[..k]), inputs[k])
  }

  ghost predicate AlwaysFullyLayered(inputs: seq<Input>) {
    forall k :: 0 <= k <= |inputs| ==> FullyLayered(Run(CREATED, inputs[..k]))
  }

  lemma {:induction false} PrefixFullyLayered(inputs: seq<Input>, k: nat)
    requires k <= |inputs|
    requires forall j :: 0 <= j < k ==> !Rechallenge(Run(CREATED, inputs[..j]), inputs[j])
    ensures FullyLayered(Run(CREATED, inputs[..k]))
  {
    if k == 0 {
      RestartStates(LcpState.Initial);
    } else {
      PrefixFullyLayered(inputs, k - 1);
      RunExtend(CREATED, inputs, k - 1);
      StepKeeps(Run(CREATED, inputs[..k - 1]), inputs[k - 1]);
    }
  }

  /** The network layer stays strictly above authentication throughout a run exactly when
      the run never re-challenges an authenticated device. */
  lemma FullLayeringIff(inputs: seq<Input>)
    ensures AlwaysFullyLayered(inputs) <==> NeverRechallenged(inputs)
  {
    if NeverRechallenged(inputs) {
      forall k | 0 <= k <= |inputs|
        ensures FullyLayered(Run(CREATED, inputs[..k]))
      {
        PrefixFullyLayered(inputs, k);
      }
    }
    if AlwaysFullyLayered(inputs) {
      forall k | 0 <= k < |inputs|
        ensures !Rechallenge(Run(CREATED, inputs[..k]), inputs[k])
      {
        RunExtend(CREATED, inputs, k);
        StepKeeps(Run(CREATED, inputs[..k]), inputs[k]);
      }
    }
  }

  // ---------- events never touch the negotiated configuration ----------

  predicate SameConfig(s: State, t: State) {
    s.authProto == t.authProto && s.localOpts == t.localOpts && s.peerOpts == t.peerOpts &&
    s.autoreconnect == t.autoreconnect
  }

  lemma ModemConfig(s: State, e: ModemEvent)
    ensures SameConfig(s, EvalModem(s, e))
    decreases ModemRank(e), 2, 0
  {
    var Entry(next, hs) := ModemTable(s.modem, e);
    ModemTableBounded(s.modem, e);
    HandlersConfig(s.(modem := next), hs, ModemRank(e));
  }

  lemma LcpConfig(s: State, e: LcpEvent)
    ensures SameConfig(s, EvalLcp(s, e))
    decreases LcpRank(e), 2, 0
  {
    var Entry(next, hs) := LcpTable(s.lcp, e);
    LcpTableBounded(s.lcp, e);
    HandlersConfig(EnterLcp(s, next), hs, LcpRank(e));
  }

  lemma AuthConfig(s: State, e: AuthEvent)
    ensures SameConfig(s, EvalAuth(s, e))
    decreases AuthRank(e), 2, 0
  {
    var Entry(next, hs) := AuthTable(s.auth, e);
    AuthTableBounded(s.auth, e);
    HandlersConfig(s.(auth := next), hs, AuthRank(e));
  }

  lemma HandlersConfig(s: State, hs: seq<Handler>, rank: nat)
    requires Bounded(hs, rank)
    ensures SameConfig(s, RunHandlers(s, hs, rank))
    decreases rank, 1, |hs|
  {
    if hs != [] {
      HandlerConfig(s, hs[0]);
      HandlersConfig(RunHandler(s, hs[0]), hs[1..], rank);
    }
  }

  lemma HandlerConfig(s: State, h: Handler)
    ensures SameConfig(s, RunHandler(s, h))
    decreases HandlerRank(h), 0, 0
  {
    match h
    case ModemUp => LcpConfig(s, LcpEvent.Up);
    case ModemDown => LcpConfig(Emit(s, AtCommand), LcpEvent.Down);
    case LayerStarted => ModemConfig(s, Start);
    case LayerFinished => ModemConfig(s, Stop);
    case LayerUp =>
      AuthConfig(s, UpNone);
      AuthConfig(s, UpPap);
      AuthConfig(s, UpChap);
    case LayerDown => AuthConfig(s, AuthEvent.Down);
    case AbortAuth => LcpConfig(s.(timers := s.timers - {AuthTimer}), Close);
    case Authorize => IpcpForm(s, IpcpEvent.Up);
    case Deauthorize => IpcpForm(s, IpcpEvent.Down);
    case _ =>
  }

  /** The input carries an option asking for CHAP. */
  predicate OffersChap(i: Input) {
    && i.RecvPacket? && (i.packet.LcpConfReq? || i.packet.LcpConfNak?)
    && LcpOption(OPT_AUTH, PROTO_CHAP) in i.packet.options
  }

  lemma {:induction false} AdjustedAuth(options: seq<LcpOption>, current: nat)
    ensures AdjustAuth(options, current) == current || LcpOption(OPT_AUTH, AdjustAuth(options, current)) in options
  {
    if options != [] {
      AdjustedAuth(options[..|options| - 1], current);
    }
  }

  lemma TickConfig(s: State)
    ensures SameConfig(s, TickStep(s))
  {
    hide EvalLcp;
    hide EvalAuth;
    hide EvalIpcp;
    hide EvalModem;
    var s1 := s.(timerVal := if s.timerVal > 0 then s.timerVal - 1 else 0);
    ModemConfig(s1.(timers := s1.timers - {ModemTimer}), Timeout);
    var s2 := CheckModem(s1);
    LcpConfig(s2, ToNeg);
    LcpConfig(s2, ToPos);
    var s3 := CheckLcp(s2);
    AuthConfig(s3.(timers := s3.timers - {AuthTimer}), AuthEvent.To);
    var s4 := CheckAuth(s3);
    IpcpForm(s4.(timers := s4.timers - {IpcpTimer}), IpcpEvent.To);
    LcpConfig(CheckIpcp(s4), Open);
  }

  lemma PacketProto(s: State, p: Packet)
    requires !OffersChap(RecvPacket(p)) && s.authProto != PROTO_CHAP
    ensures ProcessPacket(s, p).authProto != PROTO_CHAP
  {
    match p
    case LcpConfReq(options) =>
      AdjustedAuth(options, s.authProto);
      var s' := s.(authProto := AdjustAuth(options, s.authProto));
      LcpConfig(s', LcpEvent.RcrNeg);
      LcpConfig(s'.(peerOpts := OptFlags(options)), LcpEvent.RcrPos);
    case LcpConfAck => LcpConfig(s, LcpEvent.Rca);
    case LcpConfNak(options) =>
      AdjustedAuth(options, s.authProto);
      LcpConfig(s.(authProto := AdjustAuth(options, s.authProto)), LcpEvent.Rcn);
    case LcpConfRej(options) => LcpConfig(s.(localOpts := s.localOpts - OptFlags(options)), LcpEvent.Rcn);
    case LcpEchoReq => LcpConfig(s, Rxr);
    case Pap(_) =>
      AuthConfig(s, Raa);
      AuthConfig(s, Ran);
    case Chap(_) =>
    case Ipcp(_, _) =>
      IpcpForm(s, IpcpEvent.RcrPos);
      IpcpForm(s, IpcpEvent.Rca);
      IpcpForm(s, IpcpEvent.Rcn);
    case Ignored =>
  }

  lemma StepProto(s: State, i: Input)
    requires !OffersChap(i) && s.authProto != PROTO_CHAP
    ensures Step(s, i).authProto != PROTO_CHAP
  {
    match i
    case Tick => TickConfig(s);
    case ConnectCall =>
    case DisconnectCall => LcpConfig(s.(autoreconnect := false), Close);
    case RecvLine(_) =>
      ModemConfig(s, ModemEvent.Ok);
      ModemConfig(s, Stop);
      ModemConfig(s, Connect);
    case RecvPacket(p) => PacketProto(s, p);
  }

  lemma {:induction false} WithoutChapProto(inputs: seq<Input>, k: nat)
    requires k <= |inputs| && forall i <- inputs :: !OffersChap(i)
    ensures Run(CREATED, inputs[..k]).authProto != PROTO_CHAP
  {
    if k > 0 {
      WithoutChapProto(inputs, k - 1);
      RunExtend(CREATED, inputs, k - 1);
      StepProto(Run(CREATED, inputs[..k - 1]), inputs[k - 1]);
    }
  }

  /** When the peer never asks for CHAP, IP data passes only over a link whose four layers
      are all up, and the serial line never mixes frames and modem commands. */
  lemma WithoutChap(inputs: seq<Input>)
    requires forall i <- inputs :: !OffersChap(i)
    ensures FullyLayered(Run(CREATED, inputs))
    ensures var s := Run(CREATED, inputs);
            s.ipcp == IpcpState.Opened ==>
              s.auth == Authenticated && s.lcp == LcpState.Opened && s.modem == Connected
  {
    forall k | 0 <= k < |inputs|
      ensures !Rechallenge(Run(CREATED, inputs[..k]), inputs[k])
    {
      WithoutChapProto(inputs, k);
    }
    PrefixFullyLayered(inputs, |inputs|);
    assert inputs[..|inputs|] == inputs;
  }

  // ---------- no handler list resumes in a changed machine ----------

  predicate KeepsLcp(h: Handler) {
    LcpLeaf(h) || h == LayerDown
  }

  lemma KeepsLcpForm(s: State, hs: seq<Handler>, rank: nat)
    requires Bounded(hs, rank) && forall i :: 0 <= i < |hs| ==> KeepsLcp(hs[i])
    ensures RunHandlers(s, hs, rank).lcp == s.lcp
    decreases |hs|
  {
    if hs != [] {
      if hs[0] == LayerDown {
        AuthDownForm(s);
      } else {
        LeafForm(s, hs[0]);
      }
      KeepsLcpForm(RunHandler(s, hs[0]), hs[1..], rank);
    }
  }

  lemma LcpEntriesKeep(state: LcpState, e: LcpEvent)
    ensures var hs := LcpTable(state, e).handlers;
            forall i :: 0 <= i < |hs| - 1 ==> KeepsLcp(hs[i])
  {}

  /** When the last handler of an LCP entry starts, LCP is still in the state the entry
      put it in; only the last handler can raise an event that moves it. */
  lemma LcpNoResume(s: State, e: LcpEvent)
    ensures var Entry(next, hs) := LcpTable(s.lcp, e);
            hs != [] ==>
              && Bounded(hs[..|hs| - 1], LcpRank(e))
              && RunHandlers(EnterLcp(s, next), hs[..|hs| - 1], LcpRank(e)).lcp == next
  {
    var Entry(next, hs) := LcpTable(s.lcp, e);
    LcpTableBounded(s.lcp, e);
    LcpEntriesKeep(s.lcp, e);
    hide LcpTable;
    hide KeepsLcp;
    if hs != [] {
      KeepsLcpForm(EnterLcp(s, next), hs[..|hs| - 1], LcpRank(e));
    }
  }

  /** The same for the authentication machine. */
  lemma AuthNoResume(s: State, e: AuthEvent)
    ensures var Entry(next, hs) := AuthTable(s.auth, e);
            hs != [] ==>
              && Bounded(hs[..|hs| - 1], AuthRank(e))
              && RunHandlers(s.(auth := next), hs[..|hs| - 1], AuthRank(e)).auth == next
  {
    var Entry(next, hs) := AuthTable(s.auth, e);
    AuthTableBounded(s.auth, e);
    if hs != [] {
      assert AllAuthLeaf(hs[..|hs| - 1]);
      AuthLeafForm(s.(auth := next), hs[..|hs| - 1], AuthRank(e));
    }
  }

  // ---------- the restart timer always gives up ----------

  function Ticks(s: State, n: nat): State
    decreases n
  {
    if n == 0 then s else Ticks(TickStep(s), n - 1)
  }

  /** How many silent seconds LCP lasts in a state whose restart timer runs. */
  function TicksToGiveUp(s: State): nat {
    (if s.timerVal == 0 then 1 else s.timerVal) + DEFAULT_TIMER * s.timerCount
  }

  lemma LcpRetryForm(s: State)
    requires Layered(s) && RestartRuns(s.lcp) && s.timerVal == 0 && s.timerCount > 0
    ensures var t := EvalLcp(s, ToPos);
            RestartRuns(t.lcp) && t.timerVal == DEFAULT_TIMER && t.timerCount == s.timerCount
  {
    var Entry(next, hs) := LcpTable(s.lcp, ToPos);
    RunOne(EnterLcp(s, next), hs[0], LcpRank(ToPos));
  }

  lemma LcpGiveUpForm(s: State)
    requires Layered(s) && RestartRuns(s.lcp)
    ensures Below(EvalLcp(s, ToNeg).lcp)
  {
    RestartStates(s.lcp);
    var Entry(next, hs) := LcpTable(s.lcp, ToNeg);
    RunOne(EnterLcp(s, next), LayerFinished, LcpRank(ToNeg));
    FinishedForm(EnterLcp(s, next));
  }

  /** The later checks of a tick leave LCP alone once it has retried or given up. */
  lemma TickTail(s: State)
    requires Layered(s) && (s.timerVal != 0 || Below(s.lcp))
    requires RestartRuns(s.lcp) || Below(s.lcp)
    ensures var t := CheckIpcp(CheckAuth(s));
            t.lcp == s.lcp && t.modem == s.modem && (s.timerVal != 0 ==> t == s)
  {
    RestartStates(s.lcp);
    if s.timerVal == 0 {
      var s1 := s.(timers := s.timers - {AuthTimer});
      RunNone(s1, AuthRank(AuthEvent.To));
      var s2 := CheckAuth(s);
      IpcpForm(s2.(timers := s2.timers - {IpcpTimer}), IpcpEvent.To);
    }
  }

  /** (timerCount, timerVal) goes down lexicographically on every silent tick until LCP
      gives up. */
  lemma TimedTick(s: State)
    requires Layered(s) && RestartRuns(s.lcp)
    ensures var t := TickStep(s);
            if s.timerVal > 1 then t == s.(timerVal := s.timerVal - 1)
            else if s.timerCount > 0 then
              RestartRuns(t.lcp) && t.timerVal == DEFAULT_TIMER && t.timerCount == s.timerCount - 1
            else Below(t.lcp)
  {
    hide EvalLcp;
    hide EvalAuth;
    hide EvalIpcp;
    RestartStates(s.lcp);
    var s1 := s.(timerVal := if s.timerVal > 0 then s.timerVal - 1 else 0);
    RunNone(s1.(timers := s1.timers - {ModemTimer}), 0);
    var s2 := CheckModem(s1);
    assert s2 == s1 || s2 == s1.(timers := s1.timers - {ModemTimer});
    if s.timerVal <= 1 {
      CheckLcpKeeps(s2);
      if s.timerCount > 0 {
        LcpRetryForm(s2);
        TickTail(CheckLcp(s2));
      } else {
        LcpGiveUpForm(s2);
        TickTail(CheckLcp(s2));
        var s5 := CheckIpcp(CheckAuth(CheckLcp(s2)));
        if s5.lcp.Initial? {
          OpenForm(s5);
        }
      }
    }
  }

  lemma OpenForm(s: State)
    requires s.lcp.Initial?
    ensures EvalLcp(s, Open).lcp.Starting?
  {
    var s1 := EnterLcp(s, LcpState.Starting);
    RunOne(s1, LayerStarted, 4);
    ModemStartForm(s1);
  }

  /** Left alone, LCP keeps retrying for exactly TicksToGiveUp ticks and is then back in
      INITIAL or STARTING. */
  lemma {:induction false} GivesUpExactly(s: State)
    requires Layered(s) && RestartRuns(s.lcp)
    ensures Below(Ticks(s, TicksToGiveUp(s)).lcp)
    ensures forall k :: 0 <= k < TicksToGiveUp(s) ==> RestartRuns(Ticks(s, k).lcp)
    decreases s.timerCount, s.timerVal
  {
    hide TickStep;
    hide Layered;
    hide RestartRuns;
    var t := TickStep(s);
    TimedTick(s);
    TickKeeps(s);
    if s.timerVal > 1 || s.timerCount > 0 {
      GivesUpExactly(t);
      forall k | 0 <= k < TicksToGiveUp(s)
        ensures RestartRuns(Ticks(s, k).lcp)
      {
        if k > 0 {
          assert Ticks(s, k) == Ticks(t, k - 1);
        }
      }
    } else {
      assert Ticks(s, 1) == Ticks(t, 0);
    }
  }

  // ---------- a modem error is a dead end ----------

  /** The modem machine rests while LCP waits for it. */
  predicate Stuck(s: State) {
    s.modem.Initial? && s.lcp.Starting?
  }

  lemma StuckTick(s: State)
    requires Layered(s) && Stuck(s)
    ensures Stuck(TickStep(s))
  {
    RestartStates(s.lcp);
    var s1 := s.(timerVal := if s.timerVal > 0 then s.timerVal - 1 else 0);
    ChecksKeep(s1);
    RunOne(s1.(timers := s1.timers - {ModemTimer}), SendAt, 0);
    var s2 := CheckModem(s1);
    assert CheckLcp(s2) == s2;
    TickTail(s2);
  }

  lemma StuckStep(s: State, i: Input)
    requires Layered(s) && Stuck(s)
    ensures Stuck(Step(s, i)) <==> i != DisconnectCall
  {
    match i
    case Tick => StuckTick(s);
    case ConnectCall =>
    case DisconnectCall =>
      var s1 := EnterLcp(s.(autoreconnect := false), LcpState.Initial);
      RunOne(s1, LayerFinished, 4);
      ModemStopForm(s1);
    case RecvLine(_) =>
      RunNone(s, ModemRank(ModemEvent.Ok));
      RunNone(s, ModemRank(Stop));
      RunNone(s, ModemRank(Connect));
    case RecvPacket(_) =>
  }

  /** From there no tick, modem answer, frame or connect call helps: the device stays as it
      is throughout a run exactly when the run has no disconnect call. */
  lemma {:induction false} StuckIff(s: State, inputs: seq<Input>)
    requires Layered(s) && Stuck(s)
    ensures (forall k :: 0 <= k <= |inputs| ==> Stuck(Run(s, inputs[..k]))) <==> DisconnectCall !in inputs
    ensures DisconnectCall !in inputs ==> Layered(Run(s, inputs)) && Stuck(Run(s, inputs))
  {
    hide Step;
    hide Layered;
    if inputs != [] {
      var front := inputs[..|inputs| - 1];
      StuckIff(s, front);
      assert inputs == front + [inputs[|inputs| - 1]];
      assert inputs[..|inputs|] == inputs;
      assert forall k :: 0 <= k <= |front| ==> inputs[..k] == front[..k];
      if DisconnectCall !in front {
        StepKeeps(Run(s, front), inputs[|inputs| - 1]);
        StuckStep(Run(s, front), inputs[|inputs| - 1]);
      }
    }
  }
}
