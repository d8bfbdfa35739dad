/** A concrete run that breaks the full layering: a CHAP re-challenge leaves IPCP open over
    a link that is being torn down. */
module PppRechallenge {
  import opened PppTables
  import opened PppFsm
  import opened PppLayering
  import opened PppRuns

  ghost predicate At(s: State, m: ModemState, l: LcpState, a: AuthState, i: IpcpState) {
    s.modem == m && s.lcp == l && s.auth == a && s.ipcp == i && Layered(s)
  }

  lemma Then(inputs: seq<Input>, i: Input)
    ensures Run(CREATED, inputs + [i]) == Step(Run(CREATED, inputs), i)
    ensures Layered(Run(CREATED, inputs + [i]))
  {
    assert (inputs + [i])[..|inputs|] == inputs;
    RunLayered(inputs + [i]);
  }

  /** The answers of the dialogue, in the order the modem machine waits for them. */
  const DIALOGUE: seq<ModemState> := [Reset, Echo, Creg, Cgreg, Cgdcont, Cgatt, Dial]

  lemma FirstTick() returns (inputs: seq<Input>)
    ensures At(Run(CREATED, inputs), Reset, LcpState.Starting, AuthState.Initial, IpcpState.Initial)
    ensures Run(CREATED, inputs).localOpts == CREATED.localOpts
  {
    Then([], ConnectCall);
    Then([ConnectCall], Tick);
    assert [] + [ConnectCall] == [ConnectCall];
    inputs := [ConnectCall] + [Tick];
    var s := CREATED.(autoreconnect := true);
    assert Run(CREATED, [ConnectCall]) == s;
    RunOne(EnterLcp(s, LcpState.Starting), LayerStarted, 4);
    ModemStartForm(EnterLcp(s, LcpState.Starting));
  }

  lemma AnswerOk(s: State, n: nat)
    requires n < 6 && At(s, DIALOGUE[n], LcpState.Starting, AuthState.Initial, IpcpState.Initial)
    ensures var t := Step(s, RecvLine(LineOk));
            && At(t, DIALOGUE[n + 1], LcpState.Starting, AuthState.Initial, IpcpState.Initial)
            && t.localOpts == s.localOpts
  {
    hide Layered;
    hide EvalLcp;
    hide EvalAuth;
    StepKeeps(s, RecvLine(LineOk));
    var Entry(next, hs) := ModemTable(s.modem, ModemEvent.Ok);
    RunOne(s.(modem := next), hs[0], 0);
  }

  lemma Dialled(n: nat) returns (inputs: seq<Input>)
    requires n <= 6
    ensures At(Run(CREATED, inputs), DIALOGUE[n], LcpState.Starting, AuthState.Initial, IpcpState.Initial)
    ensures Run(CREATED, inputs).localOpts == CREATED.localOpts
  {
    if n == 0 {
      inputs := FirstTick();
    } else {
      inputs := Dialled(n - 1);
      AnswerOk(Run(CREATED, inputs), n - 1);
      Then(inputs, RecvLine(LineOk));
      inputs := inputs + [RecvLine(LineOk)];
    }
  }

  lemma ConnectStep(s: State)
    requires At(s, Dial, LcpState.Starting, AuthState.Initial, IpcpState.Initial)
    ensures var t := Step(s, RecvLine(LineConnect));
            && At(t, Connected, LcpState.ReqSent, AuthState.Initial, IpcpState.Initial)
            && t.localOpts == s.localOpts
  {
    StepKeeps(s, RecvLine(LineConnect));
    RunOne(s.(modem := Connected), ModemUp, 1);
    LcpUpForm(s.(modem := Connected));
  }

  const CHAP_REQ := RecvPacket(LcpConfReq([LcpOption(OPT_AUTH, PROTO_CHAP)]))

  lemma RequestStep(s: State)
    requires At(s, Connected, LcpState.ReqSent, AuthState.Initial, IpcpState.Initial)
    requires s.localOpts == CREATED.localOpts
    ensures var t := Step(s, CHAP_REQ);
            && At(t, Connected, LcpState.AckSent, AuthState.Initial, IpcpState.Initial)
            && t.authProto == PROTO_CHAP
  {
    StepKeeps(s, CHAP_REQ);
    var options := [LcpOption(OPT_AUTH, PROTO_CHAP)];
    assert OptFlags(options) == {OPT_AUTH} by { assert options[0] in options; }
    assert AdjustAuth(options, s.authProto) == PROTO_CHAP;
    var s1 := s.(authProto := PROTO_CHAP, peerOpts := {OPT_AUTH});
    LcpConfig(s1, LcpEvent.RcrPos);
    RunOne(EnterLcp(s1, LcpState.AckSent), Send(ConfAck), 4);
  }

  lemma AckStep(s: State)
    requires At(s, Connected, LcpState.AckSent, AuthState.Initial, IpcpState.Initial) && s.authProto == PROTO_CHAP
    ensures var t := Step(s, RecvPacket(LcpConfAck));
            && At(t, Connected, LcpState.Opened, AuthState.Starting, IpcpState.Initial)
            && t.authProto == PROTO_CHAP
  {
    StepKeeps(s, RecvPacket(LcpConfAck));
    var s1 := EnterLcp(s, LcpState.Opened);
    RunOne(s1, LayerUp, 4);
    RunNone(s1.(auth := AuthState.Starting), 1);
  }

  const CHALLENGE := RecvPacket(Chap(Challenge))
  const SUCCESS := RecvPacket(Chap(Success))

  lemma ChallengeStep(s: State)
    requires At(s, Connected, LcpState.Opened, AuthState.Starting, IpcpState.Initial) && s.authProto == PROTO_CHAP
    ensures var t := Step(s, CHALLENGE);
            && At(t, Connected, LcpState.Opened, RspSent, IpcpState.Initial)
            && t.authProto == PROTO_CHAP && AuthTimer in t.timers
  {
    StepKeeps(s, CHALLENGE);
    RunTwo(s.(auth := RspSent), Send(ChapResponse), StartAuthTimer, 1);
  }

  lemma SuccessStep(s: State)
    requires At(s, Connected, LcpState.Opened, RspSent, IpcpState.Initial)
    requires s.authProto == PROTO_CHAP && AuthTimer in s.timers
    ensures var t := Step(s, SUCCESS);
            && At(t, Connected, LcpState.Opened, Authenticated, IpcpState.ReqSent)
            && t.authProto == PROTO_CHAP && AuthTimer in t.timers
  {
    StepKeeps(s, SUCCESS);
    var s1 := s.(auth := Authenticated);
    RunOne(s1, Authorize, 1);
    IpcpForm(s1, IpcpEvent.Up);
  }

  lemma IpcpStep(s: State, code: IpcpCode)
    requires At(s, Connected, LcpState.Opened, Authenticated, s.ipcp)
    requires (s.ipcp == IpcpState.ReqSent && code == CodeReq) || (s.ipcp == IpcpState.AckSent && code == CodeAck)
    requires s.authProto == PROTO_CHAP && AuthTimer in s.timers
    ensures var t := Step(s, RecvPacket(Ipcp(code, false)));
            && At(t, Connected, LcpState.Opened, Authenticated,
                  if code == CodeReq then IpcpState.AckSent else IpcpState.Opened)
            && t.authProto == PROTO_CHAP && AuthTimer in t.timers
  {
    StepKeeps(s, RecvPacket(Ipcp(code, false)));
    IpcpForm(s, IpcpEvent.RcrPos);
    IpcpForm(s, IpcpEvent.Rca);
  }

  /** A full CHAP session can be reached. */
  lemma SessionUp() returns (inputs: seq<Input>)
    ensures At(Run(CREATED, inputs), Connected, LcpState.Opened, Authenticated, IpcpState.Opened)
    ensures Run(CREATED, inputs).authProto == PROTO_CHAP && AuthTimer in Run(CREATED, inputs).timers
  {
    inputs := Negotiated();
    ChallengeStep(Run(CREATED, inputs));
    Then(inputs, CHALLENGE);
    inputs := inputs + [CHALLENGE];
    SuccessStep(Run(CREATED, inputs));
    Then(inputs, SUCCESS);
    inputs := inputs + [SUCCESS];
    IpcpStep(Run(CREATED, inputs), CodeReq);
    Then(inputs, RecvPacket(Ipcp(CodeReq, false)));
    inputs := inputs + [RecvPacket(Ipcp(CodeReq, false))];
    IpcpStep(Run(CREATED, inputs), CodeAck);
    Then(inputs, RecvPacket(Ipcp(CodeAck, false)));
    inputs := inputs + [RecvPacket(Ipcp(CodeAck, false))];
  }

  lemma Negotiated() returns (inputs: seq<Input>)
    ensures At(Run(CREATED, inputs), Connected, LcpState.Opened, AuthState.Starting, IpcpState.Initial)
    ensures Run(CREATED, inputs).authProto == PROTO_CHAP
  {
    inputs := Dialled(6);
    ConnectStep(Run(CREATED, inputs));
    Then(inputs, RecvLine(LineConnect));
    inputs := inputs + [RecvLine(LineConnect)];
    RequestStep(Run(CREATED, inputs));
    Then(inputs, CHAP_REQ);
    inputs := inputs + [CHAP_REQ];
    AckStep(Run(CREATED, inputs));
    Then(inputs, RecvPacket(LcpConfAck));
    inputs := inputs + [RecvPacket(LcpConfAck)];
  }

  // ---------- after the second challenge ----------

  lemma RechallengeStep(s: State)
    requires At(s, Connected, LcpState.Opened, Authenticated, IpcpState.Opened)
    requires s.authProto == PROTO_CHAP && AuthTimer in s.timers
    ensures var t := Step(s, CHALLENGE);
            At(t, Connected, LcpState.Opened, RspSent, IpcpState.Opened) && AuthTimer in t.timers
  {
    StepKeeps(s, CHALLENGE);
    RunOne(s.(auth := RspSent), Send(ChapResponse), 1);
  }

  lemma AuthFires(s: State)
    requires (s.auth == RspSent || s.auth == AuthState.Starting) && AuthTimer in s.timers && s.timerVal == 0
    ensures var t := CheckAuth(s);
            && t == s.(auth := if s.auth == RspSent then AuthState.Starting else AuthState.Initial,
                       timers := t.timers, timerVal := DEFAULT_TIMER, wire := t.wire)
            && AuthTimer in t.timers
  {
    var s1 := s.(timers := s.timers - {AuthTimer});
    RunOne(s1.(auth := AuthState.Starting), StartAuthTimer, 1);
    RunTwo(s1.(auth := AuthState.Initial), Send(PapRequest), StartAuthTimer, 1);
  }

  lemma QuietModem(s: State)
    requires s.modem == Connected
    ensures CheckModem(s) == s || CheckModem(s) == s.(timers := s.timers - {ModemTimer})
  {
    RunNone(s.(timers := s.timers - {ModemTimer}), 0);
  }

  /** With the authentication timer on, silence only counts the shared timer down until the
      authentication machine times out. */
  lemma WaitStep(s: State)
    requires At(s, Connected, LcpState.Opened, s.auth, IpcpState.Opened)
    requires (s.auth == RspSent || s.auth == AuthState.Starting) && AuthTimer in s.timers
    ensures var t := TickStep(s);
            if s.timerVal > 1 then t == s.(timerVal := s.timerVal - 1) && Layered(t)
            else if s.auth == RspSent then
              At(t, Connected, LcpState.Opened, AuthState.Starting, IpcpState.Opened) && AuthTimer in t.timers
            else At(t, Connected, LcpState.Opened, AuthState.Initial, IpcpState.Opened)
  {
    TickKeeps(s);
    RestartStates(s.lcp);
    var s1 := s.(timerVal := if s.timerVal > 0 then s.timerVal - 1 else 0);
    QuietModem(s1);
    var s2 := CheckModem(s1);
    assert CheckLcp(s2) == s2;
    if s.timerVal <= 1 {
      AuthFires(s2);
      assert CheckIpcp(CheckAuth(s2)) == CheckAuth(s2);
    }
  }

  lemma Waited(inputs: seq<Input>) returns (longer: seq<Input>)
    requires At(Run(CREATED, inputs), Connected, LcpState.Opened, Run(CREATED, inputs).auth, IpcpState.Opened)
    requires Run(CREATED, inputs).auth == RspSent || Run(CREATED, inputs).auth == AuthState.Starting
    requires AuthTimer in Run(CREATED, inputs).timers
    ensures At(Run(CREATED, longer), Connected, LcpState.Opened,
               if Run(CREATED, inputs).auth == RspSent then AuthState.Starting else AuthState.Initial, IpcpState.Opened)
    ensures Run(CREATED, inputs).auth == RspSent ==> AuthTimer in Run(CREATED, longer).timers
    decreases Run(CREATED, inputs).timerVal
  {
    WaitStep(Run(CREATED, inputs));
    Then(inputs, Tick);
    longer := inputs + [Tick];
    if Run(CREATED, inputs).timerVal > 1 {
      longer := Waited(longer);
    }
  }

  lemma HangUpStep(s: State)
    requires At(s, Connected, LcpState.Opened, AuthState.Initial, IpcpState.Opened)
    ensures At(Step(s, DisconnectCall), Connected, Closing, AuthState.Initial, IpcpState.Opened)
  {
    StepKeeps(s, DisconnectCall);
    var s1 := EnterLcp(s.(autoreconnect := false), Closing);
    RunTwo(s1, LayerDown, SendTermReq, 4);
    AuthDownForm(s1);
  }

  /** A run after which the device still forwards IP data although LCP is closing and nobody
      is authenticated. */
  lemma DataOverClosingLink() returns (inputs: seq<Input>)
    ensures At(Run(CREATED, inputs), Connected, Closing, AuthState.Initial, IpcpState.Opened)
    ensures !NeverRechallenged(inputs)
  {
    inputs := SessionUp();
    RechallengeStep(Run(CREATED, inputs));
    Then(inputs, CHALLENGE);
    inputs := Waited(inputs + [CHALLENGE]);
    inputs := Waited(inputs);
    HangUpStep(Run(CREATED, inputs));
    Then(inputs, DisconnectCall);
    inputs := inputs + [DisconnectCall];
    FullLayeringIff(inputs);
    assert inputs[..|inputs|] == inputs;
  }
}
