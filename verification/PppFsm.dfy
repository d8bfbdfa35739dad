/**
 The event semantics of the PPP driver: four table-driven machines that call each other
 synchronously, the shared restart timer, and the inputs that drive them.

 An evaluator first stores the next state and only then runs the handlers of the entry,
 so a handler that raises a nested event already sees the new state.
 */
module PppFsm {
  import opened PppTables

  datatype Timer = ModemTimer | LcpReqTimer | LcpTermTimer | AuthTimer | IpcpTimer

  /** One transmission, with the modem state it happened in. */
  datatype Sent = Sent(frame: Frame, modem: ModemState)

  datatype State = State(
    modem: ModemState,
    lcp: LcpState,
    auth: AuthState,
    ipcp: IpcpState,
    authProto: nat,         // authentication protocol the peer asked for, 0 if none
    localOpts: set<nat>,    // LCP option kinds we accept
    peerOpts: set<nat>,     // LCP option kinds of the last accepted request
    autoreconnect: bool,
    timers: set<Timer>,     // which timers are on; they all share timerVal
    timerVal: nat,
    timerCount: nat,
    wire: seq<Sent>)

  const MAX_ACTIONS: nat := 3
  const DEFAULT_TIMER: nat := 3
  const MAX_TERMINATE: nat := 2
  const MAX_CONFIGURE: nat := 10
  const MAX_FAILURE: nat := 5
  const MAX_DIALTIME: nat := 20
  const PROTO_PAP: nat := 0xc023
  const PROTO_CHAP: nat := 0xc223
  const OPT_MRU: nat := 1
  const OPT_AUTH: nat := 3
  const OPT_PROTO_COMP: nat := 7
  const OPT_ADDRCTL_COMP: nat := 8

  /** A device as pico_ppp_create leaves it. */
  const CREATED: State :=
    State(ModemState.Initial, LcpState.Initial, AuthState.Initial, IpcpState.Initial,
          0, {OPT_MRU, OPT_AUTH, OPT_PROTO_COMP, OPT_ADDRCTL_COMP}, {}, false, {}, 0, 0, [])

  // ---------- timers and transmission ----------

  function Emit(s: State, f: Frame): State {
    s.(wire := s.wire + [Sent(f, s.modem)])
  }

  /** `kind` is the timer to start; without one the restart count is zeroed instead. */
  function LcpTimerStart(s: State, kind: set<Timer>): State {
    var count := if kind == {LcpTermTimer} then MAX_TERMINATE
                 else if kind == {LcpReqTimer} then MAX_CONFIGURE else 0;
    var left := if kind == {} then 0 else s.timerCount;
    s.(timers := s.timers + (if kind == {} then {LcpReqTimer} else kind),
       timerVal := if s.timerVal == 0 then DEFAULT_TIMER else s.timerVal,
       timerCount := if left == 0 then count else left)
  }

  function StartTimer(s: State, t: Timer, value: nat): State {
    s.(timers := s.timers + {t}, timerVal := value)
  }

  // ---------- ranks: why every cascade ends ----------

  function ModemRank(e: ModemEvent): nat {
    match e
    case Stop => 3
    case Connect => 1
    case _ => 0
  }

  function LcpRank(e: LcpEvent): nat {
    match e
    case Up => 0
    case Down => 2
    case _ => 4
  }

  function AuthRank(e: AuthEvent): nat {
    if e.Ran? then 5 else 1
  }

  /** One more than the rank of the event the handler raises, 0 if it raises none. */
  function HandlerRank(h: Handler): nat {
    match h
    case ModemUp => LcpRank(LcpEvent.Up) + 1
    case ModemDown => LcpRank(LcpEvent.Down) + 1
    case LayerStarted => ModemRank(Start) + 1
    case LayerFinished => ModemRank(Stop) + 1
    case LayerUp => AuthRank(UpNone) + 1
    case LayerDown => AuthRank(AuthEvent.Down) + 1
    case AbortAuth => LcpRank(Close) + 1
    case Authorize | Deauthorize => 1
    case _ => 0
  }

  predicate Bounded(hs: seq<Handler>, rank: nat) {
    |hs| <= MAX_ACTIONS && forall i :: 0 <= i < |hs| ==> HandlerRank(hs[i]) <= rank
  }

  lemma ModemTableBounded(state: ModemState, e: ModemEvent)
    ensures Bounded(ModemTable(state, e).handlers, ModemRank(e))
  {}

  lemma LcpTableBounded(state: LcpState, e: LcpEvent)
    ensures Bounded(LcpTable(state, e).handlers, LcpRank(e))
  {}

  lemma AuthTableBounded(state: AuthState, e: AuthEvent)
    ensures Bounded(AuthTable(state, e).handlers, AuthRank(e))
  {}

  lemma IpcpTableBounded(state: IpcpState, e: IpcpEvent)
    ensures Bounded(IpcpTable(state, e).handlers, 0)
  {}

  // ---------- the evaluators ----------

  function EvalModem(s: State, e: ModemEvent): State
    decreases ModemRank(e), 2, 0
  {
    var entry := ModemTable(s.modem, e);
    ModemTableBounded(s.modem, e);
    RunHandlers(s.(modem := entry.next), entry.handlers, ModemRank(e))
  }

  /** The restart timer runs in exactly the states whose timeout entry has a handler. */
  predicate RestartRuns(state: LcpState) {
    LcpTable(state, ToPos).handlers != []
  }

  function EnterLcp(s: State, next: LcpState): State {
    var s' := s.(lcp := next);
    if RestartRuns(next) then s' else s'.(timers := s.timers - {LcpReqTimer, LcpTermTimer})
  }

  function EvalLcp(s: State, e: LcpEvent): State
    decreases LcpRank(e), 2, 0
  {
    var entry := LcpTable(s.lcp, e);
    LcpTableBounded(s.lcp, e);
    RunHandlers(EnterLcp(s, entry.next), entry.handlers, LcpRank(e))
  }

  function EvalAuth(s: State, e: AuthEvent): State
    decreases AuthRank(e), 2, 0
  {
    var entry := AuthTable(s.auth, e);
    AuthTableBounded(s.auth, e);
    RunHandlers(s.(auth := entry.next), entry.handlers, AuthRank(e))
  }

  function EvalIpcp(s: State, e: IpcpEvent): State
    decreases 0, 2, 0
  {
    var entry := IpcpTable(s.ipcp, e);
    IpcpTableBounded(s.ipcp, e);
    RunHandlers(s.(ipcp := entry.next), entry.handlers, 0)
  }

  function RunHandlers(s: State, hs: seq<Handler>, rank: nat): State
    requires Bounded(hs, rank)
    decreases rank, 1, |hs|
  {
    if hs == [] then s else RunHandlers(RunHandler(s, hs[0]), hs[1..], rank)
  }

  function RunHandler(s: State, h: Handler): State
    decreases HandlerRank(h), 0, 0
  {
    match h
    case NoEffect => s
    case Send(f) => Emit(s, f)
    case SendAt => StartTimer(Emit(s, AtCommand), ModemTimer, DEFAULT_TIMER)
    case SendDial => StartTimer(Emit(s, AtCommand), ModemTimer, MAX_DIALTIME)
    case ModemUp => EvalLcp(s, LcpEvent.Up)
    case ModemDown => EvalLcp(Emit(s, AtCommand), LcpEvent.Down)
    case LayerStarted => EvalModem(s, Start)
    case LayerFinished => EvalModem(s, Stop)
    case LayerUp =>
      if s.authProto == 0 then EvalAuth(s, UpNone)
      else if s.authProto == PROTO_PAP then EvalAuth(s, UpPap)
      else if s.authProto == PROTO_CHAP then EvalAuth(s, UpChap)
      else s
    case LayerDown => EvalAuth(s, AuthEvent.Down)
    case SendConfReq => LcpTimerStart(Emit(s, ConfReq).(timerVal := DEFAULT_TIMER), {LcpReqTimer})
    case SendTermReq => LcpTimerStart(Emit(s, TermReq), {LcpTermTimer})
    case InitRestartCount => LcpTimerStart(s, {LcpReqTimer})
    case ZeroRestartCount => LcpTimerStart(s, {})
    case Authorize => EvalIpcp(s, IpcpEvent.Up)
    case Deauthorize => EvalIpcp(s, IpcpEvent.Down)
    case AbortAuth => EvalLcp(s.(timers := s.timers - {AuthTimer}), Close)
    case StartAuthTimer => StartTimer(s, AuthTimer, DEFAULT_TIMER)
    case StartIpcpTimer => StartTimer(s, IpcpTimer, DEFAULT_TIMER * MAX_FAILURE)
  }

  // ---------- inputs ----------

  datatype LcpOption = LcpOption(kind: nat, value: nat)
  datatype Line = LineOk | LineError | LineConnect | OtherLine
  datatype PapReply = PapAck | PapNak
  datatype ChapPacket = Challenge | Success | Failure
  datatype IpcpCode = CodeReq | CodeAck | CodeNak | CodeRej | OtherCode

  /** A packet whose FCS has been verified. */
  datatype Packet =
    | LcpConfReq(options: seq<LcpOption>)
    | LcpConfAck
    | LcpConfNak(options: seq<LcpOption>)
    | LcpConfRej(options: seq<LcpOption>)
    | LcpEchoReq
    | Pap(pap: PapReply)
    | Chap(chap: ChapPacket)
    | Ipcp(code: IpcpCode, asksForVj: bool)
    | Ignored   // other codes and protocols, and IP data

  datatype Input =
    | Tick
    | ConnectCall
    | DisconnectCall
    | RecvLine(line: Line)
    | RecvPacket(packet: Packet)

  /** Option kinds of a packet as flags: a one shifted by the kind, taken modulo 32 as a shift
      of a 32-bit word takes it, and cut to sixteen bits. */
  function OptFlags(options: seq<LcpOption>): set<nat> {
    set o | o in options && o.kind % 32 < 16 :: o.kind % 32
  }

  /** The authentication protocol after adjusting it to the options; the last one wins. */
  function AdjustAuth(options: seq<LcpOption>, current: nat): nat {
    if options == [] then current
    else
      var last := options[|options| - 1];
      if last.kind == OPT_AUTH then last.value
      else AdjustAuth(options[..|options| - 1], current)
  }

  function ProcessPacket(s: State, p: Packet): State {
    match p
    case LcpConfReq(options) =>
      var flags := OptFlags(options);
      var s' := s.(authProto := AdjustAuth(options, s.authProto));
      if flags - s.localOpts != {} then EvalLcp(s', LcpEvent.RcrNeg)
      else EvalLcp(s'.(peerOpts := flags), LcpEvent.RcrPos)
    case LcpConfAck => EvalLcp(s, LcpEvent.Rca)
    case LcpConfNak(options) =>
      EvalLcp(s.(authProto := AdjustAuth(options, s.authProto)), LcpEvent.Rcn)
    case LcpConfRej(options) =>
      EvalLcp(s.(localOpts := s.localOpts - OptFlags(options)), LcpEvent.Rcn)
    case LcpEchoReq => EvalLcp(s, Rxr)
    case Pap(reply) =>
      if s.authProto != PROTO_PAP then s
      else EvalAuth(s, if reply.PapAck? then Raa else Ran)
    case Chap(c) =>
      if s.authProto != PROTO_CHAP then s
      else EvalAuth(s, match c case Challenge => Rac case Success => Raa case Failure => Ran)
    case Ipcp(code, asksForVj) =>
      if asksForVj then Emit(s, IpcpReq)
      else (
        match code
        case CodeReq => EvalIpcp(s, IpcpEvent.RcrPos)
        case CodeAck => EvalIpcp(s, IpcpEvent.Rca)
        case CodeNak | CodeRej => EvalIpcp(s, IpcpEvent.Rcn)
        case OtherCode => s
      )
    case Ignored => s
  }

  function CheckModem(s: State): State {
    if ModemTimer in s.timers && s.timerVal == 0
    then EvalModem(s.(timers := s.timers - {ModemTimer}), Timeout)
    else s
  }

  function CheckLcp(s: State): State {
    if (LcpReqTimer in s.timers || LcpTermTimer in s.timers) && s.timerVal == 0 then
      if s.timerCount == 0 then EvalLcp(s, ToNeg)
      else
        var s' := EvalLcp(s, ToPos);
        s'.(timerCount := if s'.timerCount == 0 then 255 else s'.timerCount - 1)
    else s
  }

  function CheckAuth(s: State): State {
    if AuthTimer in s.timers && s.timerVal == 0
    then EvalAuth(s.(timers := s.timers - {AuthTimer}), AuthEvent.To)
    else s
  }

  function CheckIpcp(s: State): State {
    if IpcpTimer in s.timers && s.timerVal == 0
    then EvalIpcp(s.(timers := s.timers - {IpcpTimer}), IpcpEvent.To)
    else s
  }

  /** The one-second tick. */
  function TickStep(s: State): State {
    var s1 := s.(timerVal := if s.timerVal > 0 then s.timerVal - 1 else 0);
    var s2 := CheckIpcp(CheckAuth(CheckLcp(CheckModem(s1))));
    if s2.autoreconnect && s2.lcp == LcpState.Initial then EvalLcp(s2, Open) else s2
  }

  /** Serial input is read as modem answers until the modem is connected, and as frames after. */
  function Step(s: State, i: Input): State {
    match i
    case Tick => TickStep(s)
    case ConnectCall => s.(autoreconnect := true)
    case DisconnectCall => EvalLcp(s.(autoreconnect := false), Close)
    case RecvLine(line) =>
      if s.modem == Connected then s
      else (
        match line
        case LineOk => EvalModem(s, ModemEvent.Ok)
        case LineError => EvalModem(s, Stop)
        case LineConnect => EvalModem(s, Connect)
        case OtherLine => s
      )
    case RecvPacket(p) => if s.modem == Connected then ProcessPacket(s, p) else s
  }

  function Run(s: State, inputs: seq<Input>): State {
    if inputs == [] then s
    else Step(Run(s, inputs[..|inputs| - 1]), inputs[|inputs| - 1])
  }
}
