/**
 The four transition tables of the PPP driver, with the handlers each entry runs.
 A table entry that keeps its state and runs nothing is left to the `_` case.
 */
module PppTables {

  datatype ModemState = Initial | Reset | Echo | Creg | Cgreg | Cgdcont | Cgatt | Dial | Connected
  datatype ModemEvent = Start | Stop | Ok | Connect | Timeout

  datatype LcpState =
    | Initial | Starting | Closed | Stopped | Closing | Stopping
    | ReqSent | AckRcvd | AckSent | Opened
  datatype LcpEvent =
    | Up | Down | Open | Close | ToPos | ToNeg | RcrPos | RcrNeg | Rca | Rcn
    | Rtr | Rta | Ruc | RxjPos | RxjNeg | Rxr

  datatype AuthState = Initial | Starting | RspSent | ReqSent | Authenticated
  datatype AuthEvent = UpNone | UpPap | UpChap | Down | Rac | Raa | Ran | To

  datatype IpcpState = Initial | ReqSent | AckRcvd | AckSent | Opened
  datatype IpcpEvent = Up | Down | RcrPos | RcrNeg | Rca | Rcn | To

  /** What a handler can put on the serial line. */
  datatype Frame =
    | AtCommand
    | ConfReq | ConfAck | ConfRej | TermReq | TermAck | EchoReply
    | PapRequest | ChapResponse
    | IpcpReq | IpcpAck

  /** The handlers named in the tables. `NoEffect` stands for the ones that touch neither
      the machines, nor the timers, nor the serial line. */
  datatype Handler =
    | NoEffect
    | Send(frame: Frame)
    | SendAt | SendDial | ModemUp | ModemDown
    | LayerStarted | LayerFinished | LayerUp | LayerDown
    | SendConfReq | SendTermReq | InitRestartCount | ZeroRestartCount
    | Authorize | Deauthorize | AbortAuth | StartAuthTimer
    | StartIpcpTimer

  datatype Entry<S> = Entry(next: S, handlers: seq<Handler>)

  function ModemTable(state: ModemState, event: ModemEvent): Entry<ModemState> {
    match state
    case Initial => (
      match event
      case Start => Entry(ModemState.Reset, [SendAt])
      case Timeout => Entry(ModemState.Initial, [SendAt])
      case _ => Entry(state, [])
    )
    case Reset => (
      match event
      case Stop => Entry(ModemState.Initial, [])
      case Ok => Entry(ModemState.Echo, [SendAt])
      case Timeout => Entry(ModemState.Reset, [SendAt])
      case _ => Entry(state, [])
    )
    case Echo => (
      match event
      case Stop => Entry(ModemState.Initial, [])
      case Ok => Entry(ModemState.Creg, [SendAt])
      case Timeout => Entry(ModemState.Reset, [SendAt])
      case _ => Entry(state, [])
    )
    case Creg => (
      match event
      case Stop => Entry(ModemState.Initial, [])
      case Ok => Entry(ModemState.Cgreg, [SendAt])
      case Timeout => Entry(ModemState.Reset, [SendAt])
      case _ => Entry(state, [])
    )
    case Cgreg => (
      match event
      case Stop => Entry(ModemState.Initial, [])
      case Ok => Entry(ModemState.Cgdcont, [SendAt])
      case Timeout => Entry(ModemState.Reset, [SendAt])
      case _ => Entry(state, [])
    )
    case Cgdcont => (
      match event
      case Stop => Entry(ModemState.Initial, [])
      case Ok => Entry(ModemState.Cgatt, [SendAt])
      case Timeout => Entry(ModemState.Reset, [SendAt])
      case _ => Entry(state, [])
    )
    case Cgatt => (
      match event
      case Stop => Entry(ModemState.Initial, [])
      case Ok => Entry(ModemState.Dial, [SendDial])
      case Timeout => Entry(ModemState.Reset, [SendAt])
      case _ => Entry(state, [])
    )
    case Dial => (
      match event
      case Stop => Entry(ModemState.Initial, [])
      case Connect => Entry(ModemState.Connected, [ModemUp])
      case Timeout => Entry(ModemState.Reset, [SendAt])
      case _ => Entry(state, [])
    )
    case Connected => (
      match event
      case Stop => Entry(ModemState.Initial, [ModemDown])
      case _ => Entry(state, [])
    )
  }

  function LcpTable(state: LcpState, event: LcpEvent): Entry<LcpState> {
    match state
    case Initial => (
      match event
      case Up => Entry(LcpState.Closed, [])
      case Open => Entry(LcpState.Starting, [LayerStarted])
      case _ => Entry(state, [])
    )
    case Starting => (
      match event
      case Up => Entry(LcpState.ReqSent, [SendConfReq])
      case Close => Entry(LcpState.Initial, [LayerFinished])
      case _ => Entry(state, [])
    )
    case Closed => (
      match event
      case Down => Entry(LcpState.Initial, [])
      case Open => Entry(LcpState.ReqSent, [SendConfReq])
      case RcrPos | RcrNeg | Rca | Rcn | Rtr => Entry(LcpState.Closed, [Send(TermAck)])
      case Ruc => Entry(LcpState.Closed, [NoEffect])
      case RxjNeg => Entry(LcpState.Closed, [LayerFinished])
      case _ => Entry(state, [])
    )
    case Stopped => (
      match event
      case Down => Entry(LcpState.Starting, [LayerStarted])
      case Close => Entry(LcpState.Closed, [])
      case RcrPos => Entry(LcpState.AckSent, [SendConfReq, Send(ConfAck)])
      case RcrNeg => Entry(LcpState.ReqSent, [SendConfReq, Send(ConfRej)])
      case Rca | Rcn | Rtr => Entry(LcpState.Stopped, [Send(TermAck)])
      case Ruc => Entry(LcpState.Stopped, [NoEffect])
      case RxjNeg => Entry(LcpState.Stopped, [LayerFinished])
      case _ => Entry(state, [])
    )
    case Closing => (
      match event
      case Down => Entry(LcpState.Initial, [])
      case Open => Entry(LcpState.Stopping, [])
      case ToPos => Entry(LcpState.Closing, [SendTermReq])
      case ToNeg | Rta | RxjNeg => Entry(LcpState.Closed, [LayerFinished])
      case Rtr => Entry(LcpState.Closing, [Send(TermAck)])
      case Ruc => Entry(LcpState.Closing, [NoEffect])
      case _ => Entry(state, [])
    )
    case Stopping => (
      match event
      case Down => Entry(LcpState.Starting, [])
      case Close => Entry(LcpState.Closing, [])
      case ToPos => Entry(LcpState.Stopping, [SendTermReq])
      case ToNeg | Rta | RxjNeg => Entry(LcpState.Stopped, [LayerFinished])
      case Rtr => Entry(LcpState.Stopping, [Send(TermAck)])
      case Ruc => Entry(LcpState.Stopping, [NoEffect])
      case _ => Entry(state, [])
    )
    case ReqSent => (
      match event
      case Down => Entry(LcpState.Starting, [])
      case Close => Entry(LcpState.Closing, [SendTermReq])
      case ToPos | Rcn => Entry(LcpState.ReqSent, [SendConfReq])
      case ToNeg | RxjNeg => Entry(LcpState.Stopped, [LayerFinished])
      case RcrPos => Entry(LcpState.AckSent, [Send(ConfAck)])
      case RcrNeg => Entry(LcpState.ReqSent, [Send(ConfRej)])
      case Rca => Entry(LcpState.AckRcvd, [InitRestartCount])
      case Rtr => Entry(LcpState.ReqSent, [Send(TermAck)])
      case Ruc => Entry(LcpState.ReqSent, [NoEffect])
      case _ => Entry(state, [])
    )
    case AckRcvd => (
      match event
      case Down => Entry(LcpState.Starting, [])
      case Close => Entry(LcpState.Closing, [SendTermReq])
      case ToPos | Rca | Rcn => Entry(LcpState.ReqSent, [SendConfReq])
      case ToNeg | RxjNeg => Entry(LcpState.Stopped, [LayerFinished])
      case RcrPos => Entry(LcpState.Opened, [Send(ConfAck), LayerUp])
      case RcrNeg => Entry(LcpState.AckRcvd, [Send(ConfRej)])
      case Rtr => Entry(LcpState.ReqSent, [Send(TermAck)])
      case Rta | RxjPos => Entry(LcpState.ReqSent, [])
      case Ruc => Entry(LcpState.AckRcvd, [NoEffect])
      case _ => Entry(state, [])
    )
    case AckSent => (
      match event
      case Down => Entry(LcpState.Starting, [])
      case Close => Entry(LcpState.Closing, [SendTermReq])
      case ToPos | Rcn => Entry(LcpState.AckSent, [SendConfReq])
      case ToNeg | RxjNeg => Entry(LcpState.Stopped, [LayerFinished])
      case RcrPos => Entry(LcpState.AckSent, [Send(ConfAck)])
      case RcrNeg => Entry(LcpState.ReqSent, [Send(ConfRej)])
      case Rca => Entry(LcpState.Opened, [LayerUp])
      case Rtr => Entry(LcpState.ReqSent, [Send(TermAck)])
      case Ruc => Entry(LcpState.AckSent, [NoEffect])
      case _ => Entry(state, [])
    )
    case Opened => (
      match event
      case Down => Entry(LcpState.Starting, [LayerDown])
      case Close => Entry(LcpState.Closing, [LayerDown, SendTermReq])
      case RcrPos => Entry(LcpState.AckSent, [LayerDown, SendTermReq, Send(ConfAck)])
      case RcrNeg => Entry(LcpState.ReqSent, [LayerDown, SendConfReq, Send(ConfRej)])
      case Rca | Rcn | Rta => Entry(LcpState.ReqSent, [LayerDown, SendTermReq])
      case Rtr => Entry(LcpState.Stopping, [LayerDown, ZeroRestartCount, Send(TermAck)])
      case Ruc => Entry(LcpState.Opened, [NoEffect])
      case RxjNeg => Entry(LcpState.Stopping, [LayerDown, SendTermReq])
      case Rxr => Entry(LcpState.Opened, [Send(EchoReply)])
      case _ => Entry(state, [])
    )
  }

  function AuthTable(state: AuthState, event: AuthEvent): Entry<AuthState> {
    match state
    case Initial => (
      match event
      case UpNone => Entry(AuthState.Authenticated, [Authorize])
      case UpPap => Entry(AuthState.ReqSent, [Send(PapRequest), StartAuthTimer])
      case UpChap => Entry(AuthState.Starting, [])
      case Ran => Entry(AuthState.Initial, [AbortAuth])
      case _ => Entry(state, [])
    )
    case Starting => (
      match event
      case Down => Entry(AuthState.Initial, [Deauthorize])
      case Rac => Entry(AuthState.RspSent, [Send(ChapResponse), StartAuthTimer])
      case Raa => Entry(AuthState.Starting, [StartAuthTimer])
      case Ran => Entry(AuthState.Starting, [AbortAuth])
      case To => Entry(AuthState.Initial, [Send(PapRequest), StartAuthTimer])
      case _ => Entry(state, [])
    )
    case RspSent => (
      match event
      case Down => Entry(AuthState.Initial, [Deauthorize])
      case Rac => Entry(AuthState.RspSent, [Send(ChapResponse), StartAuthTimer])
      case Raa => Entry(AuthState.Authenticated, [Authorize])
      case Ran => Entry(AuthState.Starting, [AbortAuth])
      case To => Entry(AuthState.Starting, [StartAuthTimer])
      case _ => Entry(state, [])
    )
    case ReqSent => (
      match event
      case Down => Entry(AuthState.Initial, [Deauthorize])
      case Raa => Entry(AuthState.Authenticated, [Authorize])
      case Ran => Entry(AuthState.ReqSent, [AbortAuth])
      case To => Entry(AuthState.ReqSent, [Send(PapRequest), StartAuthTimer])
      case _ => Entry(state, [])
    )
    case Authenticated => (
      match event
      case Down => Entry(AuthState.Initial, [Deauthorize])
      case Rac => Entry(AuthState.RspSent, [Send(ChapResponse)])
      case _ => Entry(state, [])
    )
  }

  function IpcpTable(state: IpcpState, event: IpcpEvent): Entry<IpcpState> {
    match state
    case Initial => (
      match event
      case Up => Entry(IpcpState.ReqSent, [Send(IpcpReq), StartIpcpTimer])
      case _ => Entry(state, [])
    )
    case ReqSent => (
      match event
      case Down => Entry(IpcpState.Initial, [])
      case RcrPos => Entry(IpcpState.AckSent, [Send(IpcpAck)])
      case RcrNeg => Entry(IpcpState.ReqSent, [NoEffect])
      case Rca => Entry(IpcpState.AckRcvd, [])
      case Rcn | To => Entry(IpcpState.ReqSent, [Send(IpcpReq), StartIpcpTimer])
      case _ => Entry(state, [])
    )
    case AckRcvd => (
      match event
      case Down => Entry(IpcpState.Initial, [])
      case RcrPos => Entry(IpcpState.Opened, [Send(IpcpAck), NoEffect])
      case RcrNeg => Entry(IpcpState.AckRcvd, [NoEffect])
      case Rca | Rcn => Entry(IpcpState.ReqSent, [Send(IpcpReq), StartIpcpTimer])
      case To => Entry(IpcpState.AckRcvd, [Send(IpcpReq), StartIpcpTimer])
      case _ => Entry(state, [])
    )
    case AckSent => (
      match event
      case Down => Entry(IpcpState.Initial, [])
      case RcrPos => Entry(IpcpState.AckSent, [Send(IpcpAck)])
      case RcrNeg => Entry(IpcpState.ReqSent, [NoEffect])
      case Rca => Entry(IpcpState.Opened, [NoEffect])
      case Rcn | To => Entry(IpcpState.AckSent, [Send(IpcpReq), StartIpcpTimer])
      case _ => Entry(state, [])
    )
    case Opened => (
      match event
      case Down => Entry(IpcpState.Initial, [NoEffect])
      case RcrPos => Entry(IpcpState.AckSent, [NoEffect, Send(IpcpReq), Send(IpcpAck)])
      case RcrNeg => Entry(IpcpState.ReqSent, [NoEffect, Send(IpcpReq), NoEffect])
      case Rca | Rcn => Entry(IpcpState.ReqSent, [Send(IpcpReq)])
      case _ => Entry(state, [])
    )
  }
}
