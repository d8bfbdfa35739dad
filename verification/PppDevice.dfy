/** The PPP device itself: fields updated in place by mutually recursive evaluators, each
    proved against the event semantics of PppFsm. */
module PppDevice {
  import opened PppTables
  import opened PppFsm
  import opened PppLayering
  import PppRuns

  class Device {
    var modem: ModemState
    var lcp: LcpState
    var auth: AuthState
    var ipcp: IpcpState
    var authProto: nat
    var localOpts: set<nat>
    var peerOpts: set<nat>
    var autoreconnect: bool
    var timers: set<Timer>
    var timerVal: nat
    var timerCount: nat
    var wire: seq<Sent>

    ghost function View(): State
      reads this
    {
      State(modem, lcp, auth, ipcp, authProto, localOpts, peerOpts, autoreconnect,
            timers, timerVal, timerCount, wire)
    }

    constructor ()
      ensures View() == CREATED && Layered(View())
    {
      modem, lcp, auth, ipcp := ModemState.Initial, LcpState.Initial, AuthState.Initial, IpcpState.Initial;
      authProto := 0;
      localOpts, peerOpts := {OPT_MRU, OPT_AUTH, OPT_PROTO_COMP, OPT_ADDRCTL_COMP}, {};
      autoreconnect := false;
      timers, timerVal, timerCount := {}, 0, 0;
      wire := [];
      new;
      RestartStates(lcp);
    }

    method Transmit(f: Frame)
      modifies this`wire
      ensures View() == Emit(old(View()), f)
    {
      wire := wire + [Sent(f, modem)];
    }

    method SetTimer(t: Timer, value: nat)
      modifies this`timers, this`timerVal
      ensures View() == StartTimer(old(View()), t, value)
    {
      timers := timers + {t};
      timerVal := value;
    }

    method StartLcpTimer(kind: set<Timer>)
      modifies this`timers, this`timerVal, this`timerCount
      ensures View() == LcpTimerStart(old(View()), kind)
    {
      var count := 0;
      timers := timers + kind;
      if timerVal == 0 { timerVal := DEFAULT_TIMER; }
      if kind == {LcpTermTimer} { count := MAX_TERMINATE; }
      if kind == {LcpReqTimer} { count := MAX_CONFIGURE; }
      if kind == {} {
        timers := timers + {LcpReqTimer};
        timerCount := 0;
      }
      if timerCount == 0 { timerCount := count; }
    }

    method EvaluateModem(e: ModemEvent)
      modifies this
      ensures View() == EvalModem(old(View()), e)
      decreases ModemRank(e), 2, 0
    {
      var entry := ModemTable(modem, e);
      ModemTableBounded(modem, e);
      modem := entry.next;
      RunAll(entry.handlers, ModemRank(e));
    }

    method EvaluateLcp(e: LcpEvent)
      modifies this
      ensures View() == EvalLcp(old(View()), e)
      decreases LcpRank(e), 2, 0
    {
      var entry := LcpTable(lcp, e);
      LcpTableBounded(lcp, e);
      lcp := entry.next;
      var timeout := LcpTable(lcp, ToPos);
      if timeout.handlers == [] {
        timers := timers - {LcpReqTimer, LcpTermTimer};
      }
      RunAll(entry.handlers, LcpRank(e));
    }

    method EvaluateAuth(e: AuthEvent)
      modifies this
      ensures View() == EvalAuth(old(View()), e)
      decreases AuthRank(e), 2, 0
    {
      var entry := AuthTable(auth, e);
      AuthTableBounded(auth, e);
      auth := entry.next;
      RunAll(entry.handlers, AuthRank(e));
    }

    method EvaluateIpcp(e: IpcpEvent)
      modifies this
      ensures View() == EvalIpcp(old(View()), e)
      decreases 0, 2, 0
    {
      var entry := IpcpTable(ipcp, e);
      IpcpTableBounded(ipcp, e);
      ipcp := entry.next;
      RunAll(entry.handlers, 0);
    }

    /** The handler loop every evaluator ends with. */
    method RunAll(hs: seq<Handler>, rank: nat)
      requires Bounded(hs, rank)
      modifies this
      ensures View() == RunHandlers(old(View()), hs, rank)
      decreases rank, 1, |hs|
    {
      for i := 0 to |hs|
        invariant RunHandlers(View(), hs[i..], rank) == RunHandlers(old(View()), hs, rank)
      {
        assert hs[i..][1..] == hs[i + 1..];
        Handle(hs[i]);
      }
    }

    method Handle(h: Handler)
      modifies this
      ensures View() == RunHandler(old(View()), h)
      decreases HandlerRank(h), 0, 0
    {
      match h
      case NoEffect =>
      case Send(f) => Transmit(f);
      case SendAt =>
        Transmit(AtCommand);
        SetTimer(ModemTimer, DEFAULT_TIMER);
      case SendDial =>
        Transmit(AtCommand);
        SetTimer(ModemTimer, DEFAULT_TIMER);
        timerVal := MAX_DIALTIME;
      case ModemUp => EvaluateLcp(LcpEvent.Up);
      case ModemDown =>
        Transmit(AtCommand);
        EvaluateLcp(LcpEvent.Down);
      case LayerStarted => EvaluateModem(Start);
      case LayerFinished => EvaluateModem(Stop);
      case LayerUp =>
        if authProto == 0 {
          EvaluateAuth(UpNone);
        } else if authProto == PROTO_PAP {
          EvaluateAuth(UpPap);
        } else if authProto == PROTO_CHAP {
          EvaluateAuth(UpChap);
        }
      case LayerDown => EvaluateAuth(AuthEvent.Down);
      case SendConfReq =>
        Transmit(ConfReq);
        timerVal := DEFAULT_TIMER;
        StartLcpTimer({LcpReqTimer});
      case SendTermReq =>
        Transmit(TermReq);
        StartLcpTimer({LcpTermTimer});
      case InitRestartCount => StartLcpTimer({LcpReqTimer});
      case ZeroRestartCount => StartLcpTimer({});
      case Authorize => EvaluateIpcp(IpcpEvent.Up);
      case Deauthorize => EvaluateIpcp(IpcpEvent.Down);
      case AbortAuth =>
        timers := timers - {AuthTimer};
        EvaluateLcp(Close);
      case StartAuthTimer => SetTimer(AuthTimer, DEFAULT_TIMER);
      case StartIpcpTimer => SetTimer(IpcpTimer, DEFAULT_TIMER * MAX_FAILURE);
    }

    // ---------- the entry points ----------

    method CheckToModem()
      modifies this
      ensures View() == CheckModem(old(View()))
    {
      if ModemTimer in timers && timerVal == 0 {
        timers := timers - {ModemTimer};
        EvaluateModem(Timeout);
      }
    }

    method CheckToLcp()
      modifies this
      ensures View() == CheckLcp(old(View()))
    {
      if (LcpReqTimer in timers || LcpTermTimer in timers) && timerVal == 0 {
        if timerCount == 0 {
          EvaluateLcp(ToNeg);
        } else {
          EvaluateLcp(ToPos);
          timerCount := if timerCount == 0 then 255 else timerCount - 1;
        }
      }
    }

    method CheckToAuth()
      modifies this
      ensures View() == CheckAuth(old(View()))
    {
      if AuthTimer in timers && timerVal == 0 {
        timers := timers - {AuthTimer};
        EvaluateAuth(AuthEvent.To);
      }
    }

    method CheckToIpcp()
      modifies this
      ensures View() == CheckIpcp(old(View()))
    {
      if IpcpTimer in timers && timerVal == 0 {
        timers := timers - {IpcpTimer};
        EvaluateIpcp(IpcpEvent.To);
      }
    }

    method OnTick()
      requires Layered(View())
      modifies this
      ensures View() == TickStep(old(View()))
      ensures Layered(View())
    {
      TickKeeps(View());
      if timerVal > 0 { timerVal := timerVal - 1; }
      CheckToModem();
      CheckToLcp();
      CheckToAuth();
      CheckToIpcp();
      if autoreconnect && lcp == LcpState.Initial {
        EvaluateLcp(Open);
      }
    }

    method OnLine(line: Line)
      requires Layered(View()) && modem != Connected
      modifies this
      ensures View() == Step(old(View()), RecvLine(line))
      ensures Layered(View())
    {
      StepKeeps(View(), RecvLine(line));
      match line
      case LineOk => EvaluateModem(ModemEvent.Ok);
      case LineError => EvaluateModem(Stop);
      case LineConnect => EvaluateModem(Connect);
      case OtherLine =>
    }

    method OnPacket(p: Packet)
      requires Layered(View()) && modem == Connected
      modifies this
      ensures View() == Step(old(View()), RecvPacket(p))
      ensures Layered(View())
    {
      StepKeeps(View(), RecvPacket(p));
      match p
      case LcpConfReq(options) =>
        authProto := AdjustAuth(options, authProto);
        var flags := OptFlags(options);
        if flags - localOpts != {} {
          EvaluateLcp(LcpEvent.RcrNeg);
        } else {
          peerOpts := flags;
          EvaluateLcp(LcpEvent.RcrPos);
        }
      case LcpConfAck => EvaluateLcp(LcpEvent.Rca);
      case LcpConfNak(options) =>
        authProto := AdjustAuth(options, authProto);
        EvaluateLcp(LcpEvent.Rcn);
      case LcpConfRej(options) =>
        localOpts := localOpts - OptFlags(options);
        EvaluateLcp(LcpEvent.Rcn);
      case LcpEchoReq => EvaluateLcp(Rxr);
      case Pap(reply) =>
        if authProto == PROTO_PAP {
          EvaluateAuth(if reply.PapAck? then Raa else Ran);
        }
      case Chap(c) =>
        if authProto == PROTO_CHAP {
          EvaluateAuth(match c case Challenge => Rac case Success => Raa case Failure => Ran);
        }
      case Ipcp(code, asksForVj) =>
        if asksForVj {
          Transmit(IpcpReq);
        } else {
          match code
          case CodeReq => EvaluateIpcp(IpcpEvent.RcrPos);
          case CodeAck => EvaluateIpcp(IpcpEvent.Rca);
          case CodeNak | CodeRej => EvaluateIpcp(IpcpEvent.Rcn);
          case OtherCode =>
        }
      case Ignored =>
    }

    method Disconnect()
      requires Layered(View())
      modifies this
      ensures View() == Step(old(View()), DisconnectCall)
      ensures Layered(View()) && !autoreconnect
    {
      StepKeeps(View(), DisconnectCall);
      autoreconnect := false;
      PppRuns.LcpConfig(View(), Close);
      EvaluateLcp(Close);
    }
  }
}
