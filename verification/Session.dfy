/** postlogin.c and the descriptor part of ftpdataio.c: one logged-in session of the two-process server,
    with its privileged parent and, if the control connection is encrypted, its SSL slave. What clients,
    files and system calls come to is given with each command; a lost connection can end the session at
    any time; traps of the program are outcomes. */
module Session {
  import opened Basics
  import opened PrivSock
  import opened Lockstep
  import opened PrivParent
  import opened SslSlave
  import opened Exits
  import opened Logging
  import TwoProcess

  /** get_chunk_size */
  function ChunkSize(transChunkSize: nat): (r: nat)
    ensures 4096 <= r <= DATA_BUFSIZE
    ensures r == DATA_BUFSIZE <==> transChunkSize == 0 || transChunkSize >= DATA_BUFSIZE
    ensures 4096 <= transChunkSize < DATA_BUFSIZE ==> r == transChunkSize
  {
    if 0 < transChunkSize < DATA_BUFSIZE then
      if transChunkSize < 4096 then 4096 else transChunkSize
    else
      DATA_BUFSIZE
  }

  datatype Config = Config(
    transChunkSize: nat, portPromiscuous: bool, sslEnable: bool, forceDataSsl: bool,
    isAnonymous: bool, controlUseSsl: bool, asyncAbor: bool, badPasvAddress: bool)

  // ---------------------------------------------------------------- the two that call each other

  /** port_active and pasv_active call each other to rule each other out. With a bound on the depth of
      calls, None means that the bound was reached. */
  function PortActiveCalls(depth: nat, port: bool, pasv: bool): Option<Outcome> {
    if depth == 0 then None
    else if !port then Some(Go)
    else
      match PasvActiveCalls(depth - 1, port, pasv)
      case None => None
      case Some(o) => Some(if pasv then Exit(Trap(BothActive)) else o)
  }

  function PasvActiveCalls(depth: nat, port: bool, pasv: bool): Option<Outcome> {
    if depth == 0 then None
    else if !pasv then Some(Go)
    else
      match PortActiveCalls(depth - 1, port, pasv)
      case None => None
      case Some(o) => Some(if port then Exit(Trap(BothActive)) else o)
  }

  /** With both active the calls never return, so not even their own trap is reached. */
  lemma {:induction false} BothActiveDiverges(depth: nat)
    ensures PortActiveCalls(depth, true, true).None? && PasvActiveCalls(depth, true, true).None?
  {
    if depth > 0 {
      BothActiveDiverges(depth - 1);
    }
  }

  /** The calls return, without a trap, exactly if at most one is active. */
  lemma CallsReturn(port: bool, pasv: bool)
    ensures (exists depth: nat :: PortActiveCalls(depth, port, pasv).Some?) <==> !(port && pasv)
    ensures (exists depth: nat :: PasvActiveCalls(depth, port, pasv).Some?) <==> !(port && pasv)
    ensures !(port && pasv) ==> PortActiveCalls(2, port, pasv) == PasvActiveCalls(2, port, pasv) == Some(Go)
  {
    if port && pasv {
      forall depth: nat ensures PortActiveCalls(depth, port, pasv).None? && PasvActiveCalls(depth, port, pasv).None? {
        BothActiveDiverges(depth);
      }
    } else {
      assert PortActiveCalls(2, port, pasv).Some? && PasvActiveCalls(2, port, pasv).Some?;
    }
  }

  // ---------------------------------------------------------------- what a command meets

  datatype EpsvArg = NoArg | All | Network(n: int)

  datatype PortArg = PortArg(host: seq<Byte>, high: Byte, low: Byte) {
    function Number(): (n: nat)
      ensures n <= LAST_PORT
    {
      high as int * 256 + low as int
    }
  }

  /** The two numbers by which PASV tells its port. */
  function PasvNumbers(port: nat): PortArg
    requires port <= LAST_PORT
  {
    PortArg([], port / 256, port % 256)
  }

  /** A client that hands them on in a PORT command means the same port. */
  lemma PasvNumbersMean(port: nat)
    requires port <= LAST_PORT
    ensures PasvNumbers(port).Number() == port
  {
  }

  datatype EprtArg = BadSyntax | BadProtocol | Address(port: int)

  datatype ProtArg = Clear | Private | Unsupported | Unrecognised

  /** What a read of an upload finds: so many bytes, none at the end of the data or on a connection that
      has been shut down, or a failure (negative); whether SIGURG came meanwhile, with ABOR or without; and
      whether what was read could be written to the file. */
  datatype RecvEvent = RecvEvent(arrives: int, urgent: Option<bool>, stored: bool)

  /** The result that the receive loop ends with. */
  function RecvResult(events: seq<RecvEvent>): Option<int> {
    if events == [] then None
    else if events[0].arrives < 0 then Some(-2)
    else if events[0].arrives == 0 then Some(0)
    else if !events[0].stored then Some(-1)
    else RecvResult(events[1..])
  }

  /** Before the loop has ended, more arrives at once than `len` bytes. */
  predicate Floods(events: seq<RecvEvent>, len: nat) {
    && events != []
    && (events[0].arrives > len || (events[0].arrives > 0 && events[0].stored && Floods(events[1..], len)))
  }

  /** ABOR comes before the loop has ended. */
  predicate AborBeforeEnd(events: seq<RecvEvent>) {
    && events != []
    && (events[0].urgent == Some(true) || (events[0].arrives > 0 && events[0].stored && AborBeforeEnd(events[1..])))
  }

  /** What a read of a file to be sent, or the next part of a listing, finds: a piece, the end (an empty
      piece) or a failure; whether SIGURG came meanwhile; and whether the network took the piece. */
  datatype SendEvent = SendEvent(piece: Option<seq<Byte>>, urgent: Option<bool>, taken: bool)

  /** The result that the send loop ends with. */
  function SendResult(events: seq<SendEvent>): Option<int> {
    if events == [] then None
    else if events[0].piece.None? then Some(-1)
    else if events[0].piece.value == [] then Some(0)
    else if !events[0].taken then Some(-2)
    else SendResult(events[1..])
  }

  /** A file or directory that is asked for. */
  datatype FileState = FileState(openable: bool, regular: bool, directory: bool, readable: bool)

  predicate FileOk(f: FileState) {
    f.openable && f.regular && f.readable
  }

  /** What a command that transfers something meets: whether its argument is admissible; the file; whether
      a file could be created, or the instructions found; the system calls of the parent; the SSL
      handshake and the close of the data connection; and what the transfer finds. */
  datatype Env = Env(
    allowed: bool, file: FileState, created: bool, world: World,
    handshakeLost: bool, accepted: bool, closed: bool,
    recv: seq<RecvEvent>, send: seq<SendEvent>)

  /** The result of a whole transfer: a close that fails spoils a success. */
  function Final(recv: bool, env: Env, ssl: bool): Option<int> {
    match if recv then RecvResult(env.recv) else SendResult(env.send)
    case None => None
    case Some(r) => Some(if r == 0 && ssl && !env.closed then -2 else r)
  }

  /** The network lets a data connection come about, to the port of PORT or else to the one listened on,
      before SSL. */
  predicate Reached(port: Option<nat>, promiscuous: bool, w: World) {
    if port.Some? then ConnectFd(w, port.value) >= 0 else AcceptFd(w, promiscuous) >= 0
  }

  /** A data connection comes about, with SSL where it is wanted. */
  predicate ConnectsIf(port: Option<nat>, promiscuous: bool, ssl: bool, env: Env) {
    Reached(port, promiscuous, env.world) && (ssl ==> env.accepted)
  }

  /** The transfer of a file succeeds. */
  predicate SucceedsIf(recv: bool, port: Option<nat>, promiscuous: bool, ssl: bool, env: Env) {
    ConnectsIf(port, promiscuous, ssl, env) && Final(recv, env, ssl) == Some(0)
  }

  /** What the client is told at the end of a transfer. */
  function ResultReply(retval: int, aborted: bool): nat {
    if retval == -1 then 451 else if retval == -2 || aborted then 426 else 226
  }

  /** What the client is told last about the transfer of a file, without ABOR. */
  function ReplyIf(recv: bool, port: Option<nat>, promiscuous: bool, ssl: bool, env: Env): nat {
    if ConnectsIf(port, promiscuous, ssl, env) then
      ResultReply(match Final(recv, env, ssl) case Some(r) => r case None => 0, false)
    else if Reached(port, promiscuous, env.world) then 522 else 425
  }

  datatype FileOp = MakeDirectory | RemoveDirectory | DeleteFile | ChangeMode

  function OpKind(op: FileOp): Logging.Kind {
    match op
    case MakeDirectory => Mkdir
    case RemoveDirectory => Rmdir
    case DeleteFile => Delete
    case ChangeMode => Chmod
  }

  function OpReply(op: FileOp): nat {
    match op
    case MakeDirectory => 257
    case RemoveDirectory => 250
    case DeleteFile => 250
    case ChangeMode => 200
  }

  /** The commands of a session, with what they meet. `Reply` stands for all those that only answer, and
      for any command that the configuration refuses. */
  datatype Command =
    | Quit
    | Pasv(isEpsv: bool, arg: EpsvArg, isIpv6: bool, world: World)
    | Port(vals: Option<PortArg>, same: bool)
    | Eprt(eprt: EprtArg, same: bool)
    | Retr(env: Env)
    | Store(env: Env)
    | Dir(stat: bool, env: Env)
    | SiteUins(text: seq<Byte>, taken: bool, env: Env)
    | FileOperation(op: FileOp, complete: bool, allowed: bool, done: bool)
    | Rnfr(present: bool)
    | Rnto(allowed: bool, done: bool)
    | Rest(val: int)
    | Type(ascii: Option<bool>)
    | Prot(level: ProtArg)
    | Reply(code: nat)

  predicate SetsUp(c: Command) {
    c.Pasv? || c.Port? || c.Eprt?
  }

  predicate Transfers(c: Command) {
    c.Retr? || c.Store? || c.Dir?
  }

  function SetUps(commands: seq<Command>): nat {
    if commands == [] then 0
    else SetUps(commands[..|commands| - 1]) + if SetsUp(commands[|commands| - 1]) then 1 else 0
  }

  ghost predicate AnyUins(commands: seq<Command>) {
    exists c :: c in commands && c.SiteUins?
  }

  ghost predicate AnyEpsv(commands: seq<Command>) {
    exists c :: c in commands && c.Pasv? && c.isEpsv
  }

  /** What EPSV ALL refuses. Section 4 of RFC 2428 would have it refuse EPRT as well. */
  predicate ShutOut(c: Command, epsvAll: bool) {
    epsvAll && (c.Port? || (c.Pasv? && !c.isEpsv))
  }

  /** The argument of PASV or EPSV leads to a listening port. */
  predicate AsksToListen(isEpsv: bool, arg: EpsvArg, isIpv6: bool) {
    !isEpsv || arg.NoArg? || arg == Network(1) || (isIpv6 && arg == Network(2))
  }

  lemma OneMore(commands: seq<Command>, i: nat)
    requires i < |commands|
    ensures AnyUins(commands[..i + 1]) <==> AnyUins(commands[..i]) || commands[i].SiteUins?
    ensures AnyEpsv(commands[..i + 1]) <==> AnyEpsv(commands[..i]) || (commands[i].Pasv? && commands[i].isEpsv)
    ensures commands[i].SiteUins? ==> AnyUins(commands)
    ensures SetUps(commands[..i + 1]) == SetUps(commands[..i]) + if SetsUp(commands[i]) then 1 else 0
  {
    assert commands[..i + 1] == commands[..i] + [commands[i]];
    assert commands[..i + 1][..i] == commands[..i];
  }

  // ---------------------------------------------------------------- the session

  const QUIET := Net(false, false, false, None, 0, None, 0, false)

  /** The control connection, as far as the replies of the command loop go. */
  class Control {
    ghost var last: nat
    ghost var count: nat
    /** Neither connection is lost, and no timer runs out. */
    const steady: bool

    constructor (steady: bool)
      ensures this.steady == steady
    {
      last, count, this.steady := 0, 0, steady;
    }
  }

  class Session {
    const parent: Parent
    const slave: Slave
    const log: Log
    const control: Control
    const config: Config
    /** p_port_sockaddr, of which only the port matters here. */
    var portSockaddr: Option<nat>
    var dataFd: int
    var ioHandler: bool
    var dataSsl: bool
    var dataUseSsl: bool
    var epsvAll: bool
    var isAscii: bool
    var restartPos: nat
    var rnfrSet: bool
    var aborReceived: bool
    /** How often a data connection was asked for. */
    ghost var attempts: nat
    /** How often the client was told that the transfer of a file is complete. */
    ghost var completes: nat
    /** Uploads that ended without an error, but after an ABOR. */
    ghost var cut: nat

    constructor (parent: Parent, slave: Slave, log: Log, control: Control, config: Config, dataUseSsl: bool)
      requires parent.pasvListenFd == NO_FD && parent.lost == 0 && slave.Clean() && log.Quiet()
      ensures Boundary() && this.parent == parent && this.slave == slave && this.log == log
      ensures this.control == control && this.config == config
    {
      this.parent, this.slave, this.log, this.control, this.config := parent, slave, log, control, config;
      this.dataUseSsl, dataFd, ioHandler, dataSsl := dataUseSsl, NO_FD, false, false;
      portSockaddr, epsvAll, isAscii, restartPos, rnfrSet := None, false, false, 0, false;
      attempts, completes, cut, aborReceived := 0, 0, 0, false;
    }

    // -------------------------------------------------------------- what holds when

    predicate ViaSlave()
      reads this
    {
      dataUseSsl && config.controlUseSsl
    }

    /** No trace of a data connection, here or in the slave. */
    predicate DataIdle()
      reads this, slave
    {
      dataFd == NO_FD && !ioHandler && !dataSsl && slave.Paired() && !slave.dataSsl
    }

    /** A data connection is open; its SSL object, if it has one, is where it belongs. */
    predicate DataBusy()
      reads this, slave
    {
      && dataFd >= 0 && ioHandler && slave.Paired() && (dataSsl ==> dataUseSsl)
      && (if ViaSlave() then !dataSsl && (slave.dataSsl ==> slave.dataFd == dataFd) else !slave.dataSsl)
    }

    predicate HasSsl()
      reads this, slave
    {
      if ViaSlave() then slave.dataSsl else dataSsl
    }

    predicate Connected()
      reads this, slave
    {
      DataBusy() && (dataUseSsl ==> HasSsl())
    }

    predicate Listening()
      reads parent
    {
      parent.pasvListenFd != NO_FD
    }

    predicate SomeActive()
      reads this, parent
    {
      portSockaddr.Some? || Listening()
    }

    /** At most one of PORT and PASV is active, and the port given by PORT is one the parent will connect to. */
    ghost predicate Endpoints()
      reads this, parent
    {
      && parent.lost == 0 && !(portSockaddr.Some? && Listening())
      && (portSockaddr.Some? ==> portSockaddr.value <= LAST_PORT)
      && (portSockaddr.Some? && !config.portPromiscuous ==> portSockaddr.value >= FIRST_PORT)
    }

    predicate AborPossible()
      reads this
    {
      aborReceived ==> config.asyncAbor
    }

    ghost predicate Settled()
      reads this, parent, slave, log
    {
      DataIdle() && Endpoints() && log.Valid() && AborPossible()
    }

    /** What holds whenever the next command is awaited. */
    ghost predicate Boundary()
      reads this, parent, slave, log
    {
      Settled() && log.Quiet()
    }

    // -------------------------------------------------------------- the control connection

    /** What a request to the slave that is not about a connection leaves alone. */
    twostate predicate SlaveKept()
      reads slave
    {
      slave.Paired() && slave.dataSsl == old(slave.dataSsl) && slave.dataFd == old(slave.dataFd)
    }

    lemma TextFits(c: Byte, text: seq<Byte>)
      requires (c == WRITE_USER_RESP || c == DO_SSL_WRITE) && |text| <= MAXSTR
      ensures Fits(SlaveProtocol(), [Code(c), Text(text)])
    {
      assert KindsOf([Code(c), Text(text)][1..]) == [KText];
    }

    lemma BareFits(c: Byte)
      requires SlaveArgs(c) == Some([])
      ensures Fits(SlaveProtocol(), [Code(c)])
    {
      assert KindsOf([Code(c)][1..]) == [];
    }

    lemma DescriptorFits(fd: int)
      ensures Fits(SlaveProtocol(), [Code(DO_SSL_HANDSHAKE), Descriptor(fd)])
    {
      assert KindsOf([Code(DO_SSL_HANDSHAKE), Descriptor(fd)][1..]) == [KDescriptor];
    }

    /** SIGURG can make a request of the slave inside another one. */
    predicate MayNest()
      reads this
    {
      config.asyncAbor && config.controlUseSsl && dataFd != NO_FD
    }

    predicate OnlyOutOfStep(o: Outcome)
      reads this
    {
      o.Traps() ==> o.reason == Trap(OutOfStep) && MayNest()
    }

    /** A request to the slave begins; if SIGURG is served before its answer is read, its handler and this
        request get each other's bytes. A handler is not interrupted by its own signal. */
    method Inside(handler: bool) returns (o: Outcome)
      requires config.controlUseSsl
      ensures OnlyOutOfStep(o) && (o.Exit? ==> o.Traps()) && (handler ==> o.Go?)
    {
      var urgent: bool := *;
      if config.asyncAbor && dataFd != NO_FD && urgent && !handler {
        return Exit(Trap(OutOfStep));
      }
      return Go;
    }

    /** The client has been sent replies, the last with this code. */
    twostate predicate Told(code: nat)
      reads control
    {
      control.last == code && control.count > old(control.count)
    }

    twostate predicate ToldNothing()
      reads control
    {
      control.last == old(control.last) && control.count == old(control.count)
    }

    /** On steady connections, only a trap ends the session. */
    predicate Excused(o: Outcome)
      reads this
    {
      control.steady ==> o.Go? || o.Traps()
    }

    /** The same for a transfer, where the confirmation of an ABOR can come last. */
    twostate predicate ToldOr226(code: nat)
      reads control
    {
      Told(code) || (config.asyncAbor && Told(226))
    }

    /** ftp_write_str on the control connection. */
    method WriteControl(handler: bool) returns (o: Outcome)
      requires slave.Paired()
      modifies slave
      ensures SlaveKept() && OnlyOutOfStep(o) && (handler ==> !o.Traps()) && Excused(o)
      ensures !config.controlUseSsl ==> slave.served == old(slave.served)
    {
      if config.controlUseSsl {
        :- Inside(handler);
        var text: seq<Byte> := *;
        var reply := if |text| <= MAXSTR then text else text[..MAXSTR];
        TextFits(WRITE_USER_RESP, reply);
        var a := slave.Serve([Code(WRITE_USER_RESP), Text(reply)], QUIET);
      }
      var lost: bool := *;
      return if lost && !control.steady then Exit(ConnectionLost) else Go;
    }

    /** vsf_cmdio_write and its variants: a reply, or the end of the session. */
    method CmdWrite(code: nat) returns (o: Outcome)
      requires slave.Paired()
      modifies slave, control
      ensures SlaveKept() && OnlyOutOfStep(o) && Excused(o)
      ensures o.Go? ==> Told(code)
    {
      o := WriteControl(false);
      control.last, control.count := code, control.count + 1;
    }

    /** vsf_cmdio_get_cmd_and_arg, called by the command loop, when no data connection is open, and by the
        handler of SIGURG. */
    method GetCommand() returns (o: Outcome)
      requires slave.Paired()
      modifies slave
      ensures SlaveKept() && !o.Traps() && Excused(o)
      ensures !config.controlUseSsl ==> slave.served == old(slave.served)
    {
      if config.controlUseSsl {
        BareFits(GET_USER_CMD);
        var net: Net := *;
        var a := slave.Serve([Code(GET_USER_CMD)], net.(controlLost := net.controlLost && !control.steady));
        if a.Ended? {
          return Exit(a.reason);
        }
      }
      var lost: bool := *;
      return if lost && !control.steady then Exit(ConnectionLost) else Go;
    }

    /** handle_sigurg: with a data connection open, a command is read at once; ABOR is noted and shuts the
        connection down, anything else is refused. */
    method HandleSigurg(isAbor: bool) returns (o: Outcome)
      requires slave.Paired()
      modifies this`aborReceived, slave
      ensures SlaveKept() && !o.Traps() && Excused(o)
      ensures dataFd == NO_FD || !isAbor ==> aborReceived == old(aborReceived)
      ensures old(aborReceived) ==> aborReceived
      ensures o.Go? && dataFd != NO_FD && isAbor ==> aborReceived
      ensures slave.served != old(slave.served) ==> config.controlUseSsl && dataFd != NO_FD
    {
      if dataFd == NO_FD {
        return Go;
      }
      :- GetCommand();
      if isAbor {
        aborReceived := true;
        return Go;
      }
      o := WriteControl(true);
    }

    /** A place where pending signals are served, between requests: SIGURG, if it is watched for, with or
        without ABOR, or an alarm. A handler makes requests of the slave only where it may nest them. */
    method Interrupt(urgent: Option<bool>) returns (o: Outcome)
      requires slave.Paired() && AborPossible()
      modifies this`aborReceived, slave
      ensures SlaveKept() && !o.Traps() && Excused(o) && AborPossible() && (old(aborReceived) ==> aborReceived)
      ensures o.Go? && dataFd != NO_FD ==> aborReceived == (old(aborReceived) || (config.asyncAbor && urgent == Some(true)))
      ensures slave.served != old(slave.served) ==> MayNest()
    {
      var timedOut: bool := *;
      if config.asyncAbor && urgent.Some? {
        :- HandleSigurg(urgent.value);
      }
      return if timedOut && !control.steady then Exit(ConnectionLost) else Go;
    }

    // -------------------------------------------------------------- the data connection

    method InstallIoHandler() returns (o: Outcome)
      modifies this`ioHandler
      ensures o == if old(ioHandler) then Exit(Trap(DoubleRegister)) else Go
      ensures ioHandler
    {
      if ioHandler {
        return Exit(Trap(DoubleRegister));
      }
      ioHandler := true;
      return Go;
    }

    method UninstallIoHandler() returns (o: Outcome)
      modifies this`ioHandler
      ensures o == if old(ioHandler) then Go else Exit(Trap(NoHandler))
      ensures !ioHandler
    {
      if !ioHandler {
        return Exit(Trap(NoHandler));
      }
      ioHandler := false;
      return Go;
    }

    method InitDataSockParams(fd: nat) returns (o: Outcome)
      modifies this`dataFd, this`ioHandler
      ensures o == Exit(Trap(DescriptorPresent)) <==> old(dataFd) != NO_FD
      ensures o == Exit(Trap(DoubleRegister)) <==> old(dataFd) == NO_FD && old(ioHandler)
      ensures o.Go? <==> old(dataFd) == NO_FD && !old(ioHandler)
      ensures o.Go? ==> dataFd == fd && ioHandler
    {
      if dataFd != NO_FD {
        return Exit(Trap(DescriptorPresent));
      }
      dataFd := fd;
      o := InstallIoHandler();
    }

    twostate predicate ParentKept()
      reads parent
    {
      parent.pasvListenFd == old(parent.pasvListenFd) && parent.lost == old(parent.lost)
    }

    /** After an attempt to connect: the descriptor is in use, or there is none and the client knows. */
    twostate predicate AttemptDone(fd: int)
      reads this, slave, control
    {
      if fd >= 0 then DataBusy() && dataFd == fd && ToldNothing() else fd == -1 && DataIdle() && Told(425)
    }

    /** vsf_ftpdataio_get_pasv_fd */
    method GetPasvFd(w: World) returns (o: Outcome, fd: int)
      requires DataIdle()
      modifies this`dataFd, this`ioHandler, parent, slave, control
      ensures ParentKept() && SlaveKept() && !o.Traps() && Excused(o)
      ensures o.Go? ==> AttemptDone(fd) && (fd >= 0 ==> fd == AcceptFd(w, parent.pasvPromiscuous))
      ensures o.Go? ==> (fd >= 0 <==> AcceptFd(w, parent.pasvPromiscuous) >= 0)
    {
      fd := -1;
      o, fd := TwoProcess.GetPasvFd(parent, w);
      if fd == -1 {
        o := CmdWrite(425);
        return;
      } else if fd == -2 {
        o := CmdWrite(425);
        return o, -1;
      }
      o := InitDataSockParams(fd);
    }

    /** How an attempt to connect to the port of PORT ends, if it is not just unsuccessful. */
    function PortOutcome(w: World): Outcome
      reads this
      requires portSockaddr.Some?
    {
      if portSockaddr.value < FIRST_PORT then Exit(Trap(ReservedPort))
      else if BindsLocally(w) then Go else Exit(SystemFailure)
    }

    /** vsf_ftpdataio_get_port_fd: with port_promiscuous the child connects by itself. */
    method GetPortFd(w: World) returns (o: Outcome, fd: int)
      requires DataIdle() && portSockaddr.Some? && portSockaddr.value <= LAST_PORT
      modifies this`dataFd, this`ioHandler, parent, slave, control
      ensures ParentKept() && SlaveKept()
      ensures PortOutcome(w).Exit? ==> o == PortOutcome(w)
      ensures PortOutcome(w).Go? ==> !o.Traps() && Excused(o)
      ensures o.Go? ==> AttemptDone(fd) && fd == ConnectFd(w, portSockaddr.value)
    {
      if config.portPromiscuous {
        var ended;
        fd, ended := parent.GetFtpPortSock(portSockaddr.value, w);
        if ended.Some? {
          return Exit(ended.value), fd;
        }
      } else {
        o, fd := TwoProcess.GetPrivDataSock(parent, portSockaddr.value, w);
        if o.Exit? {
          return;
        }
      }
      if fd < 0 {
        o := CmdWrite(425);
        return o, -1;
      }
      o := InitDataSockParams(fd);
    }

    /** A handshake that ends the process does so, and on steady connections nothing else does but a trap. */
    predicate HandshakeDecides(env: Env, o: Outcome)
      reads this
    {
      if dataUseSsl && env.handshakeLost then o.Exit? else Excused(o)
    }

    /** vsf_ftpdataio_post_mark_connect */
    method PostMarkConnect(env: Env) returns (o: Outcome, ok: bool)
      requires DataBusy() && !dataSsl && !slave.dataSsl
      modifies this`dataSsl, slave, control
      ensures OnlyOutOfStep(o) && HandshakeDecides(env, o)
      ensures o.Go? ==> ok == (dataUseSsl ==> env.accepted)
      ensures o.Go? ==> if ok then Connected() && ToldNothing() else DataBusy() && Told(522)
    {
      ok := true;
      if !dataUseSsl {
        return Go, true;
      }
      if !config.controlUseSsl {
        o, ok := SslAccept(env);
      } else {
        var ready := Inside(false);
        if ready.Exit? {
          return ready, false;
        }
        DescriptorFits(dataFd);
        var a := slave.Serve([Code(DO_SSL_HANDSHAKE), Descriptor(dataFd)],
                             QUIET.(handshakeLost := env.handshakeLost, accepted := env.accepted));
        if a.Ended? {
          return Exit(a.reason), false;
        }
        o, ok := Go, a.items == [Code(RESULT_OK)];
      }
      if o.Go? && !ok {
        o := CmdWrite(522);
      }
    }

    /** ssl_accept in this process */
    method SslAccept(env: Env) returns (o: Outcome, ok: bool)
      modifies this`dataSsl
      ensures o == Exit(Trap(SslPresent)) <==> old(dataSsl)
      ensures o.Traps() ==> o.reason == Trap(SslPresent)
      ensures !old(dataSsl) ==> (o.Exit? <==> env.handshakeLost)
      ensures o.Go? ==> dataSsl == ok == env.accepted
    {
      if dataSsl {
        return Exit(Trap(SslPresent)), false;
      }
      if env.handshakeLost {
        return Exit(ConnectionLost), false;
      }
      ok := env.accepted;
      dataSsl := ok;
      return Go, ok;
    }

    /** vsf_ftpdataio_dispose_transfer_fd: whatever state the connection is in, all of it is gone. */
    method DisposeTransferFd(closed: bool) returns (o: Outcome, ok: bool)
      requires (DataBusy() || DataIdle()) && AborPossible()
      modifies this`dataFd, this`ioHandler, this`dataSsl, this`aborReceived, slave
      ensures o == Exit(Trap(NoDescriptor)) <==> old(DataIdle())
      ensures !old(DataIdle()) ==> OnlyOutOfStep(o)
      ensures o.Go? ==> DataIdle() && ok == (old(HasSsl()) ==> closed)
      ensures AborPossible() && (old(aborReceived) ==> aborReceived) && Excused(o)
    {
      ok := true;
      if dataFd == NO_FD {
        return Exit(Trap(NoDescriptor)), false;
      }
      var urgent: Option<bool> := *;
      :- Interrupt(urgent);
      :- UninstallIoHandler();
      if ViaSlave() {
        :- Inside(false);
        BareFits(DO_SSL_CLOSE);
        var a := slave.Serve([Code(DO_SSL_CLOSE)], QUIET.(clean := closed));
        ok := a.items == [Code(RESULT_OK)];
      } else if dataSsl {
        ok := closed;
        dataSsl := false;
      }
      dataFd := NO_FD;
      return Go, ok;
    }

    /** The data connection is to be encrypted, but there is no SSL object for it. */
    predicate NoSsl()
      reads this, slave
    {
      dataUseSsl && !HasSsl()
    }

    /** ftp_write_str and ftp_write_data on the data connection, which takes the text or does not. */
    method WriteData(text: seq<Byte>, taken: bool) returns (o: Outcome, ok: bool)
      requires slave.Paired()
      modifies slave
      ensures SlaveKept() && Excused(o)
      ensures o == Exit(Trap(TextTooBig)) <==> ViaSlave() && |text| > MAXSTR
      ensures o == Exit(Trap(NullSsl)) ==> NoSsl() && (ViaSlave() ==> |text| <= MAXSTR)
      ensures NoSsl() ==> o.Traps()
      ensures o.Traps() ==> o.reason.bug == TextTooBig || o.reason.bug == NullSsl || OnlyOutOfStep(o)
      ensures o.Go? ==> ok == taken
    {
      ok := taken;
      if ViaSlave() {
        if |text| > MAXSTR {
          return Exit(Trap(TextTooBig)), false;
        }
        :- Inside(false);
        TextFits(DO_SSL_WRITE, text);
        var a := slave.Serve([Code(DO_SSL_WRITE), Text(text)], QUIET.(written := if taken then |text| else -1));
        if a.Ended? {
          return Exit(a.reason), false;
        }
        ok := a.items == [Number(|text|)];
      } else if dataUseSsl && !dataSsl {
        return Exit(Trap(NullSsl)), false;
      }
      var lost: bool := *;
      return if lost && !control.steady then Exit(ConnectionLost) else Go, ok;
    }

    /** ftp_read_data with a buffer of `len` bytes, when so many have arrived, or -1. The slave sends what
        it has read whatever the buffer of its client is. */
    method ReadData(len: nat, arrives: int) returns (o: Outcome, n: int)
      requires slave.Paired() && len > 0
      modifies slave
      ensures SlaveKept() && Excused(o)
      ensures o == Exit(Trap(NullSsl)) ==> NoSsl()
      ensures NoSsl() ==> o.Traps()
      ensures o == Exit(Trap(RecvTooBig)) ==> ViaSlave() && len < arrives && len < DATA_BUFSIZE
      ensures ViaSlave() && len < DATA_BUFSIZE && len < arrives ==> !o.Go?
      ensures o.Traps() ==> o.reason.bug == NullSsl || o.reason.bug == RecvTooBig || OnlyOutOfStep(o)
      ensures o.Go? ==> n <= len && (n < 0 <==> arrives < 0) && (n == 0 <==> arrives == 0)
      ensures o.Go? && 0 <= arrives <= len && arrives <= DATA_BUFSIZE ==> n == arrives
    {
      n := 0;
      if ViaSlave() {
        :- Inside(false);
        BareFits(DO_SSL_READ);
        var read := if arrives < 0 then None else Some(seq(arrives, _ => 0));
        var a := slave.Serve([Code(DO_SSL_READ)], QUIET.(read := read));
        if a.Ended? {
          return Exit(a.reason), 0;
        }
        if |a.items[1].s| > len {
          return Exit(Trap(RecvTooBig)), 0;
        }
        n := a.items[0].n;
      } else if dataUseSsl && !dataSsl {
        return Exit(Trap(NullSsl)), 0;
      } else {
        n := if arrives > len then len else arrives;
      }
      var lost: bool := *;
      return if lost && !control.steady then Exit(ConnectionLost) else Go, n;
    }

    /** The slave gets hold of more than the buffer of its client can take. */
    predicate OverflowsIf(ssl: bool, events: seq<RecvEvent>) {
      && ssl && config.controlUseSsl
      && ChunkSize(config.transChunkSize) < DATA_BUFSIZE && Floods(events, ChunkSize(config.transChunkSize))
    }

    predicate Overflows(events: seq<RecvEvent>)
      reads this
    {
      OverflowsIf(dataUseSsl, events)
    }

    /** do_file_recv, as far as the connection goes: reads until one brings nothing or fails, or the file
        cannot be written. If the events run out, the connection has stalled and times out. */
    method FileRecv(events: seq<RecvEvent>) returns (o: Outcome, retval: int)
      requires Connected() && AborPossible()
      modifies this`aborReceived, slave
      ensures SlaveKept() && AborPossible()
      ensures o.Traps() ==> (o.reason.bug == RecvTooBig && Overflows(events)) || OnlyOutOfStep(o)
      ensures o.Go? ==> RecvResult(events) == Some(retval) && !Overflows(events)
      ensures RecvResult(events).Some? ==> Excused(o)
      ensures o.Go? ==> aborReceived == (old(aborReceived) || (config.asyncAbor && AborBeforeEnd(events)))
    {
      retval := -2;
      assert events[0..] == events;
      for i := 0 to |events|
        invariant SlaveKept() && Connected() && AborPossible()
        invariant RecvResult(events) == RecvResult(events[i..]) && Overflows(events) == Overflows(events[i..])
        invariant old(aborReceived) || (config.asyncAbor && AborBeforeEnd(events)) <==>
                  aborReceived || (config.asyncAbor && AborBeforeEnd(events[i..]))
      {
        var e := events[i];
        assert events[i..][0] == e && events[i..][1..] == events[i + 1..];
        var n: int :- ReadData(ChunkSize(config.transChunkSize), e.arrives);
        :- Interrupt(e.urgent);
        if n <= 0 {
          return Go, if n == 0 then 0 else -2;
        }
        if !e.stored {
          return Go, -1;
        }
      }
      return Exit(ConnectionLost), -2;
    }

    /** do_file_send_rwloop and transfer_dir_internal: writes of at most twice a buffer each, until the end
        of the file or a failure. */
    method FileSend(events: seq<SendEvent>) returns (o: Outcome, retval: int)
      requires Connected() && AborPossible()
      modifies this`aborReceived, slave
      ensures SlaveKept() && OnlyOutOfStep(o) && AborPossible()
      ensures o.Go? ==> SendResult(events) == Some(retval)
      ensures SendResult(events).Some? ==> Excused(o)
    {
      retval := -2;
      assert events[0..] == events;
      for i := 0 to |events|
        invariant SlaveKept() && Connected() && AborPossible()
        invariant SendResult(events) == SendResult(events[i..])
      {
        var e := events[i];
        assert events[i..][0] == e && events[i..][1..] == events[i + 1..];
        if e.piece.None? {
          return Go, -1;
        }
        var piece := e.piece.value;
        if piece == [] {
          return Go, 0;
        }
        var ok: bool :- WriteData(if |piece| <= 2 * DATA_BUFSIZE then piece else piece[..2 * DATA_BUFSIZE], e.taken);
        :- Interrupt(e.urgent);
        if !ok {
          return Go, -2;
        }
      }
      return Exit(ConnectionLost), -2;
    }

    // -------------------------------------------------------------- PORT and PASV

    method PortActive(w: World) returns (o: Outcome, active: bool)
      requires !(portSockaddr.Some? && Listening())
      modifies parent
      ensures ParentKept()
      ensures o.Go? && active == portSockaddr.Some?
      decreases if portSockaddr.Some? then 1 else 0
    {
      active := false;
      if portSockaddr.Some? {
        active := true;
        var pasv :- PasvActive(w);
        if pasv {
          return Exit(Trap(BothActive)), active;
        }
      }
      return Go, active;
    }

    method PasvActive(w: World) returns (o: Outcome, active: bool)
      requires !(portSockaddr.Some? && Listening())
      modifies parent
      ensures ParentKept()
      ensures o.Go? && active == Listening()
      decreases if Listening() then 1 else 0
    {
      o, active := TwoProcess.PasvActive(parent, w);
      if active {
        var port :- PortActive(w);
        if port {
          return Exit(Trap(BothActive)), active;
        }
      }
    }

    twostate predicate EndpointsKept()
      reads this, parent
    {
      portSockaddr == old(portSockaddr) && ParentKept()
    }

    /** A transfer may begin: there is an endpoint, and encryption where it is forced. */
    predicate ChecksPass()
      reads this, parent
    {
      SomeActive() && !(config.sslEnable && config.forceDataSsl && !dataUseSsl)
    }

    /** What the client is told otherwise. */
    function ChecksReply(): nat
      reads this, parent
    {
      if SomeActive() then 522 else 425
    }

    /** data_transfer_checks_ok */
    method DataTransferChecksOk(w: World) returns (o: Outcome, ok: bool)
      requires dataFd == NO_FD && slave.Paired() && Endpoints()
      modifies parent, slave, control
      ensures EndpointsKept() && SlaveKept() && !o.Traps() && Excused(o)
      ensures o.Go? ==> ok == ChecksPass()
      ensures o.Go? ==> if ok then ToldNothing() else Told(ChecksReply())
    {
      ok := false;
      var pasv :- PasvActive(w);
      var port :- PortActive(w);
      if !pasv && !port {
        o := CmdWrite(425);
        return;
      }
      if config.sslEnable && config.forceDataSsl && !dataUseSsl {
        o := CmdWrite(522);
        return;
      }
      return Go, true;
    }

    predicate PortReserved()
      reads this
    {
      portSockaddr.Some? && portSockaddr.value < FIRST_PORT
    }

    /** The network lets a data connection come about, before SSL. */
    predicate Reaches(w: World)
      reads this, parent
    {
      Reached(portSockaddr, parent.pasvPromiscuous, w)
    }

    /** A data connection comes about, with SSL where it is wanted. */
    predicate Connects(env: Env)
      reads this, parent
    {
      ConnectsIf(portSockaddr, parent.pasvPromiscuous, dataUseSsl, env)
    }

    /** A system call or the handshake fails where the program insists on success. */
    predicate BreaksIf(port: Option<nat>, ssl: bool, env: Env) {
      || (port.Some? && !BindsLocally(env.world))
      || (Reached(port, parent.pasvPromiscuous, env.world) && ssl && env.handshakeLost)
    }

    predicate Breaks(env: Env)
      reads this
    {
      BreaksIf(portSockaddr, dataUseSsl, env)
    }

    /** get_remote_transfer_fd: a usable connection, or no trace of one. */
    method GetRemoteTransferFd(env: Env) returns (o: Outcome, fd: int)
      requires DataIdle() && Endpoints()
      modifies this`dataFd, this`ioHandler, this`dataSsl, this`attempts, this`aborReceived, parent, slave, control
      ensures EndpointsKept() && attempts == old(attempts) + 1
      ensures o.Go? ==> AborPossible() && (fd >= 0 <==> Connects(env))
      ensures o.Go? ==> if fd < 0 then DataIdle() && Told(if Reaches(env.world) then 522 else 425) else Connected() && Told(150)
      ensures o == Exit(Trap(NeitherActive)) <==> !SomeActive()
      ensures o == Exit(Trap(ReservedPort)) <==> PortReserved()
      ensures o.Traps() ==> !SomeActive() || PortReserved() || o.reason == Trap(OutOfStep)
      ensures if Breaks(env) then o.Exit? else Excused(o)
      ensures o == Exit(Trap(OutOfStep)) ==> config.asyncAbor && config.controlUseSsl
    {
      fd, attempts := -1, attempts + 1;
      var pasv :- PasvActive(env.world);
      var port :- PortActive(env.world);
      if !pasv && !port {
        return Exit(Trap(NeitherActive)), -1;
      }
      aborReceived := false;
      o, fd := Connect(env.world);
      if o.Exit? || fd < 0 {
        return;
      }
      var ok :- Secure(env);
      return Go, if ok then fd else -1;
    }

    /** The preliminary reply and the handshake; a connection whose handshake fails is given up. */
    method Secure(env: Env) returns (o: Outcome, ok: bool)
      requires DataBusy() && !dataSsl && !slave.dataSsl && AborPossible()
      modifies this`dataFd, this`ioHandler, this`dataSsl, this`aborReceived, slave, control
      ensures OnlyOutOfStep(o) && HandshakeDecides(env, o)
      ensures o.Go? ==> AborPossible() && ok == (dataUseSsl ==> env.accepted)
      ensures o.Go? ==> if ok then Connected() && dataFd == old(dataFd) && Told(150) else DataIdle() && Told(522)
    {
      ok := false;
      :- Mark();
      ok :- PostMarkConnect(env);
      if !ok {
        var _ :- DisposeTransferFd(env.closed);
      }
      return Go, ok;
    }

    /** The preliminary reply; signals are served now that the connection is open. */
    method Mark() returns (o: Outcome)
      requires slave.Paired() && AborPossible()
      modifies this`aborReceived, slave, control
      ensures SlaveKept() && OnlyOutOfStep(o) && AborPossible() && Excused(o)
      ensures o.Go? ==> Told(150)
    {
      var urgent: Option<bool> := *;
      :- CmdWrite(150);
      o := Interrupt(urgent);
    }

    method Connect(w: World) returns (o: Outcome, fd: int)
      requires DataIdle() && Endpoints() && SomeActive()
      modifies this`dataFd, this`ioHandler, parent, slave, control
      ensures EndpointsKept() && SlaveKept()
      ensures o.Go? ==> AttemptDone(fd) && (fd >= 0 <==> Reaches(w))
      ensures o.Traps() <==> PortReserved()
      ensures o.Traps() ==> o.reason == Trap(ReservedPort)
      ensures if portSockaddr.Some? && !BindsLocally(w) then o.Exit? else Excused(o)
    {
      fd := -1;
      var pasv :- PasvActive(w);
      if pasv {
        o, fd := GetPasvFd(w);
      } else {
        o, fd := GetPortFd(w);
      }
    }

    // -------------------------------------------------------------- commands that set up a connection

    method PasvCleanup() returns (o: Outcome)
      modifies parent
      ensures o.Go? && !Listening() && parent.lost == old(parent.lost)
    {
      var w: World := *;
      o := TwoProcess.PasvCleanup(parent, w);
    }

    method PortCleanup()
      modifies this`portSockaddr
      ensures portSockaddr.None?
    {
      portSockaddr := None;
    }

    /** What the client is told in answer to PASV or EPSV. */
    function PasvReply(isEpsv: bool, arg: EpsvArg, isIpv6: bool): nat {
      if isEpsv && arg.All? then 200
      else if !AsksToListen(isEpsv, arg, isIpv6) then 522
      else if isEpsv then 229 else 227
    }

    /** There is no port to listen on, or no address to tell. */
    ghost predicate PasvFails(isEpsv: bool, arg: EpsvArg, isIpv6: bool, w: World) {
      AsksToListen(isEpsv, arg, isIpv6) && (parent.NoPort(w) || (!isEpsv && config.badPasvAddress))
    }

    /** handle_pasv for PASV and EPSV: when it goes well the parent listens on the port that the client is
        told, and an earlier PORT is forgotten. */
    method HandlePasv(isEpsv: bool, arg: EpsvArg, isIpv6: bool, w: World) returns (o: Outcome, told: Option<int>)
      requires Boundary()
      modifies this`portSockaddr, this`epsvAll, parent, slave, control
      ensures (o.Go? ==> Boundary() && Told(PasvReply(isEpsv, arg, isIpv6))) && !o.Traps()
      ensures if PasvFails(isEpsv, arg, isIpv6, w) then o.Exit? else Excused(o)
      ensures epsvAll == (old(epsvAll) || (isEpsv && arg.All?))
      ensures told.Some? ==> Listening() && portSockaddr.None? && parent.ListensOn(w, told.value)
      ensures o.Go? ==> (told.Some? <==> AsksToListen(isEpsv, arg, isIpv6))
      ensures told.None? && o.Go? ==> EndpointsKept()
    {
      hide Balanced;
      told := None;
      if isEpsv && !arg.NoArg? {
        if arg.All? {
          epsvAll := true;
          o := CmdWrite(200);
          return;
        }
        if arg.n < 1 || arg.n > 2 || (!isIpv6 && arg.n == 2) {
          o := CmdWrite(522);
          return;
        }
      }
      :- PasvCleanup();
      PortCleanup();
      var thePort :- TwoProcess.PasvListen(parent, w);
      if isEpsv {
        told := Some(thePort);
        o := CmdWrite(229);
        return;
      }
      if config.badPasvAddress {
        return Exit(SystemFailure), None;
      }
      told := Some(thePort);
      o := CmdWrite(227);
    }

    /** handle_port: six numbers or nothing. */
    method HandlePort(vals: Option<PortArg>, sameAddress: bool) returns (o: Outcome)
      requires Boundary()
      modifies this`portSockaddr, parent, slave, control
      ensures (o.Go? ==> Boundary() && !Listening()) && !o.Traps() && Excused(o)
      ensures o.Go? ==> portSockaddr == Offered(Port(vals, sameAddress))
      ensures o.Go? ==> Told(if portSockaddr.Some? then 200 else 500)
    {
      hide Balanced;
      :- PasvCleanup();
      PortCleanup();
      if vals.None? {
        o := CmdWrite(500);
        return;
      }
      o := SetPort(vals.value.Number(), sameAddress);
    }

    /** Connecting to another host than the client's, or to a reserved port, is refused unless
        port_promiscuous is set. */
    function Admit(port: int, sameAddress: bool): Option<nat> {
      if 0 <= port <= LAST_PORT && (config.portPromiscuous || (sameAddress && port >= FIRST_PORT)) then Some(port) else None
    }

    /** The port that PORT or EPRT leaves set. */
    function Offered(c: Command): Option<nat>
      requires c.Port? || c.Eprt?
    {
      match c
      case Port(vals, same) => if vals.Some? then Admit(vals.value.Number(), same) else None
      case Eprt(arg, same) => if arg.Address? then Admit(arg.port, same) else None
    }

    method SetPort(port: nat, sameAddress: bool) returns (o: Outcome)
      requires Boundary() && !Listening() && port <= LAST_PORT
      modifies this`portSockaddr, slave, control
      ensures (o.Go? ==> Boundary()) && !o.Traps() && Excused(o)
      ensures o.Go? ==> portSockaddr == Admit(port, sameAddress) && Told(if portSockaddr.Some? then 200 else 500)
    {
      hide Balanced;
      portSockaddr := Some(port);
      if !config.portPromiscuous {
        if !sameAddress || port < FIRST_PORT {
          o := CmdWrite(500);
          PortCleanup();
          return;
        }
      }
      o := CmdWrite(200);
    }

    /** handle_eprt; unlike PORT and PASV it is not refused after EPSV ALL. */
    method HandleEprt(arg: EprtArg, sameAddress: bool) returns (o: Outcome)
      requires Boundary()
      modifies this`portSockaddr, parent, slave, control
      ensures (o.Go? ==> Boundary() && !Listening()) && !o.Traps() && Excused(o)
      ensures o.Go? ==> portSockaddr == Offered(Eprt(arg, sameAddress))
      ensures o.Go? ==> Told(if portSockaddr.Some? then 200 else 500)
    {
      hide Balanced;
      PortCleanup();
      :- PasvCleanup();
      if !arg.Address? || arg.port < 0 || arg.port > LAST_PORT {
        o := CmdWrite(500);
        return;
      }
      o := SetPort(arg.port, sameAddress);
    }

    // -------------------------------------------------------------- commands that transfer

    /** The traps that a transfer can end in. */
    predicate TrapIf(b: Bug, recv: bool, port: Option<nat>, ssl: bool, env: Env) {
      || (b == ReservedPort && port.Some? && port.value < FIRST_PORT)
      || (b == OutOfStep && config.asyncAbor && config.controlUseSsl)
      || (b == RecvTooBig && recv && ConnectsIf(port, parent.pasvPromiscuous, ssl, env) && OverflowsIf(ssl, env.recv))
    }

    /** A transfer cannot be survived: two of the traps, a failure before it, or data that never ends. */
    predicate FatalIf(recv: bool, port: Option<nat>, ssl: bool, env: Env) {
      || TrapIf(ReservedPort, recv, port, ssl, env) || TrapIf(RecvTooBig, recv, port, ssl, env)
      || BreaksIf(port, ssl, env)
      || (ConnectsIf(port, parent.pasvPromiscuous, ssl, env) && Final(recv, env, ssl).None?)
    }

    predicate TransferTrap(b: Bug, recv: bool, env: Env)
      reads this
    {
      TrapIf(b, recv, portSockaddr, dataUseSsl, env)
    }

    predicate TransferFatal(recv: bool, env: Env)
      reads this
    {
      FatalIf(recv, portSockaddr, dataUseSsl, env)
    }

    /** They come from three settings. */
    predicate SettingTrap(b: Bug) {
      || (b == ReservedPort && config.portPromiscuous)
      || (b == OutOfStep && config.asyncAbor && config.controlUseSsl)
      || (b == RecvTooBig && config.controlUseSsl && ChunkSize(config.transChunkSize) < DATA_BUFSIZE)
    }

    /** A PORT or PASV is spent by the first connection it is used for, and kept until then. */
    twostate predicate SpentOrKept(attempted: bool)
      reads this, parent
    {
      if attempted then attempts == old(attempts) + 1 && old(SomeActive()) && !SomeActive()
      else attempts == old(attempts) && EndpointsKept()
    }

    /** The log reports as many successful transfers as the client was told are complete, and besides
        them exactly the uploads that were cut by an ABOR. */
    twostate predicate Tally()
      reads this, log
    {
      && Successes(log.history) - Successes(old(log.history)) == (completes - old(completes)) + (cut - old(cut))
      && cut >= old(cut) && (!config.asyncAbor ==> cut == old(cut))
    }

    /** Transfer over the open connection, and close it. */
    method Move(recv: bool, env: Env) returns (o: Outcome, retval: int)
      requires Connected() && AborPossible()
      modifies this`dataFd, this`ioHandler, this`dataSsl, this`aborReceived, slave
      ensures o.Go? ==> DataIdle() && AborPossible() && Final(recv, env, dataUseSsl) == Some(retval)
      ensures o.Go? && recv && config.asyncAbor && AborBeforeEnd(env.recv) ==> aborReceived
      ensures o.Traps() ==> (o.reason.bug == OutOfStep && config.asyncAbor && config.controlUseSsl) ||
                            (o.reason.bug == RecvTooBig && recv && Overflows(env.recv))
      ensures o.Go? ==> !(recv && Overflows(env.recv))
      ensures Final(recv, env, dataUseSsl).Some? ==> Excused(o)
    {
      hide RecvResult, SendResult, AborBeforeEnd, OverflowsIf;
      retval := -1;
      if recv {
        retval :- FileRecv(env.recv);
      } else {
        retval :- FileSend(env.send);
      }
      var closed: bool :- DisposeTransferFd(env.closed);
      if !closed && retval == 0 {
        retval := -2;
      }
      return Go, retval;
    }

    /** Connect, transfer, close: the common part of downloads, uploads and listings. */
    method Transfer(recv: bool, env: Env) returns (o: Outcome, connected: bool, retval: int)
      requires DataIdle() && Endpoints() && SomeActive()
      modifies this`dataFd, this`ioHandler, this`dataSsl, this`attempts, this`aborReceived, parent, slave, control
      ensures EndpointsKept()
      ensures o.Go? ==> DataIdle() && attempts == old(attempts) + 1 && AborPossible()
      ensures o.Go? ==> connected == Connects(env)
      ensures o.Go? ==> Told(if connected then 150 else if Reaches(env.world) then 522 else 425)
      ensures o.Go? && connected ==> Final(recv, env, dataUseSsl) == Some(retval)
      ensures o.Go? && connected && recv && config.asyncAbor && AborBeforeEnd(env.recv) ==> aborReceived
      ensures o.Traps() ==> TransferTrap(o.reason.bug, recv, env)
      ensures if TransferFatal(recv, env) then o.Exit? else Excused(o)
    {
      hide Final, AborBeforeEnd, OverflowsIf, BreaksIf, ConnectsIf, Reached;
      connected, retval := false, -1;
      var fd: int :- GetRemoteTransferFd(env);
      if fd < 0 {
        return Go, false, -1;
      }
      connected := true;
      retval :- Move(recv, env);
      return Go, true, retval;
    }

    method Cleanup() returns (o: Outcome)
      requires Settled()
      modifies this`portSockaddr, parent
      ensures o.Go? && Settled() && !SomeActive()
    {
      hide Balanced;
      PortCleanup();
      o := PasvCleanup();
    }

    function FileKind(recv: bool): Logging.Kind {
      if recv then Upload else Download
    }

    /** What is logged and what the client is told at the end of a transfer. Success is logged exactly if
        there was no error (failure is logged at the end of the command); the client is told so exactly
        if, for an upload, no ABOR came in the meantime either. An ABOR is confirmed last. */
    method Report(recv: bool, retval: int) returns (o: Outcome)
      requires dataFd == NO_FD && slave.Paired() && AborPossible() && log.Valid() && log.logType == Some(FileKind(recv))
      modifies this`aborReceived, this`completes, this`cut, slave, control, log
      ensures SlaveKept() && !o.Traps() && log.Valid() && AborPossible() && Excused(o)
      ensures log.history == if retval == 0 then old(log.history) + [Written(Some(FileKind(recv)), true)] else old(log.history)
      ensures log.logType == if retval == 0 then None else old(log.logType)
      ensures o.Go? ==> completes == old(completes) + if retval == 0 && !(recv && old(aborReceived)) then 1 else 0
      ensures o.Go? ==> cut == old(cut) + if retval == 0 && recv && old(aborReceived) then 1 else 0
      ensures o.Go? ==> Told(if old(aborReceived) then 226 else ResultReply(retval, false))
      ensures o.Go? ==> !aborReceived && Tally()
    {
      hide Balanced, Successes;
      if retval == 0 {
        log.DoLog(true);
      }
      :- CmdWrite(ResultReply(retval, recv && aborReceived));
      if retval == 0 && recv && aborReceived {
        cut := cut + 1;
      } else if retval == 0 {
        completes := completes + 1;
      }
      o := CheckAbor();
    }

    /** check_abor */
    method CheckAbor() returns (o: Outcome)
      requires dataFd == NO_FD && slave.Paired()
      modifies this`aborReceived, slave, control
      ensures SlaveKept() && !o.Traps() && !aborReceived && Excused(o)
      ensures o.Go? ==> if old(aborReceived) then Told(226) else ToldNothing()
    {
      if aborReceived {
        aborReceived := false;
        o := CmdWrite(226);
        return;
      }
      return Go;
    }

    /** The transfer of a file succeeds. */
    predicate Succeeds(recv: bool, env: Env)
      reads this, parent
    {
      SucceedsIf(recv, portSockaddr, parent.pasvPromiscuous, dataUseSsl, env)
    }

    /** What the client is told last about the transfer of a file, without ABOR. */
    function TransferReply(recv: bool, env: Env): nat
      reads this, parent
    {
      ReplyIf(recv, portSockaddr, parent.pasvPromiscuous, dataUseSsl, env)
    }

    /** From the connection to the cleanup: the open entry is closed exactly on success, and PORT and PASV
        are spent. */
    method Deliver(recv: bool, env: Env) returns (o: Outcome)
      requires Settled() && SomeActive() && log.logType == Some(FileKind(recv))
      modifies this`portSockaddr, this`dataFd, this`ioHandler, this`dataSsl, this`attempts, this`aborReceived, this`completes, this`cut, parent, slave, control, log
      ensures o.Go? ==> Settled() && attempts == old(attempts) + 1 && !SomeActive()
      ensures o.Traps() ==> old(TransferTrap(o.reason.bug, recv, env))
      ensures if old(TransferFatal(recv, env)) then o.Exit? else Excused(o)
      ensures o.Go? ==> Closed(recv, old(Succeeds(recv, env))) && Tally()
      ensures o.Go? ==> ToldOr226(old(TransferReply(recv, env)))
      ensures o.Go? && recv && config.asyncAbor && AborBeforeEnd(env.recv) && old(Succeeds(recv, env)) ==> cut == old(cut) + 1
    {
      hide Balanced, Successes, Final, AborBeforeEnd, TrapIf, FatalIf;
      var connected, retval :- Transfer(recv, env);
      if connected {
        :- Report(recv, retval);
      }
      o := Cleanup();
    }

    /** The open entry of a transfer has been written as a success, or is still open. */
    twostate predicate Closed(recv: bool, success: bool)
      reads log
    {
      if success then log.logType.None? && log.history == old(log.history) + [Written(Some(FileKind(recv)), true)]
      else log.logType == Some(FileKind(recv)) && log.history == old(log.history)
    }

    /** The checks on the file to be sent: it opens, is a regular file, and may be read. */
    method OpenForDownload(f: FileState) returns (o: Outcome, ready: bool)
      requires dataFd == NO_FD && slave.Paired() && log.Valid() && log.logType == Some(Download)
      modifies slave, control, log
      ensures SlaveKept() && !o.Traps() && log.Valid() && Excused(o)
      ensures o.Go? ==> ready == FileOk(f) && if ready then ToldNothing() else Told(550)
      ensures o.Go? ==>
                if f.openable && !f.regular && f.directory
                then log.logType.None? && log.history == old(log.history) + [Dropped(Some(Download))]
                else log.logType == Some(Download) && log.history == old(log.history)
      ensures Successes(log.history) == Successes(old(log.history))
    {
      hide Balanced, Successes;
      ready := false;
      if !f.openable {
        o := CmdWrite(550);
        return;
      }
      if !f.regular {
        :- CmdWrite(550);
        if f.directory {
          log.ClearEntry();
        }
        return Go, false;
      }
      if !f.readable {
        o := CmdWrite(550);
        return;
      }
      return Go, true;
    }

    /** A download can begin: the checks pass, and it is not the rest of an ASCII file. */
    predicate RetrBegins()
      reads this, parent
    {
      ChecksPass() && !(isAscii && restartPos != 0)
    }

    /** How the entry of a download is closed. A directory is not worth one. */
    function FileEntry(f: FileState, success: bool): Event {
      if f.openable && !f.regular && f.directory then Dropped(Some(Download))
      else Written(Some(Download), FileOk(f) && success)
    }

    /** The entry that a download makes. */
    function RetrEntry(env: Env): Option<Event>
      reads this, parent
    {
      if RetrBegins() then Some(FileEntry(env.file, Succeeds(false, env))) else None
    }

    function RetrReply(env: Env): nat
      reads this, parent
    {
      if !ChecksPass() then ChecksReply()
      else if !RetrBegins() || !FileOk(env.file) then 550
      else TransferReply(false, env)
    }

    /** The entry is made as told; a failure may still be left open. */
    twostate predicate Logged(e: Option<Event>)
      requires e.Some? ==> !e.value.Started? && e.value.what.Some?
      reads log
    {
      match e
      case None => log.logType.None? && log.history == old(log.history)
      case Some(ev) =>
        var k := ev.what.value;
        || (log.logType.None? && log.history == old(log.history) + [Started(k)] + [ev])
        || (ev == Written(Some(k), false) && log.logType == Some(k) && log.history == old(log.history) + [Started(k)])
    }

    /** handle_retr */
    method HandleRetr(env: Env) returns (o: Outcome)
      requires Boundary()
      modifies this`portSockaddr, this`dataFd, this`ioHandler, this`dataSsl, this`restartPos, this`attempts, this`aborReceived, this`completes, this`cut, parent, slave, control, log
      ensures o.Go? ==> Settled() && restartPos == 0 && SpentOrKept(old(RetrBegins()) && FileOk(env.file))
      ensures o.Traps() ==> old(RetrBegins()) && FileOk(env.file) && old(TransferTrap(o.reason.bug, false, env))
      ensures if old(RetrBegins()) && FileOk(env.file) && old(TransferFatal(false, env)) then o.Exit? else Excused(o)
      ensures o.Go? ==> Logged(old(RetrEntry(env))) && Tally()
      ensures o.Go? ==> ToldOr226(old(RetrReply(env)))
    {
      hide Balanced, Successes, SucceedsIf, ReplyIf, TrapIf, FatalIf;
      var offset := restartPos;
      restartPos := 0;
      var ok :- DataTransferChecksOk(env.world);
      if !ok {
        return Go;
      }
      if isAscii && offset != 0 {
        o := CmdWrite(550);
        return;
      }
      o := RetrFile(env);
    }

    /** A download that has begun. */
    method RetrFile(env: Env) returns (o: Outcome)
      requires Boundary() && ChecksPass()
      modifies this`portSockaddr, this`dataFd, this`ioHandler, this`dataSsl, this`attempts, this`aborReceived, this`completes, this`cut, parent, slave, control, log
      ensures o.Go? ==> Settled() && SpentOrKept(FileOk(env.file))
      ensures o.Traps() ==> FileOk(env.file) && old(TransferTrap(o.reason.bug, false, env))
      ensures if FileOk(env.file) && old(TransferFatal(false, env)) then o.Exit? else Excused(o)
      ensures o.Go? ==> Logged(Some(FileEntry(env.file, old(Succeeds(false, env))))) && Tally()
      ensures o.Go? ==> ToldOr226(if FileOk(env.file) then old(TransferReply(false, env)) else 550)
    {
      hide Balanced, Successes, SucceedsIf, ReplyIf, TrapIf, FatalIf;
      :- log.StartEntry(Download);
      var ready :- OpenForDownload(env.file);
      if !ready {
        return Go;
      }
      o := Deliver(false, env);
    }

    function StoreEntry(env: Env): Option<Event>
      reads this, parent
    {
      if !ChecksPass() then None else Some(Written(Some(Upload), env.allowed && env.created && Succeeds(true, env)))
    }

    function StoreReply(env: Env): nat
      reads this, parent
    {
      if !ChecksPass() then ChecksReply()
      else if !env.allowed then 550
      else if !env.created then 553
      else TransferReply(true, env)
    }

    /** The file of an anonymous upload is to change its owner, and cannot. */
    predicate ChownFails(env: Env) {
      config.isAnonymous && parent.chownUploads && !env.world.chown
    }

    /** handle_upload_common for STOR, APPE and STOU */
    method HandleUpload(env: Env) returns (o: Outcome)
      requires Boundary()
      modifies this`portSockaddr, this`dataFd, this`ioHandler, this`dataSsl, this`restartPos, this`attempts, this`aborReceived, this`completes, this`cut, parent, slave, control, log
      ensures o.Go? ==> Settled() && restartPos == 0 && SpentOrKept(old(ChecksPass()) && env.allowed && env.created)
      ensures o.Traps() ==> old(ChecksPass()) && env.allowed && env.created && old(TransferTrap(o.reason.bug, true, env))
      ensures if old(ChecksPass()) && env.allowed && env.created && (ChownFails(env) || old(TransferFatal(true, env))) then o.Exit? else Excused(o)
      ensures o.Go? ==> Logged(old(StoreEntry(env))) && Tally()
      ensures o.Go? ==> ToldOr226(old(StoreReply(env)))
    {
      hide Balanced, Successes, SucceedsIf, ReplyIf, TrapIf, FatalIf;
      restartPos := 0;
      var ok :- DataTransferChecksOk(env.world);
      if !ok {
        return Go;
      }
      o := StoreFile(env);
    }

    /** An upload that has begun. */
    method StoreFile(env: Env) returns (o: Outcome)
      requires Boundary() && ChecksPass()
      modifies this`portSockaddr, this`dataFd, this`ioHandler, this`dataSsl, this`attempts, this`aborReceived, this`completes, this`cut, parent, slave, control, log
      ensures o.Go? ==> Settled() && SpentOrKept(env.allowed && env.created)
      ensures o.Traps() ==> env.allowed && env.created && old(TransferTrap(o.reason.bug, true, env))
      ensures if env.allowed && env.created && (ChownFails(env) || old(TransferFatal(true, env))) then o.Exit? else Excused(o)
      ensures o.Go? ==> Logged(Some(Written(Some(Upload), env.allowed && env.created && old(Succeeds(true, env))))) && Tally()
      ensures o.Go? ==>
                ToldOr226(if !env.allowed then 550 else if !env.created then 553 else old(TransferReply(true, env)))
    {
      hide Balanced, Successes, SucceedsIf, ReplyIf, TrapIf, FatalIf;
      :- log.StartEntry(Upload);
      if !env.allowed {
        o := CmdWrite(550);
        return;
      }
      if !env.created {
        o := CmdWrite(553);
        return;
      }
      if config.isAnonymous && parent.chownUploads {
        var fd: int := *;
        :- TwoProcess.ChownUpload(parent, fd, env.world);
      }
      o := Deliver(true, env);
    }

    predicate Listable(env: Env) {
      env.file.openable && env.file.readable
    }

    /** What is sent of a directory that cannot be read: nothing. */
    function Listed(env: Env): Env {
      if Listable(env) then env else env.(send := [SendEvent(Some([]), None, true)])
    }

    function DirReply(stat: bool, env: Env): nat
      reads this, parent
    {
      if !stat && !ChecksPass() then ChecksReply()
      else if !env.allowed then 550
      else if stat then 213
      else if !Connects(env) then TransferReply(false, env)
      else if Listable(env) && Final(false, env, dataUseSsl) != Some(0) then 426
      else 226
    }

    /** handle_dir_common for LIST and NLST, and for STAT of a file, which uses the control connection. */
    method HandleDir(stat: bool, env: Env) returns (o: Outcome)
      requires Boundary()
      modifies this`portSockaddr, this`dataFd, this`ioHandler, this`dataSsl, this`attempts, this`aborReceived, parent, slave, control
      ensures o.Go? ==> Boundary() && SpentOrKept(!stat && old(ChecksPass()) && env.allowed)
      ensures o.Traps() ==> !stat && old(ChecksPass()) && env.allowed && old(TransferTrap(o.reason.bug, false, Listed(env)))
      ensures if !stat && old(ChecksPass()) && env.allowed && old(TransferFatal(false, Listed(env))) then o.Exit? else Excused(o)
      ensures o.Go? ==> ToldOr226(old(DirReply(stat, env)))
    {
      hide Balanced, SendResult, TrapIf, FatalIf;
      if !stat {
        var ok :- DataTransferChecksOk(env.world);
        if !ok {
          return Go;
        }
      }
      if !env.allowed {
        o := CmdWrite(550);
        return;
      }
      if stat {
        :- CmdWrite(213);
        :- CmdWrite(213);
        o := CheckAbor();
        return;
      }
      o := List(env);
    }

    /** The listing over a data connection; of a directory that cannot be read, an empty one. */
    method List(env: Env) returns (o: Outcome)
      requires Boundary() && ChecksPass() && env.allowed
      modifies this`portSockaddr, this`dataFd, this`ioHandler, this`dataSsl, this`attempts, this`aborReceived, parent, slave, control
      ensures o.Go? ==> Boundary() && SpentOrKept(true)
      ensures o.Traps() ==> old(TransferTrap(o.reason.bug, false, Listed(env)))
      ensures if old(TransferFatal(false, Listed(env))) then o.Exit? else Excused(o)
      ensures o.Go? ==> ToldOr226(old(DirReply(false, env)))
    {
      hide Balanced, SendResult, TrapIf, FatalIf;
      EmptyListing();
      var connected, retval :- Transfer(false, Listed(env));
      if connected {
        :- CmdWrite(if !Listable(env) || retval == 0 then 226 else 426);
        :- CheckAbor();
      }
      o := Cleanup();
    }

    lemma EmptyListing()
      ensures SendResult([SendEvent(Some([]), None, true)]) == Some(0)
    {
    }

    predicate UinsTrap(b: Bug) {
      b == NoDescriptor || b == NullSsl || b == TextTooBig
    }

    /** The traps of SITE UINS: those of a transfer, and that there is no connection, or too much text. */
    predicate UinsTrapIf(b: Bug, instructions: seq<Byte>, port: Option<nat>, ssl: bool, env: Env) {
      var connects := ConnectsIf(port, parent.pasvPromiscuous, ssl, env);
      || (b == ReservedPort && port.Some? && port.value < FIRST_PORT)
      || (b == OutOfStep && config.asyncAbor && config.controlUseSsl)
      || (b == NoDescriptor && !connects)
      || (b == NullSsl && !connects && ssl && instructions != [])
      || (b == TextTooBig && ssl && config.controlUseSsl && |instructions| > MAXSTR)
    }

    /** SITE UINS cannot be survived. */
    predicate UinsFatalIf(instructions: seq<Byte>, port: Option<nat>, ssl: bool, env: Env) {
      || BreaksIf(port, ssl, env) || !ConnectsIf(port, parent.pasvPromiscuous, ssl, env)
      || UinsTrapIf(ReservedPort, instructions, port, ssl, env) || UinsTrapIf(TextTooBig, instructions, port, ssl, env)
    }

    predicate InstructionTrap(b: Bug, instructions: seq<Byte>, env: Env)
      reads this
    {
      UinsTrapIf(b, instructions, portSockaddr, dataUseSsl, env)
    }

    predicate InstructionsFatal(instructions: seq<Byte>, env: Env)
      reads this
    {
      UinsFatalIf(instructions, portSockaddr, dataUseSsl, env)
    }

    /** The instructions reach the client and the connection is closed well. With nothing to send, a
        variable that was never set decides. */
    predicate UinsSent(taken: bool, env: Env)
      reads this
    {
      taken && (dataUseSsl ==> env.closed)
    }

    function UinsEntry(taken: bool, env: Env): Option<Event>
      reads this, parent
    {
      if !env.allowed || !ChecksPass() then None
      else Some(Written(Some(Update), env.created && UinsSent(taken, env)))
    }

    function UinsReply(taken: bool, env: Env): nat
      reads this, parent
    {
      if !env.allowed then 500
      else if !ChecksPass() then ChecksReply()
      else if !env.created then 550
      else if UinsSent(taken, env) then 226 else 426
    }

    /** handle_site_uins: the connection is used without a look at whether there is one. */
    method HandleSiteUins(instructions: seq<Byte>, taken: bool, env: Env) returns (o: Outcome)
      requires Boundary()
      modifies this`dataFd, this`ioHandler, this`dataSsl, this`attempts, this`aborReceived, parent, slave, control, log
      ensures o.Go? ==> Boundary() && EndpointsKept()
      ensures o.Traps() ==> env.allowed && old(ChecksPass()) && env.created && old(InstructionTrap(o.reason.bug, instructions, env))
      ensures if env.allowed && old(ChecksPass()) && env.created && old(InstructionsFatal(instructions, env)) then o.Exit? else Excused(o)
      ensures o.Go? ==> Logged(old(UinsEntry(taken, env))) && Tally()
      ensures o.Go? ==> Told(old(UinsReply(taken, env)))
    {
      hide Balanced, Successes, ConnectsIf, UinsTrapIf, UinsFatalIf;
      if !env.allowed {
        o := CmdWrite(500);
        return;
      }
      var ok :- DataTransferChecksOk(env.world);
      if !ok {
        return Go;
      }
      o := FetchInstructions(instructions, taken, env);
    }

    method FetchInstructions(instructions: seq<Byte>, taken: bool, env: Env) returns (o: Outcome)
      requires Boundary() && ChecksPass()
      modifies this`dataFd, this`ioHandler, this`dataSsl, this`attempts, this`aborReceived, parent, slave, control, log
      ensures o.Go? ==> Boundary() && EndpointsKept()
      ensures o.Traps() ==> env.created && old(InstructionTrap(o.reason.bug, instructions, env))
      ensures if env.created && old(InstructionsFatal(instructions, env)) then o.Exit? else Excused(o)
      ensures o.Go? ==> Logged(Some(Written(Some(Update), env.created && UinsSent(taken, env)))) && Tally()
      ensures o.Go? ==> Told(if !env.created then 550 else if UinsSent(taken, env) then 226 else 426)
    {
      hide Balanced, Successes, ConnectsIf, UinsTrapIf, UinsFatalIf;
      :- log.StartEntry(Update);
      if !env.created {
        log.DoLog(false);
        o := CmdWrite(550);
        return;
      }
      o := ConnectAndSend(instructions, taken, env);
    }

    method ConnectAndSend(instructions: seq<Byte>, taken: bool, env: Env) returns (o: Outcome)
      requires Settled() && SomeActive() && log.logType == Some(Update)
      modifies this`dataFd, this`ioHandler, this`dataSsl, this`attempts, this`aborReceived, parent, slave, control, log
      ensures o.Go? ==> Boundary() && EndpointsKept()
      ensures o.Traps() ==> InstructionTrap(o.reason.bug, instructions, env)
      ensures if InstructionsFatal(instructions, env) then o.Exit? else Excused(o)
      ensures o.Go? ==> log.history == old(log.history) + [Written(Some(Update), UinsSent(taken, env))]
      ensures o.Go? ==> Told(if UinsSent(taken, env) then 226 else 426)
      ensures Successes(log.history) == Successes(old(log.history))
    {
      hide Balanced, Successes, ConnectsIf, BreaksIf;
      var fd: int :- GetRemoteTransferFd(env);
      o := SendInstructions(fd, instructions, taken, env.closed);
    }

    /** Without a connection the session is always over; with one, only text that is too long for the
        slave, or a nested request, ends it in a trap. */
    method SendInstructions(fd: int, instructions: seq<Byte>, taken: bool, closed: bool) returns (o: Outcome)
      requires if fd < 0 then DataIdle() else Connected()
      requires Endpoints() && AborPossible() && log.Valid() && log.logType == Some(Update)
      modifies this`dataFd, this`ioHandler, this`dataSsl, this`aborReceived, slave, control, log
      ensures fd < 0 ==> o.Exit?
      ensures Excused(o)
      ensures o == Exit(Trap(NoDescriptor)) ==> fd < 0
      ensures o == Exit(Trap(NullSsl)) ==> fd < 0 && dataUseSsl && instructions != []
      ensures o == Exit(Trap(TextTooBig)) <==> ViaSlave() && |instructions| > MAXSTR
      ensures o.Traps() ==> UinsTrap(o.reason.bug) || (o.reason.bug == OutOfStep && config.asyncAbor && config.controlUseSsl)
      ensures o.Go? ==> Boundary()
      ensures o.Go? ==> log.history == old(log.history) + [Written(Some(Update), taken && (dataUseSsl ==> closed))]
      ensures o.Go? ==> Told(if taken && (dataUseSsl ==> closed) then 226 else 426)
      ensures Successes(log.history) == Successes(old(log.history))
    {
      hide Balanced, Successes;
      var transRet := taken;
      if instructions != [] {
        transRet :- WriteData(instructions, taken);
      }
      var ok: bool :- DisposeTransferFd(closed);
      log.DoLog(ok && transRet);
      o := CmdWrite(if ok && transRet then 226 else 426);
    }

    // -------------------------------------------------------------- other commands

    function OperationEntry(op: FileOp, complete: bool, done: bool): Option<Event> {
      if op.ChangeMode? && !complete then None else Some(Written(Some(OpKind(op)), done))
    }

    function OperationReply(op: FileOp, complete: bool, done: bool): nat {
      if op.ChangeMode? && !complete then 500 else if done then OpReply(op) else 550
    }

    /** handle_mkd, handle_rmd, handle_dele and handle_site_chmod */
    method HandleFileOperation(op: FileOp, complete: bool, allowed: bool, done: bool) returns (o: Outcome)
      requires Boundary()
      modifies slave, control, log
      ensures o.Go? ==> Settled()
      ensures !o.Traps() && Excused(o)
      ensures o.Go? ==> Logged(OperationEntry(op, complete, allowed && done)) && Tally()
      ensures o.Go? ==> Told(OperationReply(op, complete, allowed && done))
    {
      hide Balanced, Successes;
      if op.ChangeMode? && !complete {
        o := CmdWrite(500);
        return;
      }
      :- log.StartEntry(OpKind(op));
      if !allowed {
        o := CmdWrite(550);
        return;
      }
      if done {
        log.DoLog(true);
        o := CmdWrite(OpReply(op));
      } else {
        o := CmdWrite(550);
      }
    }

    /** handle_rnfr: an entry is opened only if the name is refused. */
    method HandleRnfr(present: bool) returns (o: Outcome)
      requires Boundary()
      modifies this`rnfrSet, slave, control, log
      ensures o.Go? ==> Settled() && rnfrSet == present
      ensures !o.Traps() && Excused(o)
      ensures o.Go? ==> Logged(if present then None else Some(Written(Some(Rename), false))) && Tally()
      ensures o.Go? ==> Told(if present then 350 else 550)
    {
      hide Balanced, Successes;
      rnfrSet := false;
      if present {
        rnfrSet := true;
        o := CmdWrite(350);
      } else {
        :- log.StartEntry(Rename);
        o := CmdWrite(550);
      }
    }

    /** handle_rnto: the name given by RNFR is used up, unless the new name is not allowed. */
    method HandleRnto(allowed: bool, done: bool) returns (o: Outcome)
      requires Boundary()
      modifies this`rnfrSet, slave, control, log
      ensures o.Go? ==> Settled() && rnfrSet == (old(rnfrSet) && !allowed)
      ensures !o.Traps() && Excused(o)
      ensures o.Go? ==> Logged(if old(rnfrSet) then Some(Written(Some(Rename), allowed && done)) else None) && Tally()
      ensures o.Go? ==> Told(if !old(rnfrSet) then 503 else if allowed && done then 250 else 550)
    {
      hide Balanced, Successes;
      if !rnfrSet {
        o := CmdWrite(503);
        return;
      }
      :- log.StartEntry(Rename);
      if !allowed {
        o := CmdWrite(550);
        return;
      }
      rnfrSet := false;
      if done {
        log.DoLog(true);
        o := CmdWrite(250);
      } else {
        o := CmdWrite(550);
      }
    }

    function AdjustReply(c: Command): nat {
      match c
      case Rest(_) => 350
      case Type(ascii) => if ascii.Some? then 200 else 500
      case Prot(level) =>
        if !config.controlUseSsl then 503
        else (match level case Unsupported => 536 case Unrecognised => 504 case _ => 200)
      case Reply(code) => code
      case _ => 221
    }

    /** handle_rest, handle_type, handle_prot, QUIT, and everything that only replies. */
    method Adjust(c: Command) returns (o: Outcome)
      requires Boundary() && (c.Quit? || c.Rest? || c.Type? || c.Prot? || c.Reply?)
      modifies this`restartPos, this`isAscii, this`dataUseSsl, slave, control
      ensures o.Go? ==> Boundary() && SettingsAfter(c) && Told(AdjustReply(c))
      ensures !o.Traps()
      ensures if c.Quit? then o == Exit(Goodbye) || o == Exit(ConnectionLost) else Excused(o)
    {
      hide Balanced;
      match c {
        case Quit =>
          o := CmdWrite(221);
          return if o.Go? then Exit(Goodbye) else Exit(ConnectionLost);
        case Rest(val) => restartPos := if val < 0 then 0 else val;
        case Type(ascii) =>
          if ascii.Some? {
            isAscii := ascii.value;
          }
        case Prot(level) =>
          if config.controlUseSsl {
            if level.Clear? {
              dataUseSsl := false;
            } else if level.Private? {
              dataUseSsl := true;
            }
          }
        case Reply(code) =>
      }
      o := CmdWrite(AdjustReply(c));
    }

    // -------------------------------------------------------------- the command loop

    /** The data connections asked for so far, and the one that could be asked for now. */
    ghost function Uses(): nat
      reads this, parent
    {
      attempts + if SomeActive() then 1 else 0
    }

    /** What a set-up command does: nothing at all if it is refused, and otherwise what it asks for,
        whether or not EPSV ALL was given. */
    twostate predicate SetUpDone(c: Command)
      requires SetsUp(c)
      reads this, parent
    {
      if ShutOut(c, old(epsvAll)) || (c.Pasv? && !AsksToListen(c.isEpsv, c.arg, c.isIpv6)) then EndpointsKept()
      else if c.Pasv? then Listening() && portSockaddr.None? && !parent.NoPort(c.world)
      else !Listening() && portSockaddr == Offered(c)
    }

    twostate predicate EpsvAllAfter(c: Command)
      reads this
    {
      epsvAll == (old(epsvAll) || (c.Pasv? && c.isEpsv && c.arg.All?))
    }

    function SetUpReply(c: Command): nat
      requires SetsUp(c)
      reads this
    {
      if ShutOut(c, epsvAll) then 550
      else if c.Pasv? then PasvReply(c.isEpsv, c.arg, c.isIpv6)
      else if Offered(c).Some? then 200 else 500
    }

    ghost predicate SetUpFails(c: Command)
      reads this
    {
      c.Pasv? && !ShutOut(c, epsvAll) && PasvFails(c.isEpsv, c.arg, c.isIpv6, c.world)
    }

    /** PASV, EPSV, PORT and EPRT. */
    method SetUp(c: Command) returns (o: Outcome)
      requires Boundary() && SetsUp(c)
      modifies this`portSockaddr, this`epsvAll, parent, slave, control
      ensures (o.Go? ==> Boundary() && SetUpDone(c)) && !o.Traps() && EpsvAllAfter(c)
      ensures o.Go? ==> Told(old(SetUpReply(c)))
      ensures if old(SetUpFails(c)) then o.Exit? else Excused(o)
    {
      hide Balanced;
      match c
      case Pasv(isEpsv, arg, isIpv6, w) =>
        if !isEpsv && epsvAll {
          o := CmdWrite(550);
        } else {
          var told;
          o, told := HandlePasv(isEpsv, arg, isIpv6, w);
        }
      case Port(vals, same) =>
        if epsvAll {
          o := CmdWrite(550);
        } else {
          o := HandlePort(vals, same);
        }
      case Eprt(arg, same) => o := HandleEprt(arg, same);
    }

    /** The entry that a command makes. */
    function Entry(c: Command): (e: Option<Event>)
      reads this, parent
      ensures e.Some? ==> !e.value.Started? && e.value.what.Some?
    {
      match c
      case Retr(env) => RetrEntry(env)
      case Store(env) => StoreEntry(env)
      case SiteUins(_, taken, env) => UinsEntry(taken, env)
      case FileOperation(op, complete, allowed, done) => OperationEntry(op, complete, allowed && done)
      case Rnfr(present) => if present then None else Some(Written(Some(Rename), false))
      case Rnto(allowed, done) => if rnfrSet then Some(Written(Some(Rename), allowed && done)) else None
      case _ => None
    }

    /** The code of the last reply to a command, if no ABOR comes. */
    function LastReply(c: Command): nat
      reads this, parent
    {
      match c
      case Retr(env) => RetrReply(env)
      case Store(env) => StoreReply(env)
      case Dir(stat, env) => DirReply(stat, env)
      case SiteUins(_, taken, env) => UinsReply(taken, env)
      case FileOperation(op, complete, allowed, done) => OperationReply(op, complete, allowed && done)
      case Rnfr(present) => if present then 350 else 550
      case Rnto(allowed, done) => if !rnfrSet then 503 else if allowed && done then 250 else 550
      case _ => if SetsUp(c) then SetUpReply(c) else AdjustReply(c)
    }

    /** A data connection is asked for. */
    predicate Attempts(c: Command)
      reads this, parent
    {
      match c
      case Retr(env) => RetrBegins() && FileOk(env.file)
      case Store(env) => ChecksPass() && env.allowed && env.created
      case Dir(stat, env) => !stat && ChecksPass() && env.allowed
      case _ => false
    }

    /** What a command does to PORT, PASV and EPSV ALL. */
    twostate predicate EndpointsAfter(c: Command)
      reads this, parent
    {
      && EpsvAllAfter(c)
      && if SetsUp(c) then SetUpDone(c) && attempts == old(attempts)
         else if c.SiteUins? then EndpointsKept()
         else SpentOrKept(old(Attempts(c)))
    }

    /** The traps that a command can end in. */
    predicate MayTrap(c: Command, b: Bug)
      reads this, parent
    {
      match c
      case Retr(env) => RetrBegins() && FileOk(env.file) && TransferTrap(b, false, env)
      case Store(env) => ChecksPass() && env.allowed && env.created && TransferTrap(b, true, env)
      case Dir(stat, env) => !stat && ChecksPass() && env.allowed && TransferTrap(b, false, Listed(env))
      case SiteUins(text, _, env) => env.allowed && ChecksPass() && env.created && InstructionTrap(b, text, env)
      case _ => false
    }

    /** A command ends the session, whatever the connections do. */
    ghost predicate Fatal(c: Command)
      reads this, parent
    {
      match c
      case Quit => true
      case Retr(env) => RetrBegins() && FileOk(env.file) && TransferFatal(false, env)
      case Store(env) => ChecksPass() && env.allowed && env.created && (ChownFails(env) || TransferFatal(true, env))
      case Dir(stat, env) => !stat && ChecksPass() && env.allowed && TransferFatal(false, Listed(env))
      case SiteUins(text, _, env) => env.allowed && ChecksPass() && env.created && InstructionsFatal(text, env)
      case _ => SetUpFails(c)
    }

    /** What a command does to the settings of the session. */
    twostate predicate SettingsAfter(c: Command)
      reads this
    {
      && isAscii == (match c case Type(Some(ascii)) => ascii case _ => old(isAscii))
      && restartPos == (match c
                        case Rest(val) => (if val < 0 then 0 else val)
                        case _ => if c.Retr? || c.Store? then 0 else old(restartPos))
      && dataUseSsl == (if !config.controlUseSsl || !c.Prot? then old(dataUseSsl)
                        else if c.level.Private? then true else if c.level.Clear? then false else old(dataUseSsl))
      && rnfrSet == (match c
                     case Rnfr(present) => present
                     case Rnto(allowed, _) => old(rnfrSet) && !allowed
                     case _ => old(rnfrSet))
    }

    /** One command of process_post_login, up to the writing of an entry left open. */
    method Dispatch(c: Command) returns (o: Outcome)
      requires Boundary()
      modifies this, parent, slave, control, log
      ensures o.Go? ==> Settled() && EndpointsAfter(c) && SettingsAfter(c)
      ensures o.Traps() ==> old(MayTrap(c, o.reason.bug))
      ensures if old(Fatal(c)) then o.Exit? else Excused(o)
      ensures o.Go? ==> Logged(old(Entry(c))) && Tally() && Answered(c, old(LastReply(c)))
    {
      hide Balanced, Successes, TransferTrap, TransferFatal, InstructionTrap, InstructionsFatal, RetrEntry, RetrReply, StoreEntry, StoreReply, UinsEntry, UinsReply, DirReply, OperationEntry, OperationReply, ChecksPass, RetrBegins, FileOk, Offered, AsksToListen, ShutOut, PasvFails, SetUpReply, AdjustReply, ChownFails, Listed;
      if SetsUp(c) {
        o := SetUp(c);
      } else if Transfers(c) || c.SiteUins? {
        o := DispatchTransfer(c);
      } else if c.FileOperation? || c.Rnfr? || c.Rnto? {
        o := DispatchName(c);
      } else {
        o := Adjust(c);
      }
    }

    /** The last reply is as told, but for the confirmation of an ABOR. */
    twostate predicate Answered(c: Command, code: nat)
      reads control
    {
      if Transfers(c) then ToldOr226(code) else Told(code)
    }

    method DispatchTransfer(c: Command) returns (o: Outcome)
      requires Boundary() && (Transfers(c) || c.SiteUins?)
      modifies this`portSockaddr, this`dataFd, this`ioHandler, this`dataSsl, this`restartPos, this`attempts, this`aborReceived, this`completes, this`cut, parent, slave, control, log
      ensures o.Go? ==> Settled() && if c.SiteUins? then EndpointsKept() else SpentOrKept(old(Attempts(c)))
      ensures o.Go? ==> restartPos == if c.Retr? || c.Store? then 0 else old(restartPos)
      ensures o.Traps() ==> old(MayTrap(c, o.reason.bug))
      ensures if old(Fatal(c)) then o.Exit? else Excused(o)
      ensures o.Go? ==> Logged(old(Entry(c))) && Tally() && Answered(c, old(LastReply(c)))
    {
      hide Balanced, Successes, TransferTrap, TransferFatal, InstructionTrap, InstructionsFatal, RetrEntry, RetrReply, StoreEntry, StoreReply, UinsEntry, UinsReply, DirReply, ChecksPass, RetrBegins;
      match c
      case Retr(env) => o := HandleRetr(env);
      case Store(env) => o := HandleUpload(env);
      case Dir(stat, env) => o := HandleDir(stat, env);
      case SiteUins(text, taken, env) => o := HandleSiteUins(text, taken, env);
    }

    method DispatchName(c: Command) returns (o: Outcome)
      requires Boundary() && (c.FileOperation? || c.Rnfr? || c.Rnto?)
      modifies this`rnfrSet, slave, control, log
      ensures o.Go? ==> Settled() && SettingsAfter(c)
      ensures !o.Traps() && Excused(o)
      ensures o.Go? ==> Logged(old(Entry(c))) && Tally() && Told(old(LastReply(c)))
    {
      hide Balanced, Successes, OperationEntry, OperationReply;
      match c
      case FileOperation(op, complete, allowed, done) => o := HandleFileOperation(op, complete, allowed, done);
      case Rnfr(present) => o := HandleRnfr(present);
      case Rnto(allowed, done) => o := HandleRnto(allowed, done);
    }

    /** The history grows by the entry that a command makes, whole. */
    twostate predicate Recorded(e: Option<Event>)
      requires e.Some? ==> !e.value.Started? && e.value.what.Some?
      reads log
    {
      log.history == match e case None => old(log.history) case Some(ev) => old(log.history) + [Started(ev.what.value)] + [ev]
    }

    /** One command, and the writing of an entry that it leaves open as a failure. */
    method Complete(c: Command) returns (o: Outcome)
      requires Boundary()
      modifies this, parent, slave, control, log
      ensures o.Go? ==> Boundary() && EndpointsAfter(c) && SettingsAfter(c) && Recorded(old(Entry(c))) && Tally()
      ensures o.Go? ==> Answered(c, old(LastReply(c)))
      ensures o.Traps() ==> old(MayTrap(c, o.reason.bug))
      ensures if old(Fatal(c)) then o.Exit? else Excused(o)
    {
      hide Balanced, Successes, Entry, LastReply, MayTrap, Fatal, Attempts, EndpointsAfter, SettingsAfter;
      :- Dispatch(c);
      if log.logType.Some? {
        log.DoLog(false);
      }
      return Go;
    }

    /** One round of the loop: the client is answered, the log gets exactly the entry of the command, and the
        settings, PORT, PASV and EPSV ALL are what the command makes of them. */
    method Round(c: Command) returns (o: Outcome)
      requires Boundary()
      modifies this, parent, slave, control, log
      ensures o.Go? ==> Boundary() && EndpointsAfter(c) && SettingsAfter(c) && Recorded(old(Entry(c))) && Tally()
      ensures o.Go? ==> Answered(c, old(LastReply(c)))
      ensures o.Traps() ==> old(MayTrap(c, o.reason.bug))
      ensures if old(Fatal(c)) then o.Exit? else Excused(o)
    {
      hide Balanced, Successes, Entry, LastReply, MayTrap, Fatal, Attempts, Offered, AsksToListen, ShutOut;
      :- GetCommand();
      o := Complete(c);
    }

    /** The port `now` is the one from before, or one that an EPRT among the commands gave. */
    ghost predicate FromEprt(now: Option<nat>, before: Option<nat>, commands: seq<Command>) {
      now.None? || now == before || exists c :: c in commands && c.Eprt? && Offered(c) == now
    }

    lemma StillFromEprt(now: Option<nat>, last: Option<nat>, before: Option<nat>, commands: seq<Command>, i: nat)
      requires i < |commands| && FromEprt(last, before, commands[..i])
      requires now.None? || now == last || (commands[i].Eprt? && Offered(commands[i]) == now)
      ensures FromEprt(now, before, commands[..i + 1])
    {
      hide Offered;
      assert commands[..i + 1] == commands[..i] + [commands[i]];
    }

    /** Settings under which nothing traps but SITE UINS. */
    predicate SafeSettings() {
      && !config.portPromiscuous && !(config.asyncAbor && config.controlUseSsl)
      && (config.controlUseSsl ==> ChunkSize(config.transChunkSize) == DATA_BUFSIZE)
    }

    predicate SmoothTransfer(recv: bool, env: Env) {
      BindsLocally(env.world) && !env.handshakeLost && (if recv then RecvResult(env.recv) else SendResult(env.send)).Some?
    }

    /** A command that is not meant to end the session and meets nothing that does. */
    ghost predicate Smooth(c: Command) {
      match c
      case Pasv(isEpsv, arg, isIpv6, w) => !PasvFails(isEpsv, arg, isIpv6, w)
      case Retr(env) => SmoothTransfer(false, env)
      case Store(env) => SmoothTransfer(true, env) && !ChownFails(env)
      case Dir(_, env) => SmoothTransfer(false, Listed(env))
      case _ => !c.Quit? && !c.SiteUins?
    }

    lemma SmoothLives(c: Command)
      requires Endpoints() && SafeSettings() && Smooth(c)
      ensures !Fatal(c) && forall b :: !MayTrap(c, b)
    {
      hide ConnectsIf, RecvResult, SendResult, Listable, PasvFails, ChownFails, Floods;
    }

    lemma TrapsNamed(c: Command, b: Bug)
      requires Endpoints() && MayTrap(c, b)
      ensures SettingTrap(b) || (c.SiteUins? && UinsTrap(b))
    {
      hide ConnectsIf, Floods, Listable;
    }

    /** One round, for the run. */
    method RunRound(c: Command) returns (o: Outcome)
      requires Boundary()
      modifies this, parent, slave, control, log
      ensures o.Go? ==> Boundary() && Tally() && control.count > old(control.count)
      ensures o.Traps() ==> SettingTrap(o.reason.bug) || (c.SiteUins? && UinsTrap(o.reason.bug))
      ensures o.Go? && old(epsvAll) ==> epsvAll
      ensures o.Go? && !c.SiteUins? ==> Uses() <= old(Uses()) + if SetsUp(c) then 1 else 0
      ensures o.Go? && old(epsvAll) ==> portSockaddr.None? || portSockaddr == old(portSockaddr) || (c.Eprt? && Offered(c) == portSockaddr)
      ensures o.Go? && old(epsvAll) && Listening() ==> old(Listening()) || (c.Pasv? && c.isEpsv)
      ensures control.steady && SafeSettings() && Smooth(c) ==> o.Go?
    {
      hide Balanced, Successes, Recorded, Entry, LastReply, Offered, SettingTrap, UinsTrap, MayTrap, Fatal, Smooth, SafeSettings, SettingsAfter, Attempts;
      if SafeSettings() && Smooth(c) {
        SmoothLives(c);
      }
      forall b | MayTrap(c, b) ensures SettingTrap(b) || (c.SiteUins? && UinsTrap(b)) {
        TrapsNamed(c, b);
      }
      o := Round(c);
    }

    /** process_post_login over any sequence of commands. While the session lives, every command starts
        and ends at a clean boundary and is answered, each PORT or PASV serves at most one connection (SITE
        UINS aside), and EPSV ALL keeps PORT out for good. The traps that can end a session are named; and
        with safe settings, steady connections and smooth commands it does not end. */
    method Run(commands: seq<Command>) returns (o: Outcome)
      requires Boundary()
      modifies this, parent, slave, control, log
      ensures o.Go? ==> Boundary() && Tally()
      ensures o.Go? ==> control.count >= old(control.count) + |commands|
      ensures o.Traps() ==> SettingTrap(o.reason.bug) || (AnyUins(commands) && UinsTrap(o.reason.bug))
      ensures o.Go? && !AnyUins(commands) ==> Uses() <= old(Uses()) + SetUps(commands)
      ensures o.Go? && old(epsvAll) ==> FromEprt(portSockaddr, old(portSockaddr), commands)
      ensures o.Go? && old(epsvAll) && !AnyEpsv(commands) && Listening() ==> old(Listening())
      ensures control.steady && SafeSettings() && (forall i :: 0 <= i < |commands| ==> Smooth(commands[i])) ==> o.Go?
    {
      hide Successes, Boundary, AnyUins, AnyEpsv, Offered, SetUps, SettingTrap, UinsTrap, SafeSettings, Smooth, Uses;
      for i := 0 to |commands|
        invariant Boundary() && (old(epsvAll) ==> epsvAll) && Tally()
        invariant control.count >= old(control.count) + i
        invariant !AnyUins(commands[..i]) ==> Uses() <= old(Uses()) + SetUps(commands[..i])
        invariant old(epsvAll) ==> FromEprt(portSockaddr, old(portSockaddr), commands[..i])
        invariant old(epsvAll) && !AnyEpsv(commands[..i]) && Listening() ==> old(Listening())
      {
        OneMore(commands, i);
        ghost var last := portSockaddr;
        :- RunRound(commands[i]);
        if old(epsvAll) {
          StillFromEprt(portSockaddr, last, old(portSockaddr), commands, i);
        }
      }
      assert commands[..|commands|] == commands;
      return Go;
    }
  }

  /** EPSV ALL is meant to end the use of all commands but EPSV, but EPRT goes on working. */
  method EprtAfterEpsvAll(s: Session, port: nat, w: World) returns (o: Outcome)
    requires s.Boundary() && FIRST_PORT <= port <= LAST_PORT
    modifies s, s.parent, s.slave, s.control, s.log
    ensures o.Go? ==> s.epsvAll && s.portSockaddr == Some(port) && s.control.last == 200
  {
    o := s.Round(Pasv(true, All, false, w));
    if o.Go? {
      o := s.Round(Eprt(Address(port), true));
    }
  }

  /** An upload that ABOR ends is logged as a success, and the client is told that it failed: some data,
      then ABOR, and the connection that its handler has shut down looks like the end of the data. */
  method AbortedUpload(s: Session, before: nat, env: Env) returns (o: Outcome)
    requires s.Settled() && s.SomeActive() && s.Connects(env) && !s.dataUseSsl && before > 0
    requires s.config.asyncAbor && s.log.logType == Some(Upload)
    requires env.recv == [RecvEvent(before, Some(true), true), RecvEvent(0, None, true)]
    modifies s, s.parent, s.slave, s.control, s.log
    ensures o.Go? ==> s.log.history == old(s.log.history) + [Written(Some(Upload), true)]
    ensures o.Go? ==> s.completes == old(s.completes) && s.cut == old(s.cut) + 1
  {
    hide Balanced, Successes;
    TwoReads(env.recv, before);
    assert s.Succeeds(true, env);
    ghost var history := s.log.history;
    o := s.Deliver(true, env);
    SuccessesMore(history, Written(Some(Upload), true));
  }

  lemma TwoReads(events: seq<RecvEvent>, before: nat)
    requires before > 0 && events == [RecvEvent(before, Some(true), true), RecvEvent(0, None, true)]
    ensures RecvResult(events) == Some(0) && AborBeforeEnd(events)
  {
    assert RecvResult(events[1..]) == Some(0);
  }
}
