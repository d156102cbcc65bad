/** twoprocess.c, postprivparent.c and privops.c: the requests the unprivileged child makes of its
    privileged parent after login, and how the parent serves them. */
module PrivParent {
  import opened Basics
  import opened PrivSock
  import opened Lockstep
  import opened Exits

  const CHOWN: Byte := 2
  const GET_DATA_SOCK: Byte := 3
  const PASV_CLEANUP: Byte := 10
  const PASV_ACTIVE: Byte := 11
  const PASV_LISTEN: Byte := 12
  const PASV_ACCEPT: Byte := 13

  const RESULT_OK: Byte := 1
  const RESULT_BAD: Byte := 2

  const NO_FD := -1
  const FIRST_PORT := 1024
  const LAST_PORT := 65535

  // ---------------------------------------------------------------- the protocol

  /** What the parent reads after each command; the chown request is known only if uploads are chowned. */
  function PostLoginArgs(chownUploads: bool, c: Byte): Option<seq<Kind>> {
    if c == CHOWN && chownUploads then Some([KDescriptor])
    else if c == GET_DATA_SOCK then Some([KNumber])
    else if c == PASV_CLEANUP || c == PASV_ACTIVE || c == PASV_LISTEN || c == PASV_ACCEPT then Some([])
    else None
  }

  /** What the child reads next, from what it has read of the answer so far. */
  function PostLoginNext(c: Byte, got: seq<Item>): Option<Kind> {
    if c == PASV_ACTIVE || c == PASV_LISTEN then
      if got == [] then Some(KNumber) else None
    else if got == [] then Some(KCode)
    else if |got| == 1 && got[0] == Code(RESULT_OK) && (c == GET_DATA_SOCK || c == PASV_ACCEPT) then Some(KDescriptor)
    else if |got| == 1 && got[0] == Code(RESULT_BAD) && c == PASV_ACCEPT then Some(KNumber)
    else None
  }

  function PostLogin(chownUploads: bool): Protocol {
    Protocol((c: Byte) => PostLoginArgs(chownUploads, c), PostLoginNext)
  }

  lemma OneItem(p: Protocol, c: Byte, item: Item)
    requires Sendable(item) && p.next(c, []) == Some(KindOf(item)) && p.next(c, [item]) == None
    ensures Answers(p, c, [item])
  {
    assert [item][..0] == [];
  }

  lemma TwoItems(p: Protocol, c: Byte, a: Item, b: Item)
    requires Sendable(a) && Sendable(b)
    requires p.next(c, []) == Some(KindOf(a)) && p.next(c, [a]) == Some(KindOf(b)) && p.next(c, [a, b]) == None
    ensures Answers(p, c, [a, b])
  {
    var reply := [a, b];
    assert reply[..0] == [] && reply[..1] == [a];
  }

  /** The post-login protocol is one that runs in step. */
  lemma PostLoginResponsive(chownUploads: bool)
    ensures Responsive(PostLogin(chownUploads))
  {
    var p := PostLogin(chownUploads);
    forall c: Byte | p.args(c).Some? ensures p.next(c, []).Some? && exists reply :: Answers(p, c, reply) {
      if c == PASV_ACTIVE || c == PASV_LISTEN {
        OneItem(p, c, Number(0));
      } else if c == PASV_ACCEPT {
        TwoItems(p, c, Code(RESULT_BAD), Number(-1));
      } else {
        OneItem(p, c, Code(RESULT_BAD));
      }
    }
  }

  const LOGIN: Byte := 1

  /** Before login there is one request: user name, password and the two SSL flags, answered by a result.
      After a success both sides close this pair and the post-login pair is opened afresh. */
  function LoginNext(c: Byte, got: seq<Item>): Option<Kind> {
    if got == [] then Some(KCode) else None
  }

  function Login(): Protocol {
    Protocol((c: Byte) => if c == LOGIN then Some([KText, KText, KNumber, KNumber]) else None, LoginNext)
  }

  lemma LoginResponsive()
    ensures Responsive(Login())
  {
    forall c: Byte | Login().args(c).Some? ensures Login().next(c, []).Some? && exists reply :: Answers(Login(), c, reply) {
      OneItem(Login(), c, Code(RESULT_BAD));
    }
  }

  /** However the two processes are interleaved, the parent has served exactly the requests that the
      child has made, in order and with the answers the child got. */
  lemma ParentIsCalled(chownUploads: bool, run: seq<System>, k: nat)
    requires IsRun(PostLogin(chownUploads), run) && k < |run|
    ensures AllCalls(PostLogin(chownUploads), Answered(run, k))
    ensures run[k].asker.Idle? ==> Answered(run, k) == Asked(run, k)
  {
    hide IsRun, AllCalls, Answered, Asked;
    PostLoginResponsive(chownUploads);
    RunIsCalls(PostLogin(chownUploads), run, k);
  }

  lemma LoginIsCalled(run: seq<System>, k: nat)
    requires IsRun(Login(), run) && k < |run|
    ensures AllCalls(Login(), Answered(run, k))
    ensures run[k].asker.Idle? ==> Answered(run, k) == Asked(run, k)
  {
    hide IsRun, AllCalls, Answered, Asked;
    LoginResponsive();
    RunIsCalls(Login(), run, k);
  }

  datatype LoginResult = Fail | Anonymous | Local

  /** process_login_req, with the verdict on user and password left open. A refusal is answered BAD and
      the child asks again; otherwise the answer is OK and the session begins, with the SSL flags of the
      child unless SSL is disabled. */
  method ProcessLogin(request: seq<Item>, sslEnable: bool, verdict: LoginResult)
      returns (a: Answer, controlUseSsl: int, dataUseSsl: int)
    requires request != [] && request[0].Code?
    requires request[0].c == LOGIN ==> Fits(Login(), request)
    ensures a == Ended(Trap(UnknownRequest)) <==> request[0].c != LOGIN
    ensures request[0].c == LOGIN ==> a == Reply([Code(if verdict.Fail? then RESULT_BAD else RESULT_OK)])
    ensures a.Reply? ==> Answers(Login(), LOGIN, a.items)
    ensures a.Reply? && sslEnable ==> request[3..] == [Number(controlUseSsl), Number(dataUseSsl)]
    ensures !sslEnable ==> controlUseSsl == 0 && dataUseSsl == 0
  {
    controlUseSsl, dataUseSsl := 0, 0;
    if request[0].c != LOGIN {
      return Ended(Trap(UnknownRequest)), 0, 0;
    }
    assert KindsOf(request[1..]) == [KText, KText, KNumber, KNumber];
    assert KindsOf(request[1..])[2] == KindOf(request[3]) && KindsOf(request[1..])[3] == KindOf(request[4]);
    if sslEnable {
      controlUseSsl, dataUseSsl := request[3].n, request[4].n;
    }
    var result := if verdict.Fail? then RESULT_BAD else RESULT_OK;
    OneItem(Login(), LOGIN, Code(result));
    a := Reply([Code(result)]);
  }

  /** The requests of the child. */
  datatype Request = Chown(fd: int) | GetDataSock(port: nat) | PasvCleanup | PasvActive | PasvListen | PasvAccept

  /** The child sends the chown request only with chown_uploads set, and asks only for ports that its
      PORT and EPRT handlers have let through. */
  predicate Proper(chownUploads: bool, r: Request) {
    match r
    case Chown(_) => chownUploads
    case GetDataSock(port) => FIRST_PORT <= port <= LAST_PORT
    case _ => true
  }

  function Items(r: Request): seq<Item> {
    match r
    case Chown(fd) => [Code(CHOWN), Descriptor(fd)]
    case GetDataSock(port) => [Code(GET_DATA_SOCK), Number(port)]
    case PasvCleanup => [Code(PASV_CLEANUP)]
    case PasvActive => [Code(PASV_ACTIVE)]
    case PasvListen => [Code(PASV_LISTEN)]
    case PasvAccept => [Code(PASV_ACCEPT)]
  }

  /** What the child sends is always a request of the protocol. */
  lemma ProperFits(chownUploads: bool, r: Request)
    requires Proper(chownUploads, r)
    ensures Fits(PostLogin(chownUploads), Items(r))
  {
    var items := Items(r);
    assert KindsOf(items[1..]) == PostLoginArgs(chownUploads, items[0].c).value;
  }

  // ---------------------------------------------------------------- passive ports

  /** The range that the configuration leaves for passive ports. */
  function MinPort(tunableMin: nat): (p: nat)
    ensures FIRST_PORT <= p <= LAST_PORT
    ensures p == tunableMin <==> FIRST_PORT <= tunableMin <= LAST_PORT
  {
    if FIRST_PORT < tunableMin <= LAST_PORT then tunableMin else FIRST_PORT
  }

  function MaxPort(tunableMin: nat, tunableMax: nat): (p: nat)
    ensures MinPort(tunableMin) <= p <= LAST_PORT
    ensures p == tunableMax <==> MinPort(tunableMin) <= tunableMax <= LAST_PORT
    ensures p != tunableMax ==> p == LAST_PORT
  {
    if MinPort(tunableMin) <= tunableMax < LAST_PORT then tunableMax else LAST_PORT
  }

  /** Two random bytes scaled into the range. */
  function ScaledPort(random: nat, min: nat, max: nat): int {
    (min as real + Share(random as real / 65536.0, (max - min + 1) as real)).Floor
  }

  function Share(part: real, width: real): real {
    part * width
  }

  lemma ShareBelow(part: real, width: real)
    requires 0.0 <= part < 1.0 && width > 0.0
    ensures 0.0 <= Share(part, width) < width
  {
  }

  /** Each port of the range gets its share of the random numbers, and in order. */
  lemma ScaledPortExact(random: nat, min: nat, max: nat)
    requires random < 65536 && min <= max
    ensures var p := ScaledPort(random, min, max);
            65536 * (p - min) <= random * (max - min + 1) < 65536 * (p - min + 1)
  {
    hide Share;
    var width := max - min + 1;
    ShareOf(random, width);
    var x := Share(random as real / 65536.0, width as real);
    assert (min as real + x).Floor == min + x.Floor;
    assert x.Floor as real <= x < x.Floor as real + 1.0;
  }

  lemma ShareOf(random: nat, width: nat)
    ensures Share(random as real / 65536.0, width as real) * 65536.0 == (random * width) as real
  {
  }

  /** Whatever the two bytes are, the port lies in the range. */
  lemma PortInRange(random: nat, min: nat, max: nat)
    requires random < 65536 && min <= max
    ensures min <= ScaledPort(random, min, max) <= max
  {
    hide Share;
    ShareBelow(random as real / 65536.0, (max - min + 1) as real);
  }

  datatype Bind = Bound | InUse | Refused

  /** What the system calls of one request come to: the descriptor of a new socket; two random bytes and
      the outcome of binding and listening, by try; the outcome of binding the local end of a connection, by
      try; the descriptor connected to a port, and the accepted one, or a negative number; whether the accepted
      one comes from the client's address; and whether a file may change its owner. */
  datatype World = World(
    socket: nat, random: nat -> nat, listen: (nat, int) -> Bind, local: nat -> Bind,
    connect: nat -> int, accept: int, sameAddress: bool, chown: bool)

  /** Binding the local end works at once, or at the second try if the address was in use. */
  predicate BindsLocally(w: World) {
    w.local(0).Bound? || (w.local(0).InUse? && w.local(1).Bound?)
  }

  function ConnectFd(w: World, port: nat): int {
    if w.connect(port) < 0 then -1 else w.connect(port)
  }

  /** A connection, -1 for none, -2 for one from a foreign address. */
  function AcceptFd(w: World, promiscuous: bool): int {
    if w.accept < 0 then -1 else if promiscuous || w.sameAddress then w.accept else -2
  }

  // ---------------------------------------------------------------- the parent

  /** A process that serves requests answers, or ends and takes the session with it. */
  datatype Answer = Reply(items: seq<Item>) | Ended(reason: Reason)

  class Parent {
    var pasvListenFd: int
    /** Listening descriptors overwritten while still open. */
    ghost var lost: nat
    const chownUploads: bool
    const pasvPromiscuous: bool
    const tunableMin: nat
    const tunableMax: nat

    constructor (chownUploads: bool, pasvPromiscuous: bool, tunableMin: nat, tunableMax: nat)
      ensures pasvListenFd == NO_FD && lost == 0
      ensures this.chownUploads == chownUploads && this.pasvPromiscuous == pasvPromiscuous
      ensures this.tunableMin == tunableMin && this.tunableMax == tunableMax
    {
      pasvListenFd, lost := NO_FD, 0;
      this.chownUploads, this.pasvPromiscuous := chownUploads, pasvPromiscuous;
      this.tunableMin, this.tunableMax := tunableMin, tunableMax;
    }

    /** The port of the k-th try. */
    function TryPort(w: World, k: nat): int {
      ScaledPort(w.random(k) % 65536, MinPort(tunableMin), MaxPort(tunableMin, tunableMax))
    }

    /** The k-th try is made: all before it found their port in use. */
    ghost predicate Tried(w: World, k: nat) {
      forall j :: 0 <= j < k ==> w.listen(j, TryPort(w, j)).InUse?
    }

    /** The parent has bound this port, a port of the configured range, at the first try that worked. */
    ghost predicate ListensOn(w: World, port: int) {
      && MinPort(tunableMin) <= port <= MaxPort(tunableMin, tunableMax)
      && exists k :: 0 <= k < 9 && Tried(w, k) && port == TryPort(w, k) && w.listen(k, port).Bound?
    }

    /** No port was to be had: a try was refused, or all nine were in use. */
    ghost predicate NoPort(w: World) {
      Tried(w, 9) || exists k :: 0 <= k < 9 && Tried(w, k) && w.listen(k, TryPort(w, k)).Refused?
    }

    /** What a listen does to the descriptors. */
    twostate predicate TakesOver(w: World)
      reads this
    {
      pasvListenFd == w.socket && lost == old(lost) + (if old(pasvListenFd) == NO_FD then 0 else 1)
    }

    /** vsf_privop_pasv_listen: up to nine tries with random ports. */
    method Listen(w: World) returns (port: Option<nat>)
      modifies this
      ensures TakesOver(w)
      ensures if port.Some? then ListensOn(w, port.value) else NoPort(w)
    {
      if pasvListenFd != NO_FD {
        lost := lost + 1;
      }
      pasvListenFd := w.socket;
      var min, max := MinPort(tunableMin), MaxPort(tunableMin, tunableMax);
      var retries, k := 9, 0;
      while retries > 0
        invariant TakesOver(w) && retries + k == 9 && Tried(w, k)
        decreases retries
      {
        var bytes := w.random(k) % 65536;
        PortInRange(bytes, min, max);
        var thePort := ScaledPort(bytes, min, max);
        match w.listen(k, thePort) {
          case Bound => return Some(thePort);
          case Refused => return None;
          case InUse =>
        }
        retries, k := retries - 1, k + 1;
      }
      return None;
    }

    /** vsf_privop_accept_pasv */
    method Accept(w: World) returns (fd: int)
      ensures fd == AcceptFd(w, pasvPromiscuous)
    {
      if w.accept < 0 {
        return -1;
      }
      if !pasvPromiscuous {
        if !w.sameAddress {
          return -2;
        }
      }
      return w.accept;
    }

    /** process_post_login_req on one request. */
    method ProcessRequest(request: seq<Item>, w: World) returns (a: Answer)
      requires request != [] && request[0].Code?
      requires |request| > 1 ==> Sendable(request[1])
      requires PostLoginArgs(chownUploads, request[0].c) == Some(KindsOf(request[1..])) || PostLoginArgs(chownUploads, request[0].c).None?
      modifies this
      ensures a.Reply? ==> Answers(PostLogin(chownUploads), request[0].c, a.items)
      ensures request[0].c != PASV_CLEANUP && request[0].c != PASV_LISTEN ==> pasvListenFd == old(pasvListenFd)
      ensures request[0].c != PASV_LISTEN ==> lost == old(lost)
      ensures request[0].c == PASV_CLEANUP ==> pasvListenFd == NO_FD && a == Reply([Code(RESULT_OK)])
      ensures request[0].c == PASV_LISTEN ==> TakesOver(w) && IsListenAnswer(a, w)
      ensures request[0].c == PASV_ACTIVE ==> a == Reply([Number(if pasvListenFd != NO_FD then 1 else 0)])
      ensures request[0].c == PASV_ACCEPT ==> a == AcceptAnswer(w)
      ensures request[0].c == GET_DATA_SOCK ==> a == DataSockAnswer(request[1].n, w)
      ensures request[0].c == CHOWN && chownUploads ==> a == if w.chown then Reply([Code(RESULT_OK)]) else Ended(SystemFailure)
      ensures a == Ended(Trap(UnknownRequest)) <==> PostLoginArgs(chownUploads, request[0].c).None?
    {
      hide Answers;
      var cmd := request[0].c;
      ghost var p := PostLogin(chownUploads);
      if chownUploads && cmd == CHOWN {
        if !w.chown {
          return Ended(SystemFailure);
        }
        OneItem(p, cmd, Code(RESULT_OK));
        return Reply([Code(RESULT_OK)]);
      } else if cmd == GET_DATA_SOCK {
        assert KindsOf(request[1..])[0] == KNumber;
        a := ProcessGetDataSock(request[1].n, w);
      } else if cmd == PASV_CLEANUP {
        if pasvListenFd != NO_FD {
          pasvListenFd := NO_FD;
        }
        OneItem(p, cmd, Code(RESULT_OK));
        return Reply([Code(RESULT_OK)]);
      } else if cmd == PASV_ACTIVE {
        var active := if pasvListenFd != NO_FD then 1 else 0;
        OneItem(p, cmd, Number(active));
        return Reply([Number(active)]);
      } else if cmd == PASV_LISTEN {
        a := ProcessPasvListen(w);
      } else if cmd == PASV_ACCEPT {
        a := ProcessPasvAccept(w);
      } else {
        return Ended(Trap(UnknownRequest));
      }
    }

    /** vsf_privop_get_ftp_port_sock: bind, once more if the address is in use, and connect. */
    method GetFtpPortSock(remotePort: nat, w: World) returns (fd: int, ended: Option<Reason>)
      ensures ended == if remotePort < FIRST_PORT then Some(Trap(ReservedPort))
                       else if BindsLocally(w) then None else Some(SystemFailure)
      ensures ended.None? ==> fd == ConnectFd(w, remotePort)
    {
      if remotePort < FIRST_PORT {
        return -1, Some(Trap(ReservedPort));
      }
      for i := 0 to 2
        invariant i > 0 ==> w.local(0).InUse?
        invariant i < 2
      {
        if w.local(i).Bound? {
          break;
        }
        if !w.local(i).InUse? || i == 1 {
          return -1, Some(SystemFailure);
        }
      }
      fd := w.connect(remotePort);
      if fd < 0 {
        fd := -1;
      }
      return fd, None;
    }

    /** What the child is told about a connection to a port that arrives as an int and is cut to 16 bits. */
    function DataSockAnswer(n: int, w: World): Answer {
      if n % 65536 < FIRST_PORT then Ended(Trap(ReservedPort))
      else if !BindsLocally(w) then Ended(SystemFailure)
      else if ConnectFd(w, n % 65536) < 0 then Reply([Code(RESULT_BAD)])
      else Reply([Code(RESULT_OK), Descriptor(ConnectFd(w, n % 65536))])
    }

    /** cmd_process_get_data_sock */
    method ProcessGetDataSock(n: int, w: World) returns (a: Answer)
      ensures a == DataSockAnswer(n, w)
      ensures a.Reply? ==> Answers(PostLogin(chownUploads), GET_DATA_SOCK, a.items)
    {
      var p := PostLogin(chownUploads);
      var sock, ended := GetFtpPortSock(n % 65536, w);
      if ended.Some? {
        return Ended(ended.value);
      }
      if sock == -1 {
        OneItem(p, GET_DATA_SOCK, Code(RESULT_BAD));
        return Reply([Code(RESULT_BAD)]);
      }
      TwoItems(p, GET_DATA_SOCK, Code(RESULT_OK), Descriptor(sock));
      return Reply([Code(RESULT_OK), Descriptor(sock)]);
    }

    /** The child is told the port that was bound, or the parent gives up. */
    ghost predicate IsListenAnswer(a: Answer, w: World) {
      match a
      case Reply(items) => |items| == 1 && items[0].Number? && ListensOn(w, items[0].n)
      case Ended(reason) => reason == SystemFailure && NoPort(w)
    }

    /** cmd_process_pasv_listen */
    method ProcessPasvListen(w: World) returns (a: Answer)
      modifies this
      ensures TakesOver(w) && IsListenAnswer(a, w)
      ensures a.Reply? ==> Answers(PostLogin(chownUploads), PASV_LISTEN, a.items)
    {
      var port := Listen(w);
      if port.None? {
        return Ended(SystemFailure);
      }
      OneItem(PostLogin(chownUploads), PASV_LISTEN, Number(port.value));
      return Reply([Number(port.value)]);
    }

    function AcceptAnswer(w: World): Answer {
      var fd := AcceptFd(w, pasvPromiscuous);
      if fd < 0 then Reply([Code(RESULT_BAD), Number(fd)]) else Reply([Code(RESULT_OK), Descriptor(fd)])
    }

    /** cmd_process_pasv_accept */
    method ProcessPasvAccept(w: World) returns (a: Answer)
      ensures a == AcceptAnswer(w) && Answers(PostLogin(chownUploads), PASV_ACCEPT, a.items)
    {
      var p := PostLogin(chownUploads);
      var fd := Accept(w);
      if fd < 0 {
        TwoItems(p, PASV_ACCEPT, Code(RESULT_BAD), Number(fd));
        return Reply([Code(RESULT_BAD), Number(fd)]);
      }
      TwoItems(p, PASV_ACCEPT, Code(RESULT_OK), Descriptor(fd));
      return Reply([Code(RESULT_OK), Descriptor(fd)]);
    }
  }
}
