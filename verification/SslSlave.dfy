/** sslslave.c and readwrite.c: the process that keeps the SSL connections and serves the protocol
    process, which has only plain descriptors. */
module SslSlave {
  import opened Basics
  import opened PrivSock
  import opened Lockstep
  import opened PrivParent
  import opened Exits

  const GET_USER_CMD: Byte := 4
  const WRITE_USER_RESP: Byte := 5
  const DO_SSL_HANDSHAKE: Byte := 6
  const DO_SSL_CLOSE: Byte := 7
  const DO_SSL_READ: Byte := 8
  const DO_SSL_WRITE: Byte := 9

  // ---------------------------------------------------------------- the protocol

  function SlaveArgs(c: Byte): Option<seq<Kind>> {
    if c == WRITE_USER_RESP || c == DO_SSL_WRITE then Some([KText])
    else if c == DO_SSL_HANDSHAKE then Some([KDescriptor])
    else if c == GET_USER_CMD || c == DO_SSL_CLOSE || c == DO_SSL_READ then Some([])
    else None
  }

  function SlaveNext(c: Byte, got: seq<Item>): Option<Kind> {
    if got == [] then
      if c == DO_SSL_HANDSHAKE || c == DO_SSL_CLOSE then Some(KCode) else Some(KNumber)
    else if |got| == 1 && c == DO_SSL_READ then Some(KText)
    else if |got| == 1 && c == GET_USER_CMD && got[0].Number? && got[0].n >= 0 then Some(KText)
    else None
  }

  function SlaveProtocol(): Protocol {
    Protocol(SlaveArgs, SlaveNext)
  }

  /** The slave protocol is one that runs in step. */
  lemma SlaveResponsive()
    ensures Responsive(SlaveProtocol())
  {
    var p := SlaveProtocol();
    forall c: Byte | p.args(c).Some? ensures p.next(c, []).Some? && exists reply :: Answers(p, c, reply) {
      if c == DO_SSL_HANDSHAKE || c == DO_SSL_CLOSE {
        OneItem(p, c, Code(RESULT_BAD));
      } else if c == DO_SSL_READ {
        TwoItems(p, c, Number(-1), Text([]));
      } else {
        OneItem(p, c, Number(-1));
      }
    }
  }

  /** However the two processes are interleaved, the slave has served exactly the requests of the
      protocol process, in order and with the answers that process got. */
  lemma SlaveIsCalled(run: seq<System>, k: nat)
    requires IsRun(SlaveProtocol(), run) && k < |run|
    ensures AllCalls(SlaveProtocol(), Answered(run, k))
    ensures run[k].asker.Idle? ==> Answered(run, k) == Asked(run, k)
  {
    hide IsRun, AllCalls, Answered, Asked;
    SlaveResponsive();
    RunIsCalls(SlaveProtocol(), run, k);
  }

  /** A handler that makes a request of the slave inside another one, in any state of any run, gets its
      own answer if and only if the other has not begun or has been read to its end. */
  lemma NestedInSlave(run: seq<System>, k: nat, mine: seq<Item>)
    requires IsRun(SlaveProtocol(), run) && k < |run| && run[k].asker.Busy? && AllSendable(mine) && mine != []
    ensures Harmless(SlaveProtocol(), run[k], mine) <==>
            !Begun(run[k]) || SlaveNext(run[k].asker.cmd, run[k].asker.got).None?
  {
    hide IsRun, Harmless, Begun;
    SlaveResponsive();
    RunsInStep(SlaveProtocol(), run, k);
    NestedRequestExact(SlaveProtocol(), run[k], mine);
  }

  /** What goes wrong, when a command line is asked for between the count and the data of a read: its count
      is the length of the data, and the length of its text is what the first four bytes of the data
      spell, which is too big unless they are almost all zero. With fewer bytes it waits for more. */
  lemma MisreadInside(data: seq<Byte>, more: seq<Octet>)
    requires |data| <= MAXSTR
    ensures var rest := RawAll(data) + more;
            && Decode(SlaveNext(GET_USER_CMD, []).value, Encode(Text(data)) + more) == Got(Number(|data|), rest)
            && SlaveNext(GET_USER_CMD, [Number(|data|)]) == Some(KText)
            && (|data| >= 4 && !(0 <= Spelled(data) <= MAXSTR) ==> Decode(KText, rest) == Bad)
            && (|data| < 4 && more == [] ==> Decode(KText, rest) == Wait)
  {
    var down, rest := Encode(Text(data)) + more, RawAll(data) + more;
    assert down + [] == IntOctets(|data|) + rest;
    DecodeIntPrefix(|data|, down, [], rest);
    assert down[4..] == rest;
    if |data| >= 4 {
      FourOctets(data, more);
    }
  }

  /** The number that the first four bytes stand for. */
  function Spelled(data: seq<Byte>): int
    requires |data| >= 4
  {
    Signed(data[0] + 256 * (data[1] as int) + 65536 * (data[2] as int) + 16777216 * (data[3] as int))
  }

  lemma FourOctets(data: seq<Byte>, more: seq<Octet>)
    requires |data| >= 4
    ensures var rest := RawAll(data) + more;
            AllRaw(rest[..4]) && IntOf(rest[..4]) == Spelled(data) && DecodeInt(rest) == Got(Number(Spelled(data)), rest[4..])
  {
  }

  /** Four letters are far too big. */
  lemma LettersTooBig()
    ensures Decode(KText, RawAll([65, 66, 67, 68])) == Bad
  {
    MisreadInside([65, 66, 67, 68], []);
    assert RawAll([65, 66, 67, 68]) + [] == RawAll([65, 66, 67, 68]);
  }

  // ---------------------------------------------------------------- the slave

  predicate Unknown(request: seq<Item>) {
    request != [] && request[0].Code? && SlaveArgs(request[0].c).None?
  }

  /** What the network and SSL come to in one request: whether a handshake ends the process, is accepted,
      whether a shutdown is clean, what a read brings (None if it fails), how much a write takes, and the
      next line of the control connection with the count that goes with it (None if there is none, or it
      is too long), or that this connection is lost. */
  datatype Net = Net(
    handshakeLost: bool, accepted: bool, clean: bool, read: Option<seq<Byte>>, written: int,
    line: Option<seq<Byte>>, count: nat, controlLost: bool)

  /** What fits the buffer of a read. */
  function Piece(read: seq<Byte>): (r: seq<Byte>)
    ensures |r| <= DATA_BUFSIZE && r <= read
    ensures |read| <= DATA_BUFSIZE ==> r == read
  {
    if |read| > DATA_BUFSIZE then read[..DATA_BUFSIZE] else read
  }

  class Slave {
    var dataFd: int
    var dataSsl: bool
    /** How many requests have been taken on. */
    ghost var served: nat

    constructor ()
      ensures Clean() && served == 0
    {
      dataFd, dataSsl, served := NO_FD, false, 0;
    }

    predicate Clean()
      reads this
    {
      dataFd == NO_FD && !dataSsl
    }

    /** Between requests, a data descriptor is held exactly while there is an SSL object for it. */
    predicate Paired()
      reads this
    {
      dataFd != NO_FD <==> dataSsl
    }

    /** One round of ssl_slave. Only the handshake and the close change what the slave holds. */
    method Serve(request: seq<Item>, net: Net) returns (r: Answer)
      requires Fits(SlaveProtocol(), request) || Unknown(request)
      requires Paired()
      requires request[0].c == DO_SSL_HANDSHAKE ==> request[1].fd != NO_FD
      modifies this
      ensures Paired() && served == old(served) + 1
      ensures r.Reply? ==> Answers(SlaveProtocol(), request[0].c, r.items)
      ensures request[0].c != DO_SSL_HANDSHAKE && request[0].c != DO_SSL_CLOSE ==> dataSsl == old(dataSsl) && dataFd == old(dataFd)
      ensures request[0].c == DO_SSL_HANDSHAKE ==> r == HandshakeAnswer(old(dataSsl), net) && (r.Reply? ==> dataSsl == net.accepted && (dataSsl ==> dataFd == request[1].fd))
      ensures request[0].c == DO_SSL_CLOSE ==> Clean() && r == Reply([Result(!old(dataSsl) || net.clean)])
      ensures request[0].c == DO_SSL_READ ==> r == if old(dataSsl) then ReadAnswer(net) else Ended(Trap(NullSsl))
      ensures request[0].c == DO_SSL_WRITE ==> r == if old(dataSsl) then CountAnswer(net) else Ended(Trap(NullSsl))
      ensures request[0].c == WRITE_USER_RESP ==> r == CountAnswer(net)
      ensures request[0].c == GET_USER_CMD ==> r == LineAnswer(net)
      ensures r == Ended(Trap(UnknownRequest)) <==> Unknown(request)
    {
      hide Answers;
      var cmd := request[0].c;
      served := served + 1;
      if cmd == DO_SSL_HANDSHAKE {
        r := Handshake(request[1].fd, net);
      } else if cmd == DO_SSL_CLOSE {
        r := Close(net);
      } else if cmd == DO_SSL_READ {
        r := Read(net);
      } else if cmd == DO_SSL_WRITE {
        if !dataSsl {
          return Ended(Trap(NullSsl));
        }
        r := Count(cmd, net);
      } else if cmd == WRITE_USER_RESP {
        r := Count(cmd, net);
      } else if cmd == GET_USER_CMD {
        r := GetUserCmd(net);
      } else {
        return Ended(Trap(UnknownRequest));
      }
    }

    method Handshake(fd: int, net: Net) returns (r: Answer)
      requires Paired() && fd != NO_FD
      modifies this`dataFd, this`dataSsl
      ensures Paired() && r == HandshakeAnswer(old(dataSsl), net)
      ensures r.Reply? ==> Answers(SlaveProtocol(), DO_SSL_HANDSHAKE, r.items)
      ensures r.Reply? ==> dataSsl == net.accepted && dataFd == if net.accepted then fd else NO_FD
    {
      var result := RESULT_BAD;
      if dataFd != NO_FD || dataSsl {
        return Ended(Trap(StateNotClean));
      }
      dataFd := fd;
      if net.handshakeLost {
        dataFd := NO_FD;
        return Ended(ConnectionLost);
      }
      if net.accepted {
        dataSsl := true;
        result := RESULT_OK;
      } else {
        dataFd := NO_FD;
      }
      OneItem(SlaveProtocol(), DO_SSL_HANDSHAKE, Code(result));
      return Reply([Code(result)]);
    }

    method Close(net: Net) returns (r: Answer)
      requires Paired()
      modifies this`dataFd, this`dataSsl
      ensures Clean() && r == Reply([Result(!old(dataSsl) || net.clean)]) && Answers(SlaveProtocol(), DO_SSL_CLOSE, r.items)
    {
      var result := RESULT_BAD;
      if dataFd == NO_FD && !dataSsl {
        result := RESULT_OK;
      } else {
        dataSsl := false;
        if net.clean {
          result := RESULT_OK;
        }
        dataFd := NO_FD;
      }
      OneItem(SlaveProtocol(), DO_SSL_CLOSE, Code(result));
      return Reply([Code(result)]);
    }

    method Read(net: Net) returns (r: Answer)
      ensures r == if dataSsl then ReadAnswer(net) else Ended(Trap(NullSsl))
      ensures r.Reply? ==> Answers(SlaveProtocol(), DO_SSL_READ, r.items)
    {
      if !dataSsl {
        return Ended(Trap(NullSsl));
      }
      if net.read.None? {
        TwoItems(SlaveProtocol(), DO_SSL_READ, Number(-1), Text([]));
        return Reply([Number(-1), Text([])]);
      }
      var data := Piece(net.read.value);
      TwoItems(SlaveProtocol(), DO_SSL_READ, Number(|data|), Text(data));
      return Reply([Number(|data|), Text(data)]);
    }

    method Count(cmd: Byte, net: Net) returns (r: Answer)
      requires cmd == DO_SSL_WRITE || cmd == WRITE_USER_RESP
      ensures r == CountAnswer(net) && Answers(SlaveProtocol(), cmd, r.items)
    {
      var written := if IsInt32(net.written) then net.written else -1;
      OneItem(SlaveProtocol(), cmd, Number(written));
      return Reply([Number(written)]);
    }

    method GetUserCmd(net: Net) returns (r: Answer)
      ensures r == LineAnswer(net)
      ensures r.Reply? ==> Answers(SlaveProtocol(), GET_USER_CMD, r.items)
    {
      if net.controlLost {
        return Ended(ConnectionLost);
      }
      if net.line.None? || |net.line.value| > MAXSTR || !IsInt32(net.count) {
        OneItem(SlaveProtocol(), GET_USER_CMD, Number(-1));
        return Reply([Number(-1)]);
      }
      TwoItems(SlaveProtocol(), GET_USER_CMD, Number(net.count), Text(net.line.value));
      return Reply([Number(net.count), Text(net.line.value)]);
    }
  }

  // ---------------------------------------------------------------- what the slave answers

  function Result(ok: bool): Item {
    Code(if ok then RESULT_OK else RESULT_BAD)
  }

  function HandshakeAnswer(held: bool, net: Net): Answer {
    if held then Ended(Trap(StateNotClean))
    else if net.handshakeLost then Ended(ConnectionLost)
    else Reply([Result(net.accepted)])
  }

  function ReadAnswer(net: Net): Answer {
    match net.read
    case None => Reply([Number(-1), Text([])])
    case Some(read) => Reply([Number(|Piece(read)|), Text(Piece(read))])
  }

  function CountAnswer(net: Net): Answer {
    Reply([Number(if IsInt32(net.written) then net.written else -1)])
  }

  function LineAnswer(net: Net): Answer {
    if net.controlLost then Ended(ConnectionLost)
    else if net.line.None? || |net.line.value| > MAXSTR || !IsInt32(net.count) then Reply([Number(-1)])
    else Reply([Number(net.count), Text(net.line.value)])
  }
}
