/** twoprocess.c: the child's side of the requests to its privileged parent. */
module TwoProcess {
  import opened Basics
  import opened PrivSock
  import opened Lockstep
  import opened PrivParent
  import opened Exits

  /** How a request changes what the parent holds. */
  twostate predicate Effect(parent: Parent, r: Request, w: World)
    reads parent
  {
    match r
    case PasvCleanup => parent.pasvListenFd == NO_FD && parent.lost == old(parent.lost)
    case PasvListen => parent.TakesOver(w)
    case _ => parent.pasvListenFd == old(parent.pasvListenFd) && parent.lost == old(parent.lost)
  }

  /** What the child sends is what the parent reads, unless it does not know the command at all. */
  lemma ItemsMatch(chownUploads: bool, r: Request)
    ensures var args := PostLoginArgs(chownUploads, Items(r)[0].c);
            args == (if r.Chown? && !chownUploads then None else Some(KindsOf(Items(r)[1..])))
  {
    var args := PostLoginArgs(chownUploads, Items(r)[0].c);
    if args.Some? {
      assert args.value == KindsOf(Items(r)[1..]);
    }
  }

  /** Between requests the child can make any proper request, and it is one that the parent will serve. */
  lemma CanAsk(chownUploads: bool, s: System, r: Request) returns (s': System)
    requires s.asker.Idle? && Proper(chownUploads, r)
    ensures Lockstep.Ask(PostLogin(chownUploads), s, s') && s'.request == Items(r)
  {
    ProperFits(chownUploads, r);
    var items := Items(r);
    s' := s.(asker := Busy(items[0].c, EncodeAll(items), []), request := items, reply := None);
  }

  /** One request and its answer. The session ends in a trap exactly if the request is not one the
      parent accepts. */
  method Ask(parent: Parent, r: Request, w: World) returns (o: Outcome, reply: seq<Item>)
    requires r.GetDataSock? ==> r.port <= LAST_PORT
    modifies parent
    ensures Effect(parent, r, w) && o == AskOutcome(parent, r, w)
    ensures o.Go? ==> Answers(PostLogin(parent.chownUploads), Items(r)[0].c, reply)
    ensures o.Go? && (r.PasvCleanup? || r.Chown?) ==> reply == [Code(RESULT_OK)]
    ensures o.Go? && r.PasvActive? ==> reply == [Number(if parent.pasvListenFd != NO_FD then 1 else 0)]
    ensures o.Go? && r.PasvListen? ==> |reply| == 1 && reply[0].Number? && parent.ListensOn(w, reply[0].n)
    ensures o.Go? && r.PasvAccept? ==> Reply(reply) == parent.AcceptAnswer(w)
    ensures o.Go? && r.GetDataSock? ==> Reply(reply) == parent.DataSockAnswer(r.port, w)
    ensures o.Traps() <==> !Proper(parent.chownUploads, r)
  {
    hide Answers;
    var request := Items(r);
    ItemsMatch(parent.chownUploads, r);
    var a := parent.ProcessRequest(request, w);
    if r.PasvListen? {
      ListenDecided(parent, w);
    }
    match a {
      case Reply(items) => return Go, items;
      case Ended(reason) => return Exit(reason), [];
    }
  }

  /** A listen cannot both succeed and fail. */
  lemma ListenDecided(parent: Parent, w: World)
    ensures parent.NoPort(w) ==> forall port :: !parent.ListensOn(w, port)
  {
  }

  /** How a request ends for the child. */
  ghost function AskOutcome(parent: Parent, r: Request, w: World): Outcome {
    match r
    case Chown(_) => if !parent.chownUploads then Exit(Trap(UnknownRequest)) else if w.chown then Go else Exit(SystemFailure)
    case GetDataSock(port) =>
      if port < FIRST_PORT then Exit(Trap(ReservedPort)) else if BindsLocally(w) then Go else Exit(SystemFailure)
    case PasvListen => if parent.NoPort(w) then Exit(SystemFailure) else Go
    case _ => Go
  }

  method PasvCleanup(parent: Parent, w: World) returns (o: Outcome)
    modifies parent
    ensures o.Go? && parent.pasvListenFd == NO_FD && parent.lost == old(parent.lost)
  {
    var reply;
    o, reply := Ask(parent, Request.PasvCleanup, w);
    if o.Go? && reply[0] != Code(RESULT_OK) {
      o := Exit(Trap(UnexpectedResult));
    }
  }

  method PasvActive(parent: Parent, w: World) returns (o: Outcome, active: bool)
    modifies parent
    ensures o.Go? && parent.pasvListenFd == old(parent.pasvListenFd) && parent.lost == old(parent.lost)
    ensures active == (parent.pasvListenFd != NO_FD)
  {
    var reply;
    o, reply := Ask(parent, Request.PasvActive, w);
    active := reply[0].n != 0;
  }

  /** vsf_two_process_listen: the child learns the port that was bound. */
  method PasvListen(parent: Parent, w: World) returns (o: Outcome, port: int)
    modifies parent
    ensures parent.TakesOver(w)
    ensures o == if parent.NoPort(w) then Exit(SystemFailure) else Go
    ensures o.Go? ==> parent.ListensOn(w, port)
  {
    var reply;
    o, reply := Ask(parent, Request.PasvListen, w);
    port := if o.Go? then reply[0].n % 65536 else 0;
  }

  /** vsf_two_process_get_pasv_fd */
  method GetPasvFd(parent: Parent, w: World) returns (o: Outcome, fd: int)
    modifies parent
    ensures parent.pasvListenFd == old(parent.pasvListenFd) && parent.lost == old(parent.lost)
    ensures o.Go? && fd == AcceptFd(w, parent.pasvPromiscuous)
  {
    var reply;
    o, reply := Ask(parent, PasvAccept, w);
    if reply[0].c == RESULT_BAD {
      return Go, reply[1].n;
    } else if reply[0].c != RESULT_OK {
      return Exit(Trap(UnexpectedResult)), 0;
    }
    return Go, reply[1].fd;
  }

  /** vsf_two_process_get_priv_data_sock */
  method GetPrivDataSock(parent: Parent, port: nat, w: World) returns (o: Outcome, fd: int)
    requires port <= LAST_PORT
    modifies parent
    ensures parent.pasvListenFd == old(parent.pasvListenFd) && parent.lost == old(parent.lost)
    ensures o == AskOutcome(parent, GetDataSock(port), w)
    ensures o.Go? ==> fd == ConnectFd(w, port)
  {
    var reply;
    o, reply := Ask(parent, GetDataSock(port), w);
    fd := -1;
    if o.Go? {
      if reply[0].c == RESULT_BAD {
        return Go, -1;
      } else if reply[0].c != RESULT_OK {
        return Exit(Trap(UnexpectedResult)), 0;
      }
      fd := reply[1].fd;
    }
  }

  /** vsf_two_process_chown_upload */
  method ChownUpload(parent: Parent, fd: int, w: World) returns (o: Outcome)
    modifies parent
    ensures parent.pasvListenFd == old(parent.pasvListenFd) && parent.lost == old(parent.lost)
    ensures o == AskOutcome(parent, Chown(fd), w)
  {
    var reply;
    o, reply := Ask(parent, Chown(fd), w);
    if o.Go? && reply[0] != Code(RESULT_OK) {
      o := Exit(Trap(UnexpectedResult));
    }
  }
}
