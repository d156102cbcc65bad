/** Two processes talking over a socket pair, one asking and one answering, with their steps and the
    single bytes on the wire interleaved in every possible way. A protocol says which items an answerer
    reads for each command, and which items the asker then reads depending on what it has read so far;
    both sides choose what to read next by these tables alone. */
module Lockstep {
  import opened Basics
  import opened PrivSock

  datatype Protocol = Protocol(
    args: Byte -> Option<seq<Kind>>,
    next: (Byte, seq<Item>) -> Option<Kind>)

  /** The asker is between requests, or busy with one: what it has yet to write, what it has read. */
  datatype Asker = Idle | Busy(cmd: Byte, unsent: seq<Octet>, got: seq<Item>)

  /** The answerer listens (once its answer is written), or is reading the arguments of a command. */
  datatype Answerer = Listening(unsent: seq<Octet>) | Reading(cmd: Byte, kinds: seq<Kind>, got: seq<Item>)

  /** The two processes, the two directions of the wire, and what has been asked and answered. */
  datatype System = System(
    asker: Asker, answerer: Answerer, up: seq<Octet>, down: seq<Octet>,
    request: seq<Item>, reply: Option<seq<Item>>)

  const START := System(Idle, Listening([]), [], [], [], None)

  // ---------------------------------------------------------------- items on the wire

  predicate AllSendable(items: seq<Item>) {
    forall i :: 0 <= i < |items| ==> Sendable(items[i])
  }

  function EncodeAll(items: seq<Item>): seq<Octet>
    requires AllSendable(items)
  {
    if items == [] then [] else Encode(items[0]) + EncodeAll(items[1..])
  }

  function KindsOf(items: seq<Item>): (r: seq<Kind>)
    ensures |r| == |items| && forall i :: 0 <= i < |items| ==> r[i] == KindOf(items[i])
  {
    seq(|items|, i requires 0 <= i < |items| => KindOf(items[i]))
  }

  /** A request the protocol knows: a command and the arguments its answerer will read. */
  predicate Fits(p: Protocol, request: seq<Item>) {
    && request != [] && request[0].Code? && AllSendable(request)
    && p.args(request[0].c) == Some(KindsOf(request[1..]))
  }

  /** An answer that the asker reads completely and no further. */
  ghost predicate Answers(p: Protocol, cmd: Byte, reply: seq<Item>) {
    && AllSendable(reply)
    && p.next(cmd, reply) == None
    && forall i :: 0 <= i < |reply| ==> p.next(cmd, reply[..i]) == Some(KindOf(reply[i]))
  }

  // ---------------------------------------------------------------- steps

  ghost predicate Ask(p: Protocol, s: System, s': System) {
    && s.asker.Idle? && Fits(p, s'.request)
    && s' == s.(asker := Busy(s'.request[0].c, EncodeAll(s'.request), []), request := s'.request, reply := None)
  }

  ghost predicate AskerWrites(s: System, s': System) {
    && s.asker.Busy? && s.asker.unsent != []
    && s' == s.(asker := s.asker.(unsent := s.asker.unsent[1..]), up := s.up + [s.asker.unsent[0]])
  }

  ghost predicate AskerReads(p: Protocol, s: System, s': System) {
    && s.asker.Busy? && s.asker.unsent == []
    && var kind := p.next(s.asker.cmd, s.asker.got);
    && kind.Some?
    && var r := Decode(kind.value, s.down);
    && r.Got?
    && s' == s.(asker := s.asker.(got := s.asker.got + [r.item]), down := r.rest)
  }

  ghost predicate AskerFinishes(p: Protocol, s: System, s': System) {
    && s.asker.Busy? && s.asker.unsent == []
    && p.next(s.asker.cmd, s.asker.got) == None
    && s' == s.(asker := Idle)
  }

  ghost predicate AnswererReadsCommand(p: Protocol, s: System, s': System) {
    && s.answerer.Listening? && s.answerer.unsent == []
    && var r := Decode(KCode, s.up);
    && r.Got? && r.item.Code?
    && var kinds := p.args(r.item.c);
    && kinds.Some?
    && s' == s.(answerer := Reading(r.item.c, kinds.value, []), up := r.rest)
  }

  ghost predicate AnswererReadsArgument(s: System, s': System) {
    && s.answerer.Reading? && s.answerer.kinds != []
    && var r := Decode(s.answerer.kinds[0], s.up);
    && r.Got?
    && s' == s.(answerer := Reading(s.answerer.cmd, s.answerer.kinds[1..], s.answerer.got + [r.item]), up := r.rest)
  }

  ghost predicate AnswererAnswers(p: Protocol, s: System, s': System) {
    && s.answerer.Reading? && s.answerer.kinds == []
    && s'.reply.Some? && Answers(p, s.answerer.cmd, s'.reply.value)
    && s' == s.(answerer := Listening(EncodeAll(s'.reply.value)), reply := s'.reply)
  }

  ghost predicate AnswererWrites(s: System, s': System) {
    && s.answerer.Listening? && s.answerer.unsent != []
    && s' == s.(answerer := Listening(s.answerer.unsent[1..]), down := s.down + [s.answerer.unsent[0]])
  }

  ghost predicate Step(p: Protocol, s: System, s': System) {
    || Ask(p, s, s')
    || AskerWrites(s, s')
    || AskerReads(p, s, s')
    || AskerFinishes(p, s, s')
    || AnswererReadsCommand(p, s, s')
    || AnswererReadsArgument(s, s')
    || AnswererAnswers(p, s, s')
    || AnswererWrites(s, s')
  }

  /** One side is about to give up: a broken item, or a command the answerer does not know. */
  ghost predicate Trapped(p: Protocol, s: System) {
    || (s.answerer.Listening? && s.answerer.unsent == [] && Decode(KCode, s.up).Bad?)
    || (s.answerer.Listening? && s.answerer.unsent == [] && Decode(KCode, s.up).Got?
        && Decode(KCode, s.up).item.Code? && p.args(Decode(KCode, s.up).item.c).None?)
    || (s.answerer.Reading? && s.answerer.kinds != [] && Decode(s.answerer.kinds[0], s.up).Bad?)
    || (s.asker.Busy? && s.asker.unsent == [] && p.next(s.asker.cmd, s.asker.got).Some?
        && Decode(p.next(s.asker.cmd, s.asker.got).value, s.down).Bad?)
  }

  // ---------------------------------------------------------------- the invariant

  /** The request is on its way: nothing of it, or all but `rest`, has been read. */
  ghost predicate Asking(p: Protocol, s: System, rest: seq<Item>) {
    && s.asker.Busy? && s.asker.got == [] && s.down == [] && s.reply == None
    && Fits(p, s.request) && s.asker.cmd == s.request[0].c
    && AllSendable(rest) && s.up + s.asker.unsent == EncodeAll(rest)
    && match s.answerer
       case Listening(unsent) => unsent == [] && rest == s.request
       case Reading(cmd, kinds, got) =>
         cmd == s.asker.cmd && kinds == KindsOf(rest) && s.request[1..] == got + rest
  }

  /** The answer is on its way: all but `rest` has been read. */
  ghost predicate Answering(p: Protocol, s: System, rest: seq<Item>) {
    && s.asker.Busy? && s.asker.unsent == [] && s.up == []
    && s.answerer.Listening?
    && s.reply.Some? && Answers(p, s.asker.cmd, s.reply.value)
    && s.reply.value == s.asker.got + rest
    && AllSendable(rest) && s.down + s.answerer.unsent == EncodeAll(rest)
  }

  ghost predicate AtRest(s: System) {
    s.asker.Idle? && s.answerer == Listening([]) && s.up == [] && s.down == []
  }

  ghost predicate InStep(p: Protocol, s: System) {
    AtRest(s) || (exists rest :: Asking(p, s, rest)) || (exists rest :: Answering(p, s, rest))
  }

  /** Every known command is answered by at least one item, and can be answered. */
  ghost predicate Responsive(p: Protocol) {
    forall c: Byte :: p.args(c).Some? ==> p.next(c, []).Some? && exists reply :: Answers(p, c, reply)
  }

  // ---------------------------------------------------------------- decoding within the invariant

  /** The next item of a stream of items, as far as it has arrived. */
  lemma NextItem(items: seq<Item>, up: seq<Octet>, more: seq<Octet>)
    requires items != [] && AllSendable(items) && up + more == EncodeAll(items)
    ensures var r := Decode(KindOf(items[0]), up);
            if |up| < |Encode(items[0])| then r.Wait?
            else r == Got(items[0], up[|Encode(items[0])|..]) && r.rest + more == EncodeAll(items[1..])
    ensures more == [] ==> Decode(KindOf(items[0]), up).Got?
  {
    DecodePrefix(items[0], up, more, EncodeAll(items[1..]));
  }

  lemma NothingArrived(kind: Kind)
    ensures Decode(kind, []).Wait?
  {
  }

  /** Which item the asker reads next. */
  lemma NextRead(p: Protocol, s: System, rest: seq<Item>)
    requires Answering(p, s, rest)
    ensures p.next(s.asker.cmd, s.asker.got) == if rest == [] then None else Some(KindOf(rest[0]))
  {
    var reply, got := s.reply.value, s.asker.got;
    if rest == [] {
      assert reply == got;
    } else {
      assert reply[..|got|] == got && reply[|got|] == rest[0];
    }
  }

  // ---------------------------------------------------------------- every step keeps the invariant

  lemma MoveOne(got: seq<Item>, rest: seq<Item>)
    requires rest != []
    ensures got + rest == (got + [rest[0]]) + rest[1..]
  {
  }

  lemma AskKeeps(p: Protocol, s: System, s': System)
    requires AtRest(s) && Ask(p, s, s')
    ensures Asking(p, s', s'.request)
  {
    assert [] + EncodeAll(s'.request) == EncodeAll(s'.request);
  }

  lemma AskerWritesKeeps(p: Protocol, s: System, s': System, rest: seq<Item>)
    requires Asking(p, s, rest) && AskerWrites(s, s')
    ensures Asking(p, s', rest)
  {
    hide EncodeAll, Fits;
    var u := s.asker.unsent;
    assert (s.up + [u[0]]) + u[1..] == s.up + u;
  }

  lemma AskerReadsKeeps(p: Protocol, s: System, s': System, rest: seq<Item>)
    requires Answering(p, s, rest) && AskerReads(p, s, s')
    ensures rest != [] && Answering(p, s', rest[1..])
  {
    hide Decode, EncodeAll, Answers;
    NextRead(p, s, rest);
    NextItem(rest, s.down, s.answerer.unsent);
    MoveOne(s.asker.got, rest);
  }

  lemma AskerFinishesKeeps(p: Protocol, s: System, s': System, rest: seq<Item>)
    requires Answering(p, s, rest) && AskerFinishes(p, s, s')
    ensures AtRest(s') && s.asker.got == s.reply.value
  {
    NextRead(p, s, rest);
    assert rest == [];
    assert s.asker.got + rest == s.asker.got;
    assert |s.down + s.answerer.unsent| == 0;
  }

  lemma AnswererReadsCommandKeeps(p: Protocol, s: System, s': System, rest: seq<Item>)
    requires Asking(p, s, rest) && AnswererReadsCommand(p, s, s')
    ensures rest != [] && Asking(p, s', rest[1..])
  {
    NextItem(rest, s.up, s.asker.unsent);
    assert [] + rest[1..] == rest[1..];
  }

  lemma AnswererReadsArgumentKeeps(p: Protocol, s: System, s': System, rest: seq<Item>)
    requires Asking(p, s, rest) && AnswererReadsArgument(s, s')
    ensures rest != [] && Asking(p, s', rest[1..])
  {
    hide Decode, EncodeAll, Fits;
    assert s.answerer.kinds[0] == KindOf(rest[0]);
    NextItem(rest, s.up, s.asker.unsent);
    var got := s.answerer.got;
    MoveOne(got, rest);
    assert KindsOf(rest)[1..] == KindsOf(rest[1..]);
  }

  lemma AnswererAnswersKeeps(p: Protocol, s: System, s': System, rest: seq<Item>)
    requires Asking(p, s, rest) && AnswererAnswers(p, s, s')
    ensures Answering(p, s', s'.reply.value)
    ensures s.answerer.got == s.request[1..]
  {
    assert rest == [];
    assert s.answerer.got + rest == s.answerer.got;
    assert |s.up + s.asker.unsent| == 0;
    assert [] + s'.reply.value == s'.reply.value;
    assert [] + EncodeAll(s'.reply.value) == EncodeAll(s'.reply.value);
  }

  lemma AnswererWritesKeeps(p: Protocol, s: System, s': System, rest: seq<Item>)
    requires Answering(p, s, rest) && AnswererWrites(s, s')
    ensures Answering(p, s', rest)
  {
    hide EncodeAll, Answers;
    var u := s.answerer.unsent;
    assert (s.down + [u[0]]) + u[1..] == s.down + u;
  }

  lemma StepFromAsking(p: Protocol, s: System, s': System, rest: seq<Item>)
    requires Responsive(p) && Asking(p, s, rest) && Step(p, s, s')
    ensures InStep(p, s')
  {
    hide Decode, EncodeAll, Fits, Answers;
    assert !AskerReads(p, s, s') && !AskerFinishes(p, s, s') && !Ask(p, s, s') && !AnswererWrites(s, s') by {
      AskingBlocked(p, s, s', rest);
    }
    hide Asking, Answering;
    if AskerWrites(s, s') {
      AskerWritesKeeps(p, s, s', rest);
    } else if AnswererReadsCommand(p, s, s') {
      AnswererReadsCommandKeeps(p, s, s', rest);
    } else if AnswererReadsArgument(s, s') {
      AnswererReadsArgumentKeeps(p, s, s', rest);
    } else {
      AnswererAnswersKeeps(p, s, s', rest);
    }
  }

  /** While the request is on its way the asker can only write, and the answerer only read or answer. */
  lemma AskingBlocked(p: Protocol, s: System, s': System, rest: seq<Item>)
    requires Responsive(p) && Asking(p, s, rest)
    ensures !AskerReads(p, s, s') && !AskerFinishes(p, s, s') && !Ask(p, s, s') && !AnswererWrites(s, s')
  {
    if p.next(s.asker.cmd, []).Some? {
      NothingArrived(p.next(s.asker.cmd, []).value);
    }
    assert p.args(s.asker.cmd).Some?;
  }

  lemma AnsweringBlocked(p: Protocol, s: System, s': System, rest: seq<Item>)
    requires Answering(p, s, rest)
    ensures !Ask(p, s, s') && !AskerWrites(s, s') && !AnswererReadsCommand(p, s, s')
    ensures !AnswererReadsArgument(s, s') && !AnswererAnswers(p, s, s')
  {
    NothingArrived(KCode);
  }

  lemma StepFromAnswering(p: Protocol, s: System, s': System, rest: seq<Item>)
    requires Answering(p, s, rest) && Step(p, s, s')
    ensures InStep(p, s')
  {
    AnsweringBlocked(p, s, s', rest);
    hide Asking, Answering;
    if AskerReads(p, s, s') {
      AskerReadsKeeps(p, s, s', rest);
    } else if AskerFinishes(p, s, s') {
      AskerFinishesKeeps(p, s, s', rest);
    } else {
      AnswererWritesKeeps(p, s, s', rest);
    }
  }

  lemma StepFromRest(p: Protocol, s: System, s': System)
    requires AtRest(s) && Step(p, s, s')
    ensures InStep(p, s')
  {
    NothingArrived(KCode);
    assert Ask(p, s, s');
    AskKeeps(p, s, s');
  }

  lemma StepKeepsInStep(p: Protocol, s: System, s': System)
    requires Responsive(p) && InStep(p, s) && Step(p, s, s')
    ensures InStep(p, s')
  {
    hide Asking, Answering, Step;
    if AtRest(s) {
      StepFromRest(p, s, s');
    } else if exists rest :: Asking(p, s, rest) {
      var rest :| Asking(p, s, rest);
      StepFromAsking(p, s, s', rest);
    } else {
      var rest :| Answering(p, s, rest);
      StepFromAnswering(p, s, s', rest);
    }
  }

  // ---------------------------------------------------------------- what the invariant gives

  ghost predicate IsRun(p: Protocol, run: seq<System>) {
    run != [] && run[0] == START && forall i :: 0 <= i < |run| - 1 ==> Step(p, run[i], run[i + 1])
  }

  /** Every state of every run, in every interleaving, is in step. */
  lemma {:induction false} RunsInStep(p: Protocol, run: seq<System>, k: nat)
    requires Responsive(p) && IsRun(p, run) && k < |run|
    ensures InStep(p, run[k])
  {
    hide Step, Asking, Answering;
    if k > 0 {
      RunsInStep(p, run, k - 1);
      assert Step(p, run[k - 1], run[(k - 1) + 1]);
      StepKeepsInStep(p, run[k - 1], run[k]);
    }
  }

  /** At every request boundary both directions are empty and the answerer listens. */
  lemma BoundaryClean(p: Protocol, s: System)
    requires InStep(p, s) && s.asker.Idle?
    ensures s.up == [] && s.down == [] && s.answerer == Listening([])
  {
  }

  /** Neither side ever receives something it cannot make sense of. */
  lemma NeverTrapped(p: Protocol, s: System)
    requires InStep(p, s)
    ensures !Trapped(p, s)
  {
    if AtRest(s) {
      NothingArrived(KCode);
    } else if exists rest :: Asking(p, s, rest) {
      var rest :| Asking(p, s, rest);
      AskingNotTrapped(p, s, rest);
    } else {
      var rest :| Answering(p, s, rest);
      AnsweringNotTrapped(p, s, rest);
    }
  }

  lemma AskingNotTrapped(p: Protocol, s: System, rest: seq<Item>)
    requires Asking(p, s, rest)
    ensures !Trapped(p, s)
  {
    if p.next(s.asker.cmd, []).Some? {
      NothingArrived(p.next(s.asker.cmd, []).value);
    }
    if rest != [] {
      NextItem(rest, s.up, s.asker.unsent);
      assert KindsOf(rest)[0] == KindOf(rest[0]);
    }
  }

  lemma AnsweringNotTrapped(p: Protocol, s: System, rest: seq<Item>)
    requires Answering(p, s, rest)
    ensures !Trapped(p, s)
  {
    NothingArrived(KCode);
    NextRead(p, s, rest);
    if rest != [] {
      NextItem(rest, s.down, s.answerer.unsent);
    }
  }

  // ---------------------------------------------------------------- every request is completed

  lemma AskingCanMove(p: Protocol, s: System, rest: seq<Item>) returns (s': System)
    requires Responsive(p) && Asking(p, s, rest)
    ensures Step(p, s, s')
  {
    hide Answers;
    var u := s.asker.unsent;
    if u != [] {
      s' := s.(asker := s.asker.(unsent := u[1..]), up := s.up + [u[0]]);
      assert AskerWrites(s, s');
    } else if rest != [] {
      NextItem(rest, s.up, []);
      var r := Decode(KindOf(rest[0]), s.up);
      if s.answerer.Listening? {
        s' := s.(answerer := Reading(r.item.c, p.args(r.item.c).value, []), up := r.rest);
        assert AnswererReadsCommand(p, s, s');
      } else {
        assert KindsOf(rest)[0] == KindOf(rest[0]);
        s' := s.(answerer := Reading(s.answerer.cmd, s.answerer.kinds[1..], s.answerer.got + [r.item]), up := r.rest);
        assert AnswererReadsArgument(s, s');
      }
    } else {
      var reply :| Answers(p, s.answerer.cmd, reply);
      AnswersSendable(p, s.answerer.cmd, reply);
      s' := s.(answerer := Listening(EncodeAll(reply)), reply := Some(reply));
      assert AnswererAnswers(p, s, s');
    }
  }

  lemma AnswersSendable(p: Protocol, cmd: Byte, reply: seq<Item>)
    requires Answers(p, cmd, reply)
    ensures AllSendable(reply)
  {
  }

  lemma AnsweringCanMove(p: Protocol, s: System, rest: seq<Item>) returns (s': System)
    requires Answering(p, s, rest)
    ensures Step(p, s, s')
  {
    var u := s.answerer.unsent;
    NextRead(p, s, rest);
    if u != [] {
      s' := s.(answerer := Listening(u[1..]), down := s.down + [u[0]]);
      assert AnswererWrites(s, s');
    } else if rest != [] {
      NextItem(rest, s.down, []);
      var r := Decode(KindOf(rest[0]), s.down);
      s' := s.(asker := s.asker.(got := s.asker.got + [r.item]), down := r.rest);
      assert AskerReads(p, s, s');
    } else {
      s' := s.(asker := Idle);
      assert AskerFinishes(p, s, s');
    }
  }

  /** Neither side waits for something the other will not send: a request under way can always go on. */
  lemma NoDeadlock(p: Protocol, s: System) returns (s': System)
    requires Responsive(p) && InStep(p, s) && s.asker.Busy?
    ensures Step(p, s, s')
  {
    hide Asking, Answering, Step;
    assert !AtRest(s);
    if exists rest :: Asking(p, s, rest) {
      var rest :| Asking(p, s, rest);
      s' := AskingCanMove(p, s, rest);
    } else {
      var rest :| Answering(p, s, rest);
      s' := AnsweringCanMove(p, s, rest);
    }
  }

  /** How much is left of a request: first the asking, then the answering. */
  function Phase(s: System): nat {
    if s.asker.Idle? then 0 else if s.reply.None? then 2 else 1
  }

  function Left(s: System): nat {
    if s.asker.Idle? then 0
    else if s.reply.None? then 2 * |s.asker.unsent| + |s.up|
    else 2 * (match s.answerer case Listening(unsent) => |unsent| case Reading(_, _, _) => 0) + |s.down|
  }

  lemma AskingAdvances(p: Protocol, s: System, s': System, rest: seq<Item>)
    requires Responsive(p) && Asking(p, s, rest) && Step(p, s, s')
    ensures Phase(s') < Phase(s) || (Phase(s') == Phase(s) && Left(s') < Left(s))
  {
    AskingBlocked(p, s, s', rest);
    if rest != [] {
      NextItem(rest, s.up, s.asker.unsent);
      assert KindsOf(rest)[0] == KindOf(rest[0]);
    }
  }

  lemma AnsweringAdvances(p: Protocol, s: System, s': System, rest: seq<Item>)
    requires Answering(p, s, rest) && Step(p, s, s')
    ensures Phase(s') < Phase(s) || (Phase(s') == Phase(s) && Left(s') < Left(s))
  {
    AnsweringBlocked(p, s, s', rest);
    NextRead(p, s, rest);
    if rest != [] {
      NextItem(rest, s.down, s.answerer.unsent);
    }
  }

  /** Every step of a request under way brings its end nearer, so it is completed whatever the
      interleaving. */
  lemma RequestAdvances(p: Protocol, s: System, s': System)
    requires Responsive(p) && InStep(p, s) && s.asker.Busy? && Step(p, s, s')
    ensures Phase(s') < Phase(s) || (Phase(s') == Phase(s) && Left(s') < Left(s))
  {
    hide Asking, Answering, Step, Phase, Left;
    assert !AtRest(s);
    if exists rest :: Asking(p, s, rest) {
      var rest :| Asking(p, s, rest);
      AskingAdvances(p, s, s', rest);
    } else {
      var rest :| Answering(p, s, rest);
      AnsweringAdvances(p, s, s', rest);
    }
  }

  /** Each side ends up with exactly what the other meant. */
  lemma Faithful(p: Protocol, s: System, s': System)
    requires Responsive(p) && InStep(p, s)
    ensures AnswererAnswers(p, s, s') ==> [Code(s.answerer.cmd)] + s.answerer.got == s.request
    ensures AskerFinishes(p, s, s') ==> s.reply == Some(s.asker.got)
  {
    hide Asking, Answering;
    if AnswererAnswers(p, s, s') {
      var rest := AskingWhenAnswering(p, s);
      RequestRead(p, s, s', rest);
    }
    if AskerFinishes(p, s, s') {
      var rest := AnsweringWhenFinishing(p, s, s');
      AskerFinishesKeeps(p, s, s', rest);
      ReplyKnown(p, s, rest);
    }
  }

  lemma AskingWhenAnswering(p: Protocol, s: System) returns (rest: seq<Item>)
    requires InStep(p, s) && s.answerer.Reading?
    ensures Asking(p, s, rest)
  {
    rest :| Asking(p, s, rest);
  }

  lemma RequestRead(p: Protocol, s: System, s': System, rest: seq<Item>)
    requires Asking(p, s, rest) && AnswererAnswers(p, s, s')
    ensures [Code(s.answerer.cmd)] + s.answerer.got == s.request
  {
    hide Answers, EncodeAll, KindsOf;
    AnswererAnswersKeeps(p, s, s', rest);
    assert s.request == [s.request[0]] + s.request[1..];
  }

  lemma AnsweringWhenFinishing(p: Protocol, s: System, s': System) returns (rest: seq<Item>)
    requires Responsive(p) && InStep(p, s) && AskerFinishes(p, s, s')
    ensures Answering(p, s, rest)
  {
    assert forall r :: !Asking(p, s, r) by {
      forall r ensures !Asking(p, s, r) {
        if Asking(p, s, r) {
          AskingBlocked(p, s, s', r);
        }
      }
    }
    rest :| Answering(p, s, rest);
  }

  lemma ReplyKnown(p: Protocol, s: System, rest: seq<Item>)
    requires Answering(p, s, rest)
    ensures s.reply.Some?
  {
  }

  // ---------------------------------------------------------------- runs as sequences of calls

  /** A request together with its answer. */
  datatype Exchange = Exchange(request: seq<Item>, reply: seq<Item>)

  /** One call: a request of the protocol, and an answer that this request may have. */
  ghost predicate IsCall(p: Protocol, e: Exchange) {
    Fits(p, e.request) && Answers(p, e.request[0].c, e.reply)
  }

  /** What the asker has asked and been answered, in the first k steps of a run. */
  function Asked(run: seq<System>, k: nat): seq<Exchange>
    requires k < |run|
  {
    if k == 0 then []
    else
      var s := run[k - 1];
      Asked(run, k - 1) + if s.asker.Busy? && run[k].asker.Idle? then [Exchange(s.request, s.asker.got)] else []
  }

  /** What the answerer has been asked and has answered. */
  function Answered(run: seq<System>, k: nat): seq<Exchange>
    requires k < |run|
  {
    if k == 0 then []
    else
      var s := run[k - 1];
      Answered(run, k - 1) +
      if s.answerer.Reading? && run[k].answerer.Listening? && run[k].reply.Some?
      then [Exchange([Code(s.answerer.cmd)] + s.answerer.got, run[k].reply.value)] else []
  }

  /** The exchange that the answerer has finished and the asker has not. */
  function Underway(s: System): seq<Exchange> {
    if s.asker.Busy? && s.reply.Some? then [Exchange(s.request, s.reply.value)] else []
  }

  ghost predicate AllCalls(p: Protocol, es: seq<Exchange>) {
    forall i :: 0 <= i < |es| ==> IsCall(p, es[i])
  }

  /** What one step adds on the asker's side and on the answerer's. */
  lemma StepExchanges(p: Protocol, s: System, s': System)
    requires Responsive(p) && InStep(p, s) && Step(p, s, s')
    ensures s.answerer.Reading? && s'.answerer.Listening? ==>
              Underway(s) == [] && s'.reply.Some? && !(s.asker.Busy? && s'.asker.Idle?)
              && Underway(s') == [Exchange([Code(s.answerer.cmd)] + s.answerer.got, s'.reply.value)]
              && AllCalls(p, Underway(s'))
    ensures s.asker.Busy? && s'.asker.Idle? ==>
              Underway(s) == [Exchange(s.request, s.asker.got)] && Underway(s') == []
    ensures !(s.answerer.Reading? && s'.answerer.Listening?) && !(s.asker.Busy? && s'.asker.Idle?) ==>
              Underway(s') == Underway(s)
  {
    hide Asking, Answering, Answers, Fits, Decode, EncodeAll;
    Faithful(p, s, s');
    if AnswererAnswers(p, s, s') {
      var rest := AskingWhenAnswering(p, s);
      CallMade(p, s, s', rest);
    }
    if Ask(p, s, s') {
      assert s.asker.Idle?;
    }
  }

  lemma CallMade(p: Protocol, s: System, s': System, rest: seq<Item>)
    requires Asking(p, s, rest) && AnswererAnswers(p, s, s')
    ensures s.asker.Busy? && s.reply.None? && s'.asker.Busy? && s'.request == s.request && s'.reply.Some?
    ensures IsCall(p, Exchange(s.request, s'.reply.value))
  {
  }

  /** Every run is a sequence of calls, however its steps are interleaved: in every state of it the answerer has
      answered, in order, exactly what the asker has asked and been answered, and perhaps one call more
      whose answer is still on its way. */
  lemma {:induction false} RunIsCalls(p: Protocol, run: seq<System>, k: nat)
    requires Responsive(p) && IsRun(p, run) && k < |run|
    ensures Answered(run, k) == Asked(run, k) + Underway(run[k])
    ensures AllCalls(p, Answered(run, k))
  {
    hide Step, Answers, Responsive, IsCall, InStep;
    if k > 0 {
      RunIsCalls(p, run, k - 1);
      RunsInStep(p, run, k - 1);
      assert Step(p, run[k - 1], run[(k - 1) + 1]);
      StepExchanges(p, run[k - 1], run[k]);
    }
  }

  /** Whoever writes is read from: while one side has something to send, the other is waiting to receive.
      So a wire that holds only a few bytes is emptied and never blocks a writer for good. */
  lemma WriterMeetsReader(p: Protocol, s: System)
    requires InStep(p, s)
    ensures s.asker.Busy? && s.asker.unsent != [] ==>
              (s.answerer == Listening([]) || (s.answerer.Reading? && s.answerer.kinds != []))
    ensures s.answerer.Listening? && s.answerer.unsent != [] ==>
              s.asker.Busy? && s.asker.unsent == [] && p.next(s.asker.cmd, s.asker.got).Some?
  {
    hide Asking, Answering;
    if rest :| Asking(p, s, rest) {
      RequestIsRead(p, s, rest);
    } else if rest :| Answering(p, s, rest) {
      ReplyIsRead(p, s, rest);
    }
  }

  lemma RequestIsRead(p: Protocol, s: System, rest: seq<Item>)
    requires Asking(p, s, rest)
    ensures s.asker.Busy?
    ensures s.asker.unsent != [] ==>
              (s.answerer == Listening([]) || (s.answerer.Reading? && s.answerer.kinds != []))
    ensures s.answerer.Listening? ==> s.answerer.unsent == []
  {
  }

  lemma ReplyIsRead(p: Protocol, s: System, rest: seq<Item>)
    requires Answering(p, s, rest)
    ensures s.asker.Busy? && s.asker.unsent == []
    ensures s.answerer.Listening? && s.answerer.unsent != [] ==> p.next(s.asker.cmd, s.asker.got).Some?
  {
    NextRead(p, s, rest);
  }

  // ---------------------------------------------------------------- a request inside another

  /** A signal handler may ask again before the answer to the request under way has been read. What
      is still to come of that answer, `rest`, then precedes the answer to the handler, `mine`. The handler
      gets its own answer, and leaves its own rest. */
  ghost predicate ReadsOwn(rest: seq<Item>, mine: seq<Item>)
    requires AllSendable(rest) && AllSendable(mine) && mine != []
  {
    Decode(KindOf(mine[0]), EncodeAll(rest) + EncodeAll(mine)) == Got(mine[0], EncodeAll(mine[1..]))
  }

  lemma {:induction false} EncodeAllEmpty(items: seq<Item>)
    requires AllSendable(items)
    ensures |EncodeAll(items)| == 0 <==> items == []
  {
  }

  /** It does so if and only if nothing is still to come. */
  lemma ReadsOwnExact(rest: seq<Item>, mine: seq<Item>)
    requires AllSendable(rest) && AllSendable(mine) && mine != []
    ensures ReadsOwn(rest, mine) <==> rest == []
  {
    hide Decode, Encode;
    EncodeAllEmpty(rest);
    var down := EncodeAll(rest) + EncodeAll(mine);
    if rest == [] {
      assert down == EncodeAll(mine) && down + [] == EncodeAll(mine);
      NextItem(mine, down, []);
      assert Decode(KindOf(mine[0]), down).rest + [] == Decode(KindOf(mine[0]), down).rest;
    }
    if ReadsOwn(rest, mine) {
      DecodeConsumes(KindOf(mine[0]), down);
    }
  }

  /** The first byte of the request has been written, so the request will be served before any other. */
  predicate Begun(s: System) {
    s.asker.Busy? && (s.reply.Some? || (AllSendable(s.request) && s.asker.unsent != EncodeAll(s.request)))
  }

  /** What the asker has still to read when the answer to its request is complete. */
  ghost predicate ToCome(p: Protocol, s: System, rest: seq<Item>) {
    Answering(p, s, rest) || (exists left :: Asking(p, s, left) && Answers(p, s.asker.cmd, rest))
  }

  /** Once a request has begun, another one gets its own answer if and only if there is nothing more to
      read for the first. */
  lemma NestedExact(p: Protocol, s: System, rest: seq<Item>, mine: seq<Item>)
    requires Responsive(p) && s.asker.Busy? && ToCome(p, s, rest)
    requires AllSendable(mine) && mine != []
    ensures AllSendable(rest)
    ensures ReadsOwn(rest, mine) <==> p.next(s.asker.cmd, s.asker.got).None?
  {
    hide Asking, Answering, ReadsOwn;
    assert AllSendable(rest) && (rest == [] <==> p.next(s.asker.cmd, s.asker.got).None?) by {
      if Answering(p, s, rest) {
        RestRead(p, s, rest);
      } else {
        var left :| Asking(p, s, left);
        NothingRead(p, s, left, rest);
      }
    }
    ReadsOwnExact(rest, mine);
  }

  lemma RestRead(p: Protocol, s: System, rest: seq<Item>)
    requires Answering(p, s, rest)
    ensures AllSendable(rest) && (rest == [] <==> p.next(s.asker.cmd, s.asker.got).None?)
  {
    NextRead(p, s, rest);
  }

  lemma NothingRead(p: Protocol, s: System, left: seq<Item>, rest: seq<Item>)
    requires Responsive(p) && Asking(p, s, left) && Answers(p, s.asker.cmd, rest)
    ensures AllSendable(rest) && rest != [] && p.next(s.asker.cmd, s.asker.got).Some?
  {
    assert p.args(s.asker.cmd).Some?;
  }

  /** Something is to come in every state of a request under way, and what it is follows from the state. */
  lemma SomethingToCome(p: Protocol, s: System) returns (rest: seq<Item>)
    requires Responsive(p) && InStep(p, s) && s.asker.Busy?
    ensures ToCome(p, s, rest)
  {
    hide Asking, Answering, Answers;
    assert !AtRest(s);
    if exists left :: Asking(p, s, left) {
      var left :| Asking(p, s, left);
      rest := AnswerTo(p, s, left);
    } else {
      rest :| Answering(p, s, rest);
    }
  }

  lemma AnswerTo(p: Protocol, s: System, left: seq<Item>) returns (reply: seq<Item>)
    requires Responsive(p) && Asking(p, s, left)
    ensures Answers(p, s.asker.cmd, reply)
  {
    hide Answers;
    assert p.args(s.asker.cmd).Some?;
    reply :| Answers(p, s.asker.cmd, reply);
  }

  lemma {:induction false} EncodeAllTail(got: seq<Item>, rest: seq<Item>)
    requires AllSendable(got + rest)
    ensures AllSendable(rest) && |EncodeAll(rest)| <= |EncodeAll(got + rest)|
  {
    assert forall i :: 0 <= i < |rest| ==> rest[i] == (got + rest)[|got| + i];
    if got == [] {
      assert got + rest == rest;
    } else {
      assert (got + rest)[1..] == got[1..] + rest;
      EncodeAllTail(got[1..], rest);
    }
  }

  /** Before its first byte is written a request has left no trace. */
  lemma NotBegun(p: Protocol, s: System, left: seq<Item>)
    requires Asking(p, s, left) && !Begun(s)
    ensures s.up == [] && s.down == [] && s.answerer == Listening([])
  {
    hide Encode;
    assert |s.up| + |EncodeAll(s.request)| == |EncodeAll(left)|;
    if s.answerer.Reading? {
      EncodeAllTail(s.answerer.got, left);
    }
  }

  /** A request made by a handler while another is under way does no harm: the wire is as between requests,
      or the handler gets its own answer whatever is still to come for the other. */
  ghost predicate Harmless(p: Protocol, s: System, mine: seq<Item>)
    requires AllSendable(mine) && mine != []
  {
    if Begun(s) then forall rest :: ToCome(p, s, rest) ==> AllSendable(rest) && ReadsOwn(rest, mine)
    else s.up == [] && s.down == [] && s.answerer == Listening([])
  }

  /** It is harmless if and only if the other has not begun, or has been answered and read to its end: in
      every state of every run, and whatever is asked and answered. */
  lemma NestedRequestExact(p: Protocol, s: System, mine: seq<Item>)
    requires Responsive(p) && InStep(p, s) && s.asker.Busy? && AllSendable(mine) && mine != []
    ensures Harmless(p, s, mine) <==> !Begun(s) || p.next(s.asker.cmd, s.asker.got).None?
  {
    hide Asking, Answering, ReadsOwn, ToCome;
    if Begun(s) {
      var rest := SomethingToCome(p, s);
      NestedExact(p, s, rest, mine);
      forall other | ToCome(p, s, other) ensures AllSendable(other) && (ReadsOwn(other, mine) <==> p.next(s.asker.cmd, s.asker.got).None?) {
        NestedExact(p, s, other, mine);
      }
    } else {
      var left := StillAsking(p, s);
      NotBegun(p, s, left);
    }
  }

  lemma StillAsking(p: Protocol, s: System) returns (left: seq<Item>)
    requires InStep(p, s) && s.asker.Busy? && !Begun(s)
    ensures Asking(p, s, left)
  {
    left :| Asking(p, s, left);
  }
}
