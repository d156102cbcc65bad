/** standalone.c: the accounting of the stand-alone listener. Two hash tables, pid to address and
    address to number of sessions, and a total are kept in agreement by the accept loop and by the
    handler that reaps finished children.

    The reap handler runs at the accept point; fork never returns a pid that is still in the table. */
module Listener {
  import opened Hash

  newtype uint32 = x: int | 0 <= x < 0x1_0000_0000

  type Ip = seq<bv8>

  const BUCKETS := 256
  const MAX_PIDS := 0x7FFF_FFFF

  // ---------------------------------------------------------------- the hash functions

  function Xor(x: bv32, y: bv32): bv32 {
    x ^ y
  }

  /** Four bytes as a 32-bit number, high byte first. */
  function BigEndian(a: bv8, b: bv8, c: bv8, d: bv8): bv32 {
    ((a as bv32) << 24) | ((b as bv32) << 16) | ((c as bv32) << 8) | (d as bv32)
  }

  /** The byte at an index of the address, or zero where the address has ended. */
  function ByteAt(ip: Ip, i: nat): bv8 {
    if i < |ip| then ip[i] else 0
  }

  /** The first four bytes of an address as one number. */
  function Word(ip: Ip): bv32 {
    BigEndian(ByteAt(ip, 0), ByteAt(ip, 1), ByteAt(ip, 2), ByteAt(ip, 3))
  }

  /** The address taken as 32-bit numbers, one for IPv4 and four for IPv6, combined by exclusive or. */
  function XorWords(ip: Ip): bv32 {
    if |ip| <= 4 then Word(ip) else Xor(Word(ip), XorWords(ip[4..]))
  }

  function HashIp(ip: Ip): nat {
    (XorWords(ip) as nat) % BUCKETS
  }

  function HashPid(pid: int): nat {
    pid % BUCKETS
  }

  /** A byte moved left by as many bits; the loop of hash_ip uses these four distances. */
  function Shifted(b: bv8, shift: int): bv32 {
    if shift == 24 then (b as bv32) << 24
    else if shift == 16 then (b as bv32) << 16
    else if shift == 8 then (b as bv32) << 8
    else b as bv32
  }

  lemma XorAssoc(x: bv32, y: bv32, z: bv32)
    ensures Xor(x, Xor(y, z)) == Xor(Xor(x, y), z)
  {
  }

  lemma XorFirst(b: bv8)
    ensures BigEndian(b, 0, 0, 0) == Xor(BigEndian(0, 0, 0, 0), Shifted(b, 24))
    ensures BigEndian(b, 0, 0, 0) == Shifted(b, 24) && BigEndian(0, 0, 0, 0) == 0
  {
  }

  lemma XorSecond(a: bv8, b: bv8)
    ensures BigEndian(a, b, 0, 0) == Xor(BigEndian(a, 0, 0, 0), Shifted(b, 16))
  {
  }

  lemma XorThird(a: bv8, b: bv8, c: bv8)
    ensures BigEndian(a, b, c, 0) == Xor(BigEndian(a, b, 0, 0), Shifted(c, 8))
  {
  }

  lemma XorFourth(a: bv8, b: bv8, c: bv8, d: bv8)
    ensures BigEndian(a, b, c, d) == Xor(BigEndian(a, b, c, 0), Shifted(d, 0))
  {
  }

  lemma WordMore(ip: Ip, b: bv8)
    requires |ip| < 4
    ensures Word(ip + [b]) == Xor(Word(ip), Shifted(b, 24 - 8 * |ip|))
  {
    hide BigEndian, Xor, Shifted;
    if |ip| == 0 {
      XorFirst(b);
    } else if |ip| == 1 {
      XorSecond(ip[0], b);
    } else if |ip| == 2 {
      XorThird(ip[0], ip[1], b);
    } else {
      XorFourth(ip[0], ip[1], ip[2], b);
    }
  }

  lemma FirstWord(ip: Ip, b: bv8)
    requires |ip| >= 4
    ensures Word(ip + [b]) == Word(ip) && (ip + [b])[4..] == ip[4..] + [b]
  {
    hide BigEndian;
  }

  /** One more byte of the address adds itself at its place in its word. */
  lemma {:induction false} XorWordsMore(ip: Ip, b: bv8)
    ensures XorWords(ip + [b]) == Xor(XorWords(ip), Shifted(b, 24 - 8 * (|ip| % 4)))
    decreases |ip|
  {
    hide Word, Shifted, Xor;
    if |ip| < 4 {
      WordMore(ip, b);
    } else {
      FirstWord(ip, b);
      if |ip| == 4 {
        assert ip[4..] + [b] == [b];
        LoneByte(b);
      } else {
        XorWordsMore(ip[4..], b);
        XorAssoc(Word(ip), XorWords(ip[4..]), Shifted(b, 24 - 8 * (|ip| % 4)));
      }
    }
  }

  lemma LoneByte(b: bv8)
    ensures XorWords([b]) == Shifted(b, 24)
  {
    hide BigEndian, Shifted;
    XorFirst(b);
  }

  lemma NoWords()
    ensures XorWords([]) == 0
  {
    hide BigEndian;
    XorFirst(0);
  }

  /** The loop of hash_ip, byte by byte with a moving shift, computes the exclusive or of the words. */
  method ComputeXorWords(ip: Ip) returns (val: bv32)
    ensures val == XorWords(ip)
  {
    hide Shifted, XorWords, Xor;
    val := 0;
    var shift := 24;
    NoWords();
    assert ip[..0] == [];
    for i := 0 to |ip|
      invariant shift == 24 - 8 * (i % 4)
      invariant val == XorWords(ip[..i])
    {
      assert ip[..i + 1] == ip[..i] + [ip[i]];
      XorWordsMore(ip[..i], ip[i]);
      val := Xor(val, Shifted(ip[i], shift));
      shift := shift - 8;
      if shift < 0 {
        shift := 24;
      }
    }
    assert ip[..|ip|] == ip;
  }

  // ---------------------------------------------------------------- the accounting, as a state machine

  datatype State = State(children: int, counts: map<Ip, uint32>, pids: map<int, Ip>)

  /** What can happen at the accept point: a connection, with the result of fork, or a reaped child. */
  datatype Event = Connection(ip: Ip, fork: int) | Reaped(pid: int)

  function LiveFrom(pids: map<int, Ip>, ip: Ip): set<int> {
    set p | p in pids && pids[p] == ip
  }

  ghost predicate PidsInRange(pids: map<int, Ip>) {
    forall p :: p in pids ==> 0 < p <= MAX_PIDS
  }

  ghost predicate CountsAgree(counts: map<Ip, uint32>, pids: map<int, Ip>) {
    && (forall ip :: ip in counts <==> LiveFrom(pids, ip) != {})
    && (forall ip :: ip in counts ==> counts[ip] as int == |LiveFrom(pids, ip)|)
  }

  /** The total is the number of live children, an address is in the count table exactly while it has
      live children, and its count is their number. */
  ghost predicate Agrees(s: State) {
    PidsInRange(s.pids) && s.children == |s.pids| && CountsAgree(s.counts, s.pids)
  }

  predicate Possible(s: State, e: Event) {
    match e
    case Connection(ip, fork) => fork < 0 || (0 < fork <= MAX_PIDS && fork !in s.pids)
    case Reaped(pid) => pid in s.pids
  }

  function Counted(counts: map<Ip, uint32>, ip: Ip): map<Ip, uint32>
    requires ip in counts ==> counts[ip] < 0xFFFF_FFFF
  {
    counts[ip := if ip in counts then counts[ip] + 1 else 1]
  }

  function Dropped(counts: map<Ip, uint32>, ip: Ip): map<Ip, uint32>
    requires ip in counts && counts[ip] > 0
  {
    if counts[ip] == 1 then counts - {ip} else counts[ip := counts[ip] - 1]
  }

  lemma {:induction false} PidSetBound(s: set<int>, n: nat)
    requires forall p :: p in s ==> 0 < p <= n
    ensures |s| <= n
  {
    if n == 0 {
      assert forall p :: p !in s;
      assert s == {};
    } else {
      PidSetBound(s - {n}, n - 1);
    }
  }

  /** The 32-bit counters cannot overflow: there are at most 2^31 - 1 pids. */
  lemma CountersBounded(s: State)
    requires Agrees(s)
    ensures s.children <= MAX_PIDS
    ensures forall ip :: ip in s.counts ==> 0 < s.counts[ip] as int <= MAX_PIDS
  {
    assert |s.pids| == |s.pids.Keys|;
    PidSetBound(s.pids.Keys, MAX_PIDS);
    forall ip | ip in s.counts ensures 0 < s.counts[ip] as int <= MAX_PIDS {
      PidSetBound(LiveFrom(s.pids, ip), MAX_PIDS);
    }
  }

  lemma CountsMeaning(s: State, ip: Ip)
    requires Agrees(s)
    ensures s.children == |s.pids|
    ensures (if ip in s.counts then s.counts[ip] as int else 0) == |LiveFrom(s.pids, ip)|
  {
  }

  lemma AddedPid(pids: map<int, Ip>, pid: int, ip: Ip)
    requires pid !in pids
    ensures |pids[pid := ip]| == |pids| + 1
    ensures LiveFrom(pids[pid := ip], ip) == LiveFrom(pids, ip) + {pid} && pid !in LiveFrom(pids, ip)
    ensures forall other :: other != ip ==> LiveFrom(pids[pid := ip], other) == LiveFrom(pids, other)
  {
  }

  lemma RemovedPid(pids: map<int, Ip>, pid: int)
    requires pid in pids
    ensures |pids - {pid}| == |pids| - 1
    ensures LiveFrom(pids - {pid}, pids[pid]) == LiveFrom(pids, pids[pid]) - {pid} && pid in LiveFrom(pids, pids[pid])
    ensures forall other :: other != pids[pid] ==> LiveFrom(pids - {pid}, other) == LiveFrom(pids, other)
  {
    assert (pids - {pid}).Keys == pids.Keys - {pid};
  }

  lemma CountedAgrees(counts: map<Ip, uint32>, pids: map<int, Ip>, pid: int, ip: Ip)
    requires CountsAgree(counts, pids) && pid !in pids
    requires ip in counts ==> counts[ip] < 0xFFFF_FFFF
    ensures CountsAgree(Counted(counts, ip), pids[pid := ip])
  {
    AddedPid(pids, pid, ip);
    assert |LiveFrom(pids[pid := ip], ip)| == |LiveFrom(pids, ip)| + 1;
    assert |LiveFrom(pids, ip)| == 0 <==> LiveFrom(pids, ip) == {};
  }

  lemma ConnectionAgrees(s: State, ip: Ip, pid: int)
    requires Agrees(s) && 0 < pid <= MAX_PIDS && pid !in s.pids
    ensures ip in s.counts ==> s.counts[ip] < 0xFFFF_FFFF
    ensures Agrees(State(s.children + 1, Counted(s.counts, ip), s.pids[pid := ip]))
  {
    CountersBounded(s);
    CountedAgrees(s.counts, s.pids, pid, ip);
    AddedPid(s.pids, pid, ip);
  }

  lemma ReapAgrees(s: State, pid: int)
    requires Agrees(s) && pid in s.pids
    ensures s.pids[pid] in s.counts && s.counts[s.pids[pid]] > 0
    ensures Agrees(State(s.children - 1, Dropped(s.counts, s.pids[pid]), s.pids - {pid}))
  {
    var ip := s.pids[pid];
    RemovedPid(s.pids, pid);
    assert |LiveFrom(s.pids - {pid}, ip)| == |LiveFrom(s.pids, ip)| - 1;
  }

  /** A fork that fails leaves no trace, one that succeeds adds a child, a reaped child is forgotten;
      whichever happens, the three records still agree. */
  ghost function Next(s: State, e: Event): (s': State)
    requires Agrees(s) && Possible(s, e)
    ensures Agrees(s')
  {
    match e
    case Connection(ip, fork) =>
      if fork < 0 then s else
        ConnectionAgrees(s, ip, fork);
        State(s.children + 1, Counted(s.counts, ip), s.pids[fork := ip])
    case Reaped(pid) =>
      ReapAgrees(s, pid);
      State(s.children - 1, Dropped(s.counts, s.pids[pid]), s.pids - {pid})
  }

  ghost predicate PossibleRun(s: State, events: seq<Event>)
    requires Agrees(s)
    decreases |events|
  {
    events == [] || (Possible(s, events[0]) && PossibleRun(Next(s, events[0]), events[1..]))
  }

  ghost function AfterRun(s: State, events: seq<Event>): (s': State)
    requires Agrees(s) && PossibleRun(s, events)
    ensures Agrees(s')
    decreases |events|
  {
    if events == [] then s else AfterRun(Next(s, events[0]), events[1..])
  }

  function Reaps(pids: seq<int>): seq<Event> {
    seq(|pids|, i requires 0 <= i < |pids| => Reaped(pids[i]))
  }

  const START := State(0, map[], map[])

  lemma StartAgrees()
    ensures Agrees(START)
  {
    assert forall ip :: LiveFrom(START.pids, ip) == {};
  }

  function Started(events: seq<Event>): int {
    if events == [] then 0
    else (if events[0].Connection? && events[0].fork > 0 then 1 else 0) + Started(events[1..])
  }

  function Finished(events: seq<Event>): int {
    if events == [] then 0 else (if events[0].Reaped? then 1 else 0) + Finished(events[1..])
  }

  /** Over a whole run no child is lost or counted twice. */
  lemma {:induction false} RunConserves(s: State, events: seq<Event>)
    requires Agrees(s) && PossibleRun(s, events)
    ensures |AfterRun(s, events).pids| == |s.pids| + Started(events) - Finished(events)
    ensures AfterRun(s, events).children == s.children + Started(events) - Finished(events)
    decreases |events|
  {
    if events != [] {
      RunConserves(Next(s, events[0]), events[1..]);
    }
  }

  /** Counting a connection and dropping it again restores the table. */
  lemma CountedDropped(counts: map<Ip, uint32>, ip: Ip)
    requires ip in counts ==> 0 < counts[ip] < 0xFFFF_FFFF
    ensures Dropped(Counted(counts, ip), ip) == counts
  {
    var up := Counted(counts, ip);
    if ip !in counts {
      assert up - {ip} == counts;
    } else {
      assert up[ip := up[ip] - 1] == counts;
    }
  }

  // ---------------------------------------------------------------- the listener

  class Listener {
    var children: uint32
    const counts: HashTable<Ip, uint32>
    const pids: HashTable<int, Ip>

    ghost predicate Shaped()
      reads this, counts, counts.repr, pids, pids.repr
    {
      && counts.Valid() && pids.Valid()
      && this !in counts.repr && this !in pids.repr && counts.repr !! pids.repr
    }

    ghost function Records(): State
      reads this, counts, pids
    {
      State(children as int, counts.contents, pids.contents)
    }

    ghost predicate Valid()
      reads this, counts, counts.repr, pids, pids.repr
    {
      Shaped() && Agrees(Records())
    }

    constructor ()
      ensures Valid() && Records() == START && fresh(counts.repr) && fresh(pids.repr)
    {
      children := 0;
      counts := new HashTable<Ip, uint32>(BUCKETS, HashIp);
      pids := new HashTable<int, Ip>(BUCKETS, HashPid);
      new;
      StartAgrees();
    }

    /** handle_ip_count. */
    method HandleIpCount(ip: Ip) returns (count: uint32)
      requires counts.Valid() && (ip in counts.contents ==> counts.contents[ip] < 0xFFFF_FFFF)
      modifies counts.repr
      ensures counts.Valid() && fresh(counts.repr - old(counts.repr))
      ensures counts.contents == Counted(old(counts.contents), ip) && count == counts.contents[ip]
    {
      hide HashTable.Valid;
      var cell;
      ghost var pos;
      cell, pos := counts.Lookup(ip);
      if cell == null {
        count := 1;
        counts.Add(ip, count);
      } else {
        count := cell.value + 1;
        counts.Store(cell, count, ip, pos);
      }
    }

    /** drop_ip_count; a missing address and a zero count are its two traps. */
    method DropIpCount(ip: Ip)
      requires counts.Valid() && ip in counts.contents && counts.contents[ip] > 0
      modifies counts.repr
      ensures counts.Valid() && fresh(counts.repr - old(counts.repr))
      ensures counts.contents == Dropped(old(counts.contents), ip)
    {
      hide HashTable.Valid;
      var cell;
      ghost var pos;
      cell, pos := counts.Lookup(ip);
      var count := cell.value - 1;
      counts.Store(cell, count, ip, pos);
      if count == 0 {
        counts.Free(ip);
        assert counts.contents == old(counts.contents) - {ip};
      }
    }

    /** One turn of the accept loop in the listener: count the connection, fork, and either enter the
        child or undo the counting. Returns what the child is told about its place in the crowd. */
    method AcceptOne(ip: Ip, fork: int) returns (numChildren: uint32, numThisIp: uint32)
      requires Valid() && Possible(Records(), Connection(ip, fork))
      modifies this, counts.repr, pids.repr
      ensures Valid() && fresh(counts.repr - old(counts.repr)) && fresh(pids.repr - old(pids.repr))
      ensures Records() == Next(old(Records()), Connection(ip, fork))
      ensures numChildren as int == |old(pids.contents)| + 1
      ensures numThisIp as int == |LiveFrom(old(pids.contents), ip)| + 1
    {
      hide HashTable.Valid, Agrees, LiveFrom, Dropped;
      CountersBounded(Records());
      CountsMeaning(Records(), ip);
      if fork > 0 {
        ConnectionAgrees(Records(), ip, fork);
      }
      children := children + 1;
      numChildren := children;
      numThisIp := HandleIpCount(ip);
      if fork > 0 {
        pids.Add(fork, ip);
      } else {
        children := children - 1;
        CountedDropped(old(counts.contents), ip);
        DropIpCount(ip);
        assert Records() == old(Records());
      }
    }

    /** handle_sigchld: reaps the children that have finished, one after the other. */
    method ReapChildren(reaped: seq<int>)
      requires Valid() && PossibleRun(Records(), Reaps(reaped))
      modifies this, counts.repr, pids.repr
      ensures Valid() && fresh(counts.repr - old(counts.repr)) && fresh(pids.repr - old(pids.repr))
      ensures Records() == AfterRun(old(Records()), Reaps(reaped))
    {
      hide HashTable.Valid, Agrees, Next;
      ghost var todo := Reaps(reaped);
      ghost var final := AfterRun(Records(), todo);
      var i := 0;
      while i < |reaped|
        invariant 0 <= i <= |reaped|
        invariant Valid() && fresh(counts.repr - old(counts.repr)) && fresh(pids.repr - old(pids.repr))
        invariant |todo| == |reaped| - i && forall j :: 0 <= j < |todo| ==> todo[j] == Reaped(reaped[i + j])
        invariant PossibleRun(Records(), todo) && AfterRun(Records(), todo) == final
      {
        assert todo[0] == Reaped(reaped[i]);
        ReapOne(reaped[i]);
        todo := todo[1..];
        i := i + 1;
      }
    }

    method ReapOne(pid: int)
      requires Valid() && Possible(Records(), Reaped(pid))
      modifies this, counts.repr, pids.repr
      ensures Valid() && fresh(counts.repr - old(counts.repr)) && fresh(pids.repr - old(pids.repr))
      ensures Records() == Next(old(Records()), Reaped(pid))
    {
      hide HashTable.Valid, Agrees;
      ReapAgrees(Records(), pid);
      children := children - 1;
      var cell;
      ghost var pos;
      cell, pos := pids.Lookup(pid);
      DropIpCount(cell.value);
      pids.Free(pid);
    }

    /** The listener over a whole run: whatever the order of connections, fork failures and reaped
        children, no trap is reached and the records end where the state machine says. */
    method Serve(events: seq<Event>)
      requires Valid() && PossibleRun(Records(), events)
      modifies this, counts.repr, pids.repr
      ensures Valid() && fresh(counts.repr - old(counts.repr)) && fresh(pids.repr - old(pids.repr))
      ensures Records() == AfterRun(old(Records()), events)
    {
      hide HashTable.Valid, Agrees, Next;
      var todo := events;
      ghost var final := AfterRun(Records(), todo);
      while todo != []
        invariant Valid() && fresh(counts.repr - old(counts.repr)) && fresh(pids.repr - old(pids.repr))
        invariant PossibleRun(Records(), todo) && AfterRun(Records(), todo) == final
        decreases |todo|
      {
        match todo[0] {
          case Connection(ip, fork) =>
            var _, _ := AcceptOne(ip, fork);
          case Reaped(pid) =>
            ReapOne(pid);
        }
        todo := todo[1..];
      }
    }
  }
}
