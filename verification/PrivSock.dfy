/** privsock.c: the items that travel over the socket pairs between the processes of a session, byte by
    byte: one-byte commands and results, 4-byte integers, strings with their length in front, and
    descriptors attached to a byte of their own. */
module PrivSock {
  import opened Basics

  const MAXSTR := 2 * DATA_BUFSIZE

  predicate IsInt32(n: int) {
    -0x8000_0000 <= n < 0x8000_0000
  }

  /** What a socket delivers. */
  datatype Octet = Raw(b: Byte) | WithFd(fd: int)

  datatype Item =
    | Code(c: Byte)
    | Number(n: int)
    | Text(s: seq<Byte>)
    | Descriptor(fd: int)

  datatype Kind = KCode | KNumber | KText | KDescriptor

  function KindOf(i: Item): Kind {
    match i
    case Code(_) => KCode
    case Number(_) => KNumber
    case Text(_) => KText
    case Descriptor(_) => KDescriptor
  }

  predicate Sendable(i: Item) {
    match i
    case Number(n) => IsInt32(n)
    case Text(s) => |s| <= MAXSTR
    case _ => true
  }

  // ---------------------------------------------------------------- integers

  function Unsigned(n: int): (u: nat)
    requires IsInt32(n)
    ensures u < 0x1_0000_0000
  {
    if n < 0 then n + 0x1_0000_0000 else n
  }

  function Signed(u: nat): int {
    if u < 0x8000_0000 then u else u - 0x1_0000_0000
  }

  function IntOctets(n: int): (r: seq<Octet>)
    requires IsInt32(n)
    ensures |r| == 4
  {
    var u := Unsigned(n);
    [Raw(u % 256), Raw(u / 256 % 256), Raw(u / 65536 % 256), Raw(u / 16777216)]
  }

  predicate AllRaw(s: seq<Octet>) {
    forall i :: 0 <= i < |s| ==> s[i].Raw?
  }

  function IntOf(s: seq<Octet>): int
    requires |s| == 4 && AllRaw(s)
  {
    Signed(s[0].b + 256 * (s[1].b as int) + 65536 * (s[2].b as int) + 16777216 * (s[3].b as int))
  }

  lemma IntRoundTrip(n: int)
    requires IsInt32(n)
    ensures AllRaw(IntOctets(n)) && IntOf(IntOctets(n)) == n
  {
    var u := Unsigned(n);
    var a, b, c := u / 256, u / 65536, u / 16777216;
    assert u == u % 256 + 256 * a;
    assert a == a % 256 + 256 * b by {
      assert b == a / 256;
    }
    assert b == b % 256 + 256 * c by {
      assert c == b / 256;
    }
  }

  // ---------------------------------------------------------------- items

  function RawAll(s: seq<Byte>): (r: seq<Octet>)
    ensures |r| == |s| && forall i :: 0 <= i < |s| ==> r[i] == Raw(s[i])
  {
    seq(|s|, i requires 0 <= i < |s| => Raw(s[i]))
  }

  function Bytes(s: seq<Octet>): (r: seq<Byte>)
    requires AllRaw(s)
    ensures |r| == |s| && forall i :: 0 <= i < |s| ==> r[i] == s[i].b
  {
    seq(|s|, i requires 0 <= i < |s| => s[i].b)
  }

  /** priv_sock_send_cmd, _result, _int, _str, _buf and _fd. */
  function Encode(i: Item): (r: seq<Octet>)
    requires Sendable(i)
    ensures r != []
  {
    match i
    case Code(c) => [Raw(c)]
    case Number(n) => IntOctets(n)
    case Text(s) => IntOctets(|s|) + RawAll(s)
    case Descriptor(fd) => [WithFd(fd)]
  }

  /** A receiver waits for more, gives up, or gets an item and leaves the rest. */
  datatype Received = Wait | Bad | Got(item: Item, rest: seq<Octet>)

  /** priv_sock_get_cmd, _result, _int, _str and _recv_fd on what has arrived. */
  function Decode(kind: Kind, s: seq<Octet>): Received {
    match kind
    case KCode =>
      if s == [] then Wait else if s[0].Raw? then Got(Code(s[0].b), s[1..]) else Bad
    case KDescriptor =>
      if s == [] then Wait else if s[0].WithFd? then Got(Descriptor(s[0].fd), s[1..]) else Bad
    case KNumber =>
      DecodeInt(s)
    case KText =>
      match DecodeInt(s) {
        case Got(Number(n), rest) =>
          if n < 0 || n > MAXSTR then Bad
          else if |rest| < n then if AllRaw(rest) then Wait else Bad
          else if AllRaw(rest[..n]) then Got(Text(Bytes(rest[..n])), rest[n..]) else Bad
        case Wait => Wait
        case _ => Bad
      }
  }

  function DecodeInt(s: seq<Octet>): Received {
    if |s| < 4 then if AllRaw(s) then Wait else Bad
    else if AllRaw(s[..4]) then Got(Number(IntOf(s[..4])), s[4..]) else Bad
  }

  /** `up` has arrived of a stream that begins with the encoding of an item. */
  lemma DecodeIntPrefix(n: int, up: seq<Octet>, more: seq<Octet>, tail: seq<Octet>)
    requires IsInt32(n) && up + more == IntOctets(n) + tail
    ensures DecodeInt(up) == if |up| < 4 then Wait else Got(Number(n), up[4..])
  {
    IntRoundTrip(n);
    var e := IntOctets(n);
    assert forall i :: 0 <= i < |up| ==> up[i] == (e + tail)[i];
    if |up| >= 4 {
      assert up[..4] == e;
    }
  }

  lemma RawBytes(s: seq<Byte>)
    ensures AllRaw(RawAll(s)) && Bytes(RawAll(s)) == s
  {
  }

  lemma DecodeTextPrefix(s: seq<Byte>, up: seq<Octet>, more: seq<Octet>, tail: seq<Octet>)
    requires |s| <= MAXSTR && up + more == Encode(Text(s)) + tail
    ensures Decode(KText, up) == if |up| < 4 + |s| then Wait else Got(Text(s), up[4 + |s|..])
  {
    var e, r := IntOctets(|s|), RawAll(s);
    assert (e + r) + tail == e + (r + tail);
    DecodeIntPrefix(|s|, up, more, r + tail);
    RawBytes(s);
    if |up| >= 4 {
      var rest := up[4..];
      assert forall i :: 0 <= i < |rest| ==> rest[i] == (e + (r + tail))[4 + i];
      assert forall i :: 0 <= i < |rest| ==> rest[i] == (r + tail)[i];
      if |rest| >= |s| {
        assert rest[..|s|] == r;
        assert rest[|s|..] == up[4 + |s|..];
      } else {
        assert forall i :: 0 <= i < |rest| ==> rest[i] == r[i];
      }
    }
  }

  /** However much of an item has arrived, its receiver waits until it is complete and then gets exactly
      what was sent, leaving what follows; it never gives up. */
  lemma DecodePrefix(i: Item, up: seq<Octet>, more: seq<Octet>, tail: seq<Octet>)
    requires Sendable(i) && up + more == Encode(i) + tail
    ensures Decode(KindOf(i), up) == if |up| < |Encode(i)| then Wait else Got(i, up[|Encode(i)|..])
    ensures |up| >= |Encode(i)| ==> up[|Encode(i)|..] + more == tail
  {
    var e := Encode(i);
    match i {
      case Text(s) => DecodeTextPrefix(s, up, more, tail);
      case Number(n) => DecodeIntPrefix(n, up, more, tail);
      case _ =>
        if up != [] {
          assert up[0] == (e + tail)[0];
        }
    }
    if |up| >= |e| {
      assert up[|e|..] + more == (up + more)[|e|..];
    }
  }

  /** A receiver takes off the wire exactly as many bytes as the item it gets takes up. */
  lemma DecodeConsumes(kind: Kind, s: seq<Octet>)
    requires Decode(kind, s).Got? && Sendable(Decode(kind, s).item)
    ensures KindOf(Decode(kind, s).item) == kind
    ensures |s| == |Encode(Decode(kind, s).item)| + |Decode(kind, s).rest|
  {
  }
}
