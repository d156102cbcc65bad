/** ascii.c and the transfer loops of ftpdataio.c that use it: line-end conversion of a stream that
    arrives in arbitrary pieces. */
module Ascii {
  import opened Basics
  import opened Text

  // ---------------------------------------------------------------- whole streams

  /** The stream without the CRs that stand right before an LF. */
  function Strip(s: string): string {
    if s == "" then ""
    else if s[0] == CR && |s| > 1 && s[1] == LF then Strip(s[1..])
    else [s[0]] + Strip(s[1..])
  }

  /** The stream with a CR put before every LF that has none; `prevCr` says what came before. */
  function Expand(s: string, prevCr: bool): string {
    if s == "" then ""
    else (if s[0] == LF && !prevCr then [CR, LF] else [s[0]]) + Expand(s[1..], s[0] == CR)
  }

  predicate EndsInCr(s: string) {
    s != "" && s[|s| - 1] == CR
  }

  ghost predicate HasCrLf(s: string) {
    exists i :: 0 <= i < |s| - 1 && s[i] == CR && s[i + 1] == LF
  }

  lemma {:induction false} StripConcat(a: string, b: string)
    requires !(EndsInCr(a) && b != "" && b[0] == LF)
    ensures Strip(a + b) == Strip(a) + Strip(b)
  {
    if a == "" {
      assert a + b == b;
    } else {
      assert (a + b)[1..] == a[1..] + b;
      StripConcat(a[1..], b);
    }
  }

  lemma {:induction false} ExpandConcat(a: string, b: string, prevCr: bool)
    ensures Expand(a + b, prevCr) == Expand(a, prevCr) + Expand(b, if a == "" then prevCr else EndsInCr(a))
  {
    if a == "" {
      assert a + b == b;
    } else {
      var head := if a[0] == LF && !prevCr then [CR, LF] else [a[0]];
      calc {
        Expand(a + b, prevCr);
        { assert (a + b)[1..] == a[1..] + b; }
        head + Expand(a[1..] + b, a[0] == CR);
        { ExpandConcat(a[1..], b, a[0] == CR); }
        head + (Expand(a[1..], a[0] == CR) + Expand(b, EndsInCr(a)));
        { Assoc("", head, Expand(a[1..], a[0] == CR), Expand(b, EndsInCr(a))); }
        head + Expand(a[1..], a[0] == CR) + Expand(b, EndsInCr(a));
      }
    }
  }

  lemma {:induction false} ExpandBound(s: string, prevCr: bool)
    ensures |s| <= |Expand(s, prevCr)| <= 2 * |s|
  {
    if s != "" {
      ExpandBound(s[1..], s[0] == CR);
    }
  }

  /** Expanding twice is expanding once. */
  lemma {:induction false} ExpandIdempotent(s: string, prevCr: bool)
    ensures Expand(Expand(s, prevCr), prevCr) == Expand(s, prevCr)
  {
    if s != "" {
      var c, rest := s[0], Expand(s[1..], s[0] == CR);
      ExpandIdempotent(s[1..], c == CR);
      if c == LF && !prevCr {
        assert Expand(s, prevCr) == [CR, LF] + rest;
        assert ([CR, LF] + rest)[1..] == [LF] + rest;
        assert ([LF] + rest)[1..] == rest;
      } else {
        assert Expand(s, prevCr) == [c] + rest;
        assert ([c] + rest)[1..] == rest;
      }
    }
  }

  /** An upload of what was downloaded loses exactly what an upload of the original would lose. */
  lemma {:induction false} StripExpand(s: string)
    ensures Strip(Expand(s, false)) == Strip(s)
    ensures Strip([CR] + Expand(s, true)) == Strip([CR] + s)
  {
    if s != "" {
      StripExpand(s[1..]);
      var c, rest := s[0], s[1..];
      var e := Expand(rest, c == CR);
      assert ([CR] + ([c] + e))[1..] == [c] + e && ([c] + e)[1..] == e;
      assert ([CR] + s)[1..] == s;
      assert Expand(s, true) == [c] + e;
      if c == LF {
        assert Expand(s, false) == [CR, LF] + e;
        assert ([CR, LF] + e)[1..] == [LF] + e && ([LF] + e)[1..] == e;
      } else {
        assert Expand(s, false) == [c] + e;
        if c == CR {
          assert s == [CR] + rest;
        }
      }
    }
  }

  lemma {:induction false} StripIdentity(s: string)
    ensures |Strip(s)| <= |s|
    ensures Strip(s) == s <==> !HasCrLf(s)
  {
    if s != "" {
      StripIdentity(s[1..]);
      if HasCrLf(s[1..]) {
        var i :| 0 <= i < |s[1..]| - 1 && s[1..][i] == CR && s[1..][i + 1] == LF;
        assert s[i + 1] == CR && s[i + 2] == LF;
      }
      if HasCrLf(s) && !(s[0] == CR && s[1] == LF) {
        var i :| 0 <= i < |s| - 1 && s[i] == CR && s[i + 1] == LF;
        assert s[1..][i - 1] == CR && s[1..][i] == LF;
      }
      if !(s[0] == CR && |s| > 1 && s[1] == LF) {
        assert Strip(s)[1..] == Strip(s[1..]);
        assert s == [s[0]] + s[1..];
      }
    }
  }

  /** Download followed by upload gives the file back exactly when it holds no CRLF. */
  lemma RoundTrip(s: string)
    ensures Strip(Expand(s, false)) == s <==> !HasCrLf(s)
  {
    StripExpand(s);
    StripIdentity(s);
  }

  /** Every LF stands behind a CR, as the network wants it. */
  predicate Ended(s: string, prevCr: bool) {
    && (s != "" && s[0] == LF ==> prevCr)
    && forall i :: 0 < i < |s| && s[i] == LF ==> s[i - 1] == CR
  }

  lemma EndedFirst(c: char, rest: string, prevCr: bool)
    ensures Ended([c] + rest, prevCr) <==> (c == LF ==> prevCr) && Ended(rest, c == CR)
  {
    var s := [c] + rest;
    assert s[0] == c && forall i :: 0 <= i < |rest| ==> s[i + 1] == rest[i];
    if Ended(s, prevCr) {
      forall i | 0 < i < |rest| && rest[i] == LF ensures rest[i - 1] == CR {
        assert s[i + 1] == LF;
      }
      assert rest != "" && rest[0] == LF ==> s[1] == LF;
    }
    if Ended(rest, c == CR) {
      forall i | 0 < i < |s| && s[i] == LF ensures s[i - 1] == CR {
        assert rest[i - 1] == LF;
      }
    }
  }

  lemma {:induction false} ExpandEnded(s: string, prevCr: bool)
    ensures Ended(Expand(s, prevCr), prevCr)
  {
    if s != "" {
      var c, rest := s[0], Expand(s[1..], s[0] == CR);
      ExpandEnded(s[1..], c == CR);
      EndedFirst(c, rest, c == LF || prevCr);
      if c == LF && !prevCr {
        assert [CR, LF] + rest == [CR] + ([LF] + rest);
        EndedFirst(LF, rest, true);
        EndedFirst(CR, [LF] + rest, prevCr);
      } else {
        EndedFirst(c, rest, prevCr);
      }
    }
  }

  /** Streams whose LFs all stand behind a CR can be told apart by what an upload makes of them. */
  lemma {:induction false} EndedApart(s: string, t: string)
    requires Ended(s, false) && Ended(t, false) && Strip(s) == Strip(t)
    ensures s == t
    decreases |s| + |t|
  {
    if s == "" || t == "" {
      assert |s| > 0 ==> Strip(s) != "" by { StripNothing(s); }
      assert |t| > 0 ==> Strip(t) != "" by { StripNothing(t); }
    } else {
      StripFirst(s);
      StripFirst(t);
      var n := if Strip(s)[0] == LF then 2 else 1;
      EndedBehind(s, n);
      EndedBehind(t, n);
      EndedApart(s[n..], t[n..]);
      assert s == s[..n] + s[n..] && t == t[..n] + t[n..];
    }
  }

  lemma {:induction false} StripNothing(s: string)
    ensures Strip(s) == "" <==> s == ""
  {
    if s != "" {
      StripNothing(s[1..]);
    }
  }

  /** What comes first, and what is left when it is gone. */
  lemma StripFirst(s: string)
    requires s != "" && Ended(s, false)
    ensures Strip(s) != ""
    ensures Strip(s)[0] == LF ==> |s| >= 2 && s[..2] == [CR, LF] && Strip(s)[1..] == Strip(s[2..])
    ensures Strip(s)[0] != LF ==> s[0] == Strip(s)[0] && Strip(s)[1..] == Strip(s[1..]) && Ended(s[1..], s[0] == CR) && (|s| > 1 ==> s[1] != LF)
  {
    assert s[0] != LF;
    EndedFirst(s[0], s[1..], false);
    assert s == [s[0]] + s[1..];
    if s[0] == CR && |s| > 1 && s[1] == LF {
      assert s[1..][1..] == s[2..];
    }
  }

  lemma EndedBehind(s: string, n: nat)
    requires 0 < n <= |s| && Ended(s, false) && (n < |s| ==> s[n] != LF || s[n - 1] != CR)
    ensures Ended(s[n..], false)
  {
    forall i | 0 < i < |s| - n && s[n..][i] == LF ensures s[n..][i - 1] == CR {
      assert s[n + i] == LF;
    }
  }

  /** A download is the one stream with an LF only behind a CR that an upload takes for the same file. */
  lemma ExpandUnique(s: string, t: string)
    ensures t == Expand(s, false) <==> Ended(t, false) && Strip(t) == Strip(s)
  {
    ExpandEnded(s, false);
    StripExpand(s);
    if Ended(t, false) && Strip(t) == Strip(s) {
      EndedApart(t, Expand(s, false));
    }
  }

  // ---------------------------------------------------------------- one piece of an upload

  function HeldCr(prevCr: bool): string {
    if prevCr then [CR] else ""
  }

  /** What of a piece can be converted right away: all but a final CR, whose fate is still open. */
  function Decided(piece: string): string {
    if EndsInCr(piece) then piece[..|piece| - 1] else piece
  }

  function From(s: string, i: nat): string {
    if i < |s| then s[i..] else ""
  }

  lemma StripFrom(piece: string, i: nat)
    requires i < |piece|
    ensures var body := Decided(piece);
            Strip(From(body, i)) ==
            if piece[i] == CR && (i == |piece| - 1 || piece[i + 1] == LF) then Strip(From(body, i + 1))
            else [piece[i]] + Strip(From(body, i + 1))
  {
    var body := Decided(piece);
    if i < |body| {
      assert body[i..][1..] == From(body, i + 1);
    }
  }

  lemma StripHeld(prevCr: bool, piece: string)
    ensures Strip(HeldCr(prevCr) + Decided(piece)) ==
            (if prevCr && (piece == "" || piece[0] != LF) then [CR] else "") + Strip(From(Decided(piece), 0))
  {
    var body := Decided(piece);
    assert From(body, 0) == body;
    if prevCr {
      assert ([CR] + body)[1..] == body;
    } else {
      assert HeldCr(prevCr) + body == body;
    }
  }

  /** Puts one more byte behind those already converted. */
  method PutChar(buf: array<char>, start: nat, out: nat, c: char)
    requires start <= out < buf.Length
    modifies buf
    ensures buf[start..out + 1] == old(buf[start..out]) + [c]
    ensures forall j :: out < j < buf.Length ==> buf[j] == old(buf[j])
  {
    buf[out] := c;
  }

  /** vsf_ascii_ascii_to_bin: converts `buf[1..1 + len]` in place, with `buf[0]` to spare for a CR held
      back from the piece before. No byte is overwritten before it has been read. */
  method AsciiToBin(buf: array<char>, len: nat, prevCr: bool) returns (start: nat, stored: nat, lastWasCr: bool)
    requires len + 1 <= buf.Length
    modifies buf
    ensures lastWasCr <==> EndsInCr(old(buf[1..1 + len]))
    ensures start + stored <= buf.Length
    ensures buf[start..start + stored] == Strip(HeldCr(prevCr) + Decided(old(buf[1..1 + len])))
  {
    hide Strip, From, Decided, HeldCr;
    ghost var piece := buf[1..1 + len];
    ghost var body := Decided(piece);
    ghost var target := Strip(HeldCr(prevCr) + body);
    StripHeld(prevCr, piece);
    lastWasCr := false;
    start, stored := 1, 0;
    ghost var written := "";
    if prevCr && (len == 0 || buf[1] != LF) {
      buf[0] := CR;
      start, stored, written := 0, 1, [CR];
    }
    var i, out := 0, 1;
    while i < len
      invariant 0 <= i <= len && 1 <= out <= i + 1 && out == start + stored && start <= 1
      invariant forall j :: i <= j < len ==> buf[j + 1] == piece[j]
      invariant written == buf[start..out]
      invariant written + Strip(From(body, i)) == target
      invariant lastWasCr <==> i == len && EndsInCr(piece)
    {
      var c := buf[i + 1];
      StripFrom(piece, i);
      if c == CR && i == len - 1 {
        lastWasCr := true;
      } else if c != CR || buf[i + 2] != LF {
        AppendOne(written, c, Strip(From(body, i + 1)));
        PutChar(buf, start, out, c);
        out, stored, written := out + 1, stored + 1, written + [c];
      }
      i := i + 1;
    }
    StripFromEnd(piece);
  }

  lemma AppendOne(w: string, c: char, rest: string)
    ensures w + ([c] + rest) == w + [c] + rest
  {
  }

  lemma StripFromEnd(piece: string)
    ensures Strip(From(Decided(piece), |piece|)) == ""
  {
  }

  // ---------------------------------------------------------------- whole uploads

  function Join(pieces: seq<string>): string {
    if pieces == [] then "" else pieces[0] + Join(pieces[1..])
  }

  /** What has been read so far, converted, with the next piece converted behind it. */
  lemma StripPiece(done: string, piece: string)
    requires piece != ""
    ensures Strip(Decided(done)) + Strip(HeldCr(EndsInCr(done)) + Decided(piece)) == Strip(Decided(done + piece))
    ensures EndsInCr(done + piece) <==> EndsInCr(piece)
  {
    hide Strip;
    var held := HeldCr(EndsInCr(done)) + Decided(piece);
    EndsLikePiece(done, piece);
    DecidedMore(done, piece);
    StripConcat(Decided(done), held);
  }

  lemma DecidedMore(done: string, piece: string)
    requires piece != ""
    ensures Decided(done + piece) == Decided(done) + (HeldCr(EndsInCr(done)) + Decided(piece))
  {
    hide Decided, HeldCr, EndsInCr;
    DecidedBehind(done, piece);
    HeldBack(done);
    var d, h, p := Decided(done), HeldCr(EndsInCr(done)), Decided(piece);
    assert d + h + p == d + (h + p);
  }

  lemma DecidedBehind(done: string, piece: string)
    requires piece != ""
    ensures Decided(done + piece) == done + Decided(piece)
  {
    EndsLikePiece(done, piece);
    if EndsInCr(piece) {
      assert (done + piece)[..|done + piece| - 1] == done + piece[..|piece| - 1];
    }
  }

  lemma HeldBack(done: string)
    ensures Decided(done) + HeldCr(EndsInCr(done)) == done
  {
  }

  /** A CR still held at the end of the stream belongs to it. */
  lemma StripFlush(done: string)
    requires EndsInCr(done)
    ensures Strip(Decided(done)) + Strip(HeldCr(true) + Decided("")) == Strip(done)
  {
    assert HeldCr(true) + Decided("") == [CR];
    assert done == Decided(done) + [CR];
    StripConcat(Decided(done), [CR]);
  }

  /** What has been converted of `done` stays a prefix of the result whatever follows. */
  lemma StripPrefix(done: string, rest: string)
    ensures Strip(Decided(done)) <= Strip(done + rest)
  {
    var held := HeldCr(EndsInCr(done)) + rest;
    assert done + rest == Decided(done) + held;
    StripConcat(Decided(done), held);
  }

  datatype Ending = EndOfData | ReadFailed

  predicate Readable(pieces: seq<string>, chunkSize: nat) {
    chunkSize <= DATA_BUFSIZE && forall p :: p in pieces ==> 0 < |p| <= chunkSize
  }

  /** One read of `piece` into the receive buffer and its conversion; `out` is what will be written. */
  method ReceivePiece(buf: array<char>, piece: string, ascii: bool, prevCr: bool) returns (out: string, lastWasCr: bool)
    requires |piece| + 1 <= buf.Length && (prevCr ==> ascii)
    modifies buf
    ensures lastWasCr <==> ascii && EndsInCr(piece)
    ensures out == if ascii then Strip(HeldCr(prevCr) + Decided(piece)) else piece
    ensures |out| <= |piece| + 1
  {
    forall i | 0 <= i < |piece| {
      buf[1 + i] := piece[i];
    }
    assert buf[1..1 + |piece|] == piece;
    if ascii {
      var start, stored;
      start, stored, lastWasCr := AsciiToBin(buf, |piece|, prevCr);
      out := buf[start..start + stored];
      StripIdentity(HeldCr(prevCr) + Decided(piece));
    } else {
      out, lastWasCr := buf[1..1 + |piece|], false;
    }
  }

  /** What the file holds once `done` has been received, a final CR being held back. */
  function Received(done: string, ascii: bool): string {
    if ascii then Strip(Decided(done)) else done
  }

  function Converted(stream: string, ascii: bool): string {
    if ascii then Strip(stream) else stream
  }

  lemma ReceivedMore(done: string, piece: string, ascii: bool, out: string)
    requires piece != ""
    requires out == if ascii then Strip(HeldCr(EndsInCr(done)) + Decided(piece)) else piece
    ensures Received(done, ascii) + out == Received(done + piece, ascii)
    ensures EndsInCr(done + piece) <==> EndsInCr(piece)
  {
    StripPiece(done, piece);
  }

  lemma ReceivedIsPrefix(done: string, rest: string, ascii: bool)
    ensures Received(done, ascii) <= Converted(done + rest, ascii)
  {
    StripPrefix(done, rest);
  }

  lemma ReceivedAll(done: string, ascii: bool)
    requires !(ascii && EndsInCr(done))
    ensures Received(done, ascii) == Converted(done, ascii)
  {
  }

  lemma {:induction false} JoinTake(pieces: seq<string>, k: nat)
    requires k < |pieces|
    ensures Join(pieces[..k + 1]) == Join(pieces[..k]) + pieces[k]
  {
    if k > 0 {
      JoinTake(pieces[1..], k - 1);
      assert pieces[..k + 1][1..] == pieces[1..][..k] && pieces[..k][1..] == pieces[1..][..k - 1];
    } else {
      assert pieces[..1][1..] == [];
    }
  }

  /** What write number k is to put into the file: the k-th piece, or at the end a CR that is still held. */
  function RecvOut(pieces: seq<string>, k: nat, ascii: bool): string
    requires k <= |pieces|
  {
    var piece := if k < |pieces| then pieces[k] else "";
    if ascii then Strip(HeldCr(EndsInCr(Join(pieces[..k]))) + Decided(piece)) else piece
  }

  function RecvWrites(pieces: seq<string>, ending: Ending): nat {
    |pieces| + if ending.EndOfData? then 1 else 0
  }

  ghost predicate RecvFits(pieces: seq<string>, n: nat, ascii: bool, capacity: nat -> nat)
    requires n <= |pieces| + 1
  {
    forall k :: 0 <= k < n ==> |RecvOut(pieces, k, ascii)| <= capacity(k)
  }

  /** Write number k is the first that could not be made in full, and the file ends there. */
  ghost predicate RecvCut(pieces: seq<string>, k: nat, ascii: bool, capacity: nat -> nat, transferred: nat, file: string)
    requires k <= |pieces|
  {
    && RecvFits(pieces, k, ascii, capacity) && capacity(k) < |RecvOut(pieces, k, ascii)|
    && file == Received(Join(pieces[..k]), ascii) + RecvOut(pieces, k, ascii)[..capacity(k)]
    && transferred == |Join(pieces[..k])| + if k < |pieces| then |pieces[k]| else 0
  }

  lemma NothingHeld(pieces: seq<string>, ascii: bool)
    requires !(ascii && EndsInCr(Join(pieces)))
    ensures RecvOut(pieces, |pieces|, ascii) == ""
  {
    assert pieces[..|pieces|] == pieces;
  }

  /** do_file_recv. The stream arrives as `pieces`, then ends or fails; if a CR is still held at the end
      it is written out and the stream is read `again`, which may yet fail. Write number k gets at most
      `capacity(k)` bytes out. However the stream is cut, a completed transfer leaves the converted
      stream in the file, and a transfer cut short leaves a prefix of it. */
  method FileRecv(pieces: seq<string>, ending: Ending, again: Ending, chunkSize: nat, ascii: bool, capacity: nat -> nat)
    returns (retval: int, transferred: nat, file: string)
    requires Readable(pieces, chunkSize)
    ensures retval == if !RecvFits(pieces, RecvWrites(pieces, ending), ascii, capacity) then -1
                      else if ending.ReadFailed? || (ascii && EndsInCr(Join(pieces)) && again.ReadFailed?) then -2
                      else 0
    ensures retval == -1 ==> file <= Converted(Join(pieces), ascii)
    ensures retval == -1 ==> exists k :: 0 <= k < RecvWrites(pieces, ending) && RecvCut(pieces, k, ascii, capacity, transferred, file)
    ensures retval != -1 ==> file == if ending.EndOfData? then Converted(Join(pieces), ascii) else Received(Join(pieces), ascii)
    ensures retval != -1 ==> transferred == |Join(pieces)|
  {
    hide Strip, Decided, HeldCr, Received, Converted, Join, EndsInCr, RecvOut;
    var buf := new char[DATA_BUFSIZE + 1];
    transferred, file := 0, "";
    var prevCr := false;
    ReceivedNothing(ascii);
    for k := 0 to |pieces|
      invariant transferred == |Join(pieces[..k])| && RecvFits(pieces, k, ascii, capacity)
      invariant prevCr <==> ascii && EndsInCr(Join(pieces[..k]))
      invariant file == Received(Join(pieces[..k]), ascii)
    {
      ghost var done := Join(pieces[..k]);
      var piece := pieces[k];
      var out;
      out, prevCr := ReceivePiece(buf, piece, ascii, prevCr);
      assert out == RecvOut(pieces, k, ascii) by {
        OutIs(pieces, k, ascii);
      }
      ReceivedMore(done, piece, ascii, out);
      JoinTake(pieces, k);
      ReceivedSoFar(pieces, k + 1, ascii);
      transferred := transferred + |piece|;
      var n := if capacity(k) < |out| then capacity(k) else |out|;
      file := file + out[..n];
      if n != |out| {
        assert RecvCut(pieces, k, ascii, capacity, transferred, file);
        return -1, transferred, file;
      }
    }
    assert pieces[..|pieces|] == pieces;
    if ending.ReadFailed? {
      return -2, transferred, file;
    }
    if prevCr {
      // Nothing more to read, but a CR is still held: this round works on an empty piece.
      var out;
      out, prevCr := ReceivePiece(buf, "", ascii, prevCr);
      OutIs(pieces, |pieces|, ascii);
      ReceivedFlush(Join(pieces), out);
      var n := if capacity(|pieces|) < |out| then capacity(|pieces|) else |out|;
      file := file + out[..n];
      if n != |out| {
        assert RecvCut(pieces, |pieces|, ascii, capacity, transferred, file);
        return -1, transferred, file;
      }
      if again.ReadFailed? {
        return -2, transferred, file;
      }
    } else {
      NothingHeld(pieces, ascii);
      ReceivedAll(Join(pieces), ascii);
    }
    return 0, transferred, file;
  }

  lemma OutIs(pieces: seq<string>, k: nat, ascii: bool)
    requires k <= |pieces|
    ensures var piece := if k < |pieces| then pieces[k] else "";
            RecvOut(pieces, k, ascii) == if ascii then Strip(HeldCr(ascii && EndsInCr(Join(pieces[..k]))) + Decided(piece)) else piece
  {
  }

  lemma ReceivedSoFar(pieces: seq<string>, k: nat, ascii: bool)
    requires k <= |pieces|
    ensures Received(Join(pieces[..k]), ascii) <= Converted(Join(pieces), ascii)
  {
    hide Received, Converted;
    JoinSplit(pieces, k);
    ReceivedIsPrefix(Join(pieces[..k]), Join(pieces[k..]), ascii);
  }

  lemma {:induction false} JoinSplit(pieces: seq<string>, k: nat)
    requires k <= |pieces|
    ensures Join(pieces) == Join(pieces[..k]) + Join(pieces[k..])
  {
    if k > 0 {
      JoinSplit(pieces[1..], k - 1);
      assert pieces[..k][1..] == pieces[1..][..k - 1] && pieces[1..][k - 1..] == pieces[k..];
    } else {
      assert pieces[..0] == [] && pieces[0..] == pieces;
    }
  }

  lemma ReceivedFlush(done: string, out: string)
    requires EndsInCr(done) && out == Strip(HeldCr(true) + Decided(""))
    ensures Received(done, true) + out == Converted(done, true)
  {
    StripFlush(done);
  }

  lemma ReceivedNothing(ascii: bool)
    ensures Join([]) == "" && Received("", ascii) == "" && !EndsInCr("")
  {
  }

  // ---------------------------------------------------------------- downloads

  lemma ExpandStep(written: string, s: string, prevCr: bool)
    requires s != ""
    ensures written + Expand(s, prevCr) ==
            (if s[0] == LF && !prevCr then written + [CR] else written) + [s[0]] + Expand(s[1..], s[0] == CR)
  {
    assert [CR, LF] == [CR] + [LF];
    Assoc(written, [CR], [LF], Expand(s[1..], s[0] == CR));
  }

  /** vsf_ascii_bin_to_ascii: at most twice as much is stored as was there. */
  method BinToAscii(input: array<char>, buf: array<char>, len: nat, prevCr: bool) returns (stored: nat, lastWasCr: bool)
    requires input != buf && len <= input.Length && 2 * len <= buf.Length
    modifies buf
    ensures stored <= 2 * len
    ensures buf[..stored] == Expand(input[..len], prevCr)
    ensures lastWasCr == if len == 0 then prevCr else EndsInCr(input[..len])
  {
    hide Expand;
    ghost var piece := input[..len];
    ghost var target := Expand(piece, prevCr);
    ghost var written, rest := "", piece;
    stored, lastWasCr := 0, prevCr;
    var lastChar := if prevCr then CR else NUL;
    var i := 0;
    while i < len
      invariant 0 <= i <= len && stored <= 2 * i && rest == piece[i..]
      invariant lastWasCr == (lastChar == CR) == if i == 0 then prevCr else piece[i - 1] == CR
      invariant written == buf[..stored]
      invariant written + Expand(rest, lastChar == CR) == target
    {
      var c := input[i];
      ExpandStep(written, rest, lastChar == CR);
      if c == LF && lastChar != CR {
        buf[stored] := CR;
        stored, written := stored + 1, written + [CR];
      }
      buf[stored] := c;
      stored, written := stored + 1, written + [c];
      i := i + 1;
      rest := rest[1..];
      lastChar := c;
      lastWasCr := c == CR;
    }
    ExpandEmpty(lastChar == CR);
  }

  lemma ExpandEmpty(prevCr: bool)
    ensures Expand("", prevCr) == ""
  {
  }

  /** The stream as it goes out to the network. */
  function Sent(stream: string, ascii: bool): string {
    if ascii then Expand(stream, false) else stream
  }

  /** One read of `piece` from the file and its conversion. */
  method PreparePiece(readBuf: array<char>, asciiBuf: array<char>, piece: string, ascii: bool, prevCr: bool)
    returns (out: string, lastWasCr: bool)
    requires readBuf != asciiBuf && |piece| <= readBuf.Length && 2 * |piece| <= asciiBuf.Length
    modifies readBuf, asciiBuf
    ensures out == if ascii then Expand(piece, prevCr) else piece
    ensures ascii ==> lastWasCr == if piece == "" then prevCr else EndsInCr(piece)
  {
    forall i | 0 <= i < |piece| {
      readBuf[i] := piece[i];
    }
    assert readBuf[..|piece|] == piece;
    if ascii {
      var stored;
      stored, lastWasCr := BinToAscii(readBuf, asciiBuf, |piece|, prevCr);
      out := asciiBuf[..stored];
    } else {
      out, lastWasCr := readBuf[..|piece|], false;
    }
  }

  lemma SentMore(done: string, piece: string, ascii: bool, out: string)
    requires piece != "" && out == if ascii then Expand(piece, EndsInCr(done)) else piece
    ensures Sent(done, ascii) + out == Sent(done + piece, ascii)
    ensures EndsInCr(done + piece) <==> EndsInCr(piece)
  {
    hide Expand, EndsInCr;
    EndsLikePiece(done, piece);
    ExpandExtends(done, piece);
  }

  lemma SentSoFar(pieces: seq<string>, k: nat, ascii: bool)
    requires k <= |pieces|
    ensures Sent(Join(pieces[..k]), ascii) <= Sent(Join(pieces), ascii)
  {
    hide Expand;
    JoinSplit(pieces, k);
    ExpandExtends(Join(pieces[..k]), Join(pieces[k..]));
  }

  lemma EndsLikePiece(done: string, piece: string)
    requires piece != ""
    ensures EndsInCr(done + piece) <==> EndsInCr(piece)
  {
    assert (done + piece)[|done + piece| - 1] == piece[|piece| - 1];
  }

  lemma ExpandExtends(done: string, more: string)
    ensures Expand(done + more, false) == Expand(done, false) + Expand(more, EndsInCr(done))
    ensures Expand(done, false) <= Expand(done + more, false)
  {
    ExpandConcat(done, more, false);
  }

  lemma SentNothing(ascii: bool)
    ensures Join([]) == "" && Sent("", ascii) == "" && !EndsInCr("")
  {
  }

  /** What write number k is to put on the network. */
  function SendOut(pieces: seq<string>, k: nat, ascii: bool): string
    requires k < |pieces|
  {
    if ascii then Expand(pieces[k], EndsInCr(Join(pieces[..k]))) else pieces[k]
  }

  ghost predicate SendFits(pieces: seq<string>, n: nat, ascii: bool, capacity: nat -> nat)
    requires n <= |pieces|
  {
    forall k :: 0 <= k < n ==> |SendOut(pieces, k, ascii)| <= capacity(k)
  }

  /** Write number k is the first that could not be made in full; it does not count as transferred. */
  ghost predicate SendCut(pieces: seq<string>, k: nat, ascii: bool, capacity: nat -> nat, transferred: nat, network: string)
    requires k < |pieces|
  {
    && SendFits(pieces, k, ascii, capacity) && capacity(k) < |SendOut(pieces, k, ascii)|
    && network == Sent(Join(pieces[..k]), ascii) + SendOut(pieces, k, ascii)[..capacity(k)]
    && transferred == |Sent(Join(pieces[..k]), ascii)|
  }

  /** do_file_send_rwloop. However the file is cut into reads, a completed transfer puts the converted
      file on the network, and one cut short a prefix of it. */
  method FileSend(pieces: seq<string>, ending: Ending, chunkSize: nat, ascii: bool, capacity: nat -> nat)
    returns (retval: int, transferred: nat, network: string)
    requires Readable(pieces, chunkSize)
    ensures retval == if !SendFits(pieces, |pieces|, ascii, capacity) then -2 else if ending.ReadFailed? then -1 else 0
    ensures retval != -2 ==> network == Sent(Join(pieces), ascii) && transferred == |network|
    ensures retval == -2 ==> network <= Sent(Join(pieces), ascii)
    ensures retval == -2 ==> exists k :: 0 <= k < |pieces| && SendCut(pieces, k, ascii, capacity, transferred, network)
  {
    hide Expand, Sent, Join, EndsInCr;
    var readBuf := new char[DATA_BUFSIZE];
    var asciiBuf := new char[2 * DATA_BUFSIZE];
    transferred, network := 0, "";
    var prevCr := false;
    SentNothing(ascii);
    for k := 0 to |pieces|
      invariant network == Sent(Join(pieces[..k]), ascii) && transferred == |network|
      invariant ascii ==> (prevCr <==> EndsInCr(Join(pieces[..k])))
      invariant SendFits(pieces, k, ascii, capacity)
    {
      var piece := pieces[k];
      var out;
      out, prevCr := PreparePiece(readBuf, asciiBuf, piece, ascii, prevCr);
      assert out == SendOut(pieces, k, ascii);
      SentMore(Join(pieces[..k]), piece, ascii, out);
      JoinTake(pieces, k);
      SentSoFar(pieces, k + 1, ascii);
      var n := if capacity(k) < |out| then capacity(k) else |out|;
      network := network + out[..n];
      if n != |out| {
        assert SendCut(pieces, k, ascii, capacity, transferred, network);
        return -2, transferred, network;
      }
      transferred := transferred + n;
    }
    assert pieces[..|pieces|] == pieces;
    retval := if ending.ReadFailed? then -1 else 0;
  }
}
