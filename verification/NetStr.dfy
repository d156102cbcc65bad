/** netstr.c: reading one line of the command stream by peeking at whatever has arrived. */
module NetStr {
  import opened Basics
  import opened Text

  /** What a call of str_netfd_alloc does to the stream. */
  datatype Line =
    | Got(text: string, consumed: nat)
    | TooLong(consumed: nat)
    | NoData

  /** The line a stream starts with, however its bytes arrive: the text before the first terminator if
      that is among the first `maxlen` bytes, otherwise `maxlen` bytes are thrown away; a stream that
      ends before either happens kills the session. */
  function FirstLine(stream: string, term: char, maxlen: nat): (r: Line) {
    var window := if |stream| < maxlen then stream else stream[..maxlen];
    if term in window then Got(Before(window, term), |Before(window, term)| + 1)
    else if |window| == maxlen then TooLong(maxlen)
    else NoData
  }

  lemma GotLine(stream: string, term: char, maxlen: nat, k: nat)
    requires k < maxlen && k < |stream| && stream[k] == term && term !in stream[..k]
    ensures FirstLine(stream, term, maxlen) == Got(stream[..k], k + 1)
  {
    var window := if |stream| < maxlen then stream else stream[..maxlen];
    assert window[k] == term;
    assert window == stream[..k] + [term] + window[k + 1..];
    BeforeUnique(stream[..k], window[k + 1..], term);
  }

  lemma NoLine(stream: string, term: char, maxlen: nat, k: nat)
    requires k <= maxlen && k <= |stream| && term !in stream[..k]
    ensures k == maxlen ==> FirstLine(stream, term, maxlen) == TooLong(maxlen)
    ensures k == |stream| < maxlen ==> FirstLine(stream, term, maxlen) == NoData
  {
    assert k == |stream| ==> stream[..k] == stream;
  }

  /** str_alloc_alt_term: the buffer up to its first terminator. */
  method AllocAltTerm(buf: array<char>, term: char, ghost limit: nat) returns (s: string)
    requires limit < buf.Length && buf[limit] == term && term !in buf[..limit]
    ensures s == buf[..limit]
  {
    forall j | 0 <= j < limit ensures buf[j] != term {
      assert buf[..limit][j] == buf[j];
    }
    var len := 0;
    while buf[len] != term
      invariant len <= limit
      decreases limit - len
    {
      len := len + 1;
    }
    s := buf[..len];
  }

  /** The search through the bytes of one peek. */
  method FindTerm(buf: array<char>, term: char, pos: nat, n: nat) returns (i: nat)
    requires pos + n <= buf.Length && term !in buf[..pos]
    ensures i <= n && term !in buf[..pos + i]
    ensures i < n ==> buf[pos + i] == term
  {
    i := 0;
    while i < n
      invariant 0 <= i <= n && term !in buf[..pos + i]
    {
      if buf[pos + i] == term {
        return;
      }
      assert buf[..pos + i + 1] == buf[..pos + i] + [buf[pos + i]];
      i := i + 1;
    }
  }

  /** The next bytes of the stream appear behind what has been read. */
  method Peek(stream: string, buf: array<char>, pos: nat, n: nat)
    requires pos + n <= |stream| && pos + n <= buf.Length && buf[..pos] == stream[..pos]
    modifies buf
    ensures buf[..pos] == old(buf[..pos]) && buf[..pos + n] == stream[..pos + n]
  {
    ghost var before := buf[..pos];
    forall i | 0 <= i < n {
      buf[pos + i] := stream[pos + i];
    }
    assert buf[..pos] == before;
    assert buf[..pos + n] == buf[..pos] + buf[pos..pos + n];
    assert stream[..pos + n] == stream[..pos] + stream[pos..pos + n];
  }

  lemma LineFound(stream: string, seen: string, term: char, maxlen: nat, k: nat, line: string)
    requires k < |seen| <= maxlen && |seen| <= |stream| && seen == stream[..|seen|] && line == seen[..k]
    requires seen[k] == term && term !in line
    ensures FirstLine(stream, term, maxlen) == Got(line, k + 1)
  {
    hide FirstLine;
    assert stream[..k] == line && stream[k] == term;
    GotLine(stream, term, maxlen, k);
  }

  /** str_netfd_alloc. At each turn the peek shows `1 + schedule(turn) % available` bytes, so every
      segmentation of the stream is some `schedule`; the outcome does not mention it. */
  method ReadLine(stream: string, term: char, buf: array<char>, maxlen: nat, schedule: nat -> nat) returns (line: Line)
    requires maxlen <= buf.Length
    modifies buf
    ensures line == FirstLine(stream, term, maxlen)
  {
    hide FirstLine;
    var pos, left, turn := 0, maxlen, 0;
    while true
      invariant 0 <= left && 0 <= pos <= |stream| && pos + left == maxlen
      invariant buf[..pos] == stream[..pos] && term !in buf[..pos]
      decreases left
    {
      NoLine(stream, term, maxlen, pos);
      if left == 0 {
        return TooLong(pos);
      }
      var available := if |stream| - pos < left then |stream| - pos else left;
      if available == 0 {
        return NoData;
      }
      var n := 1 + schedule(turn) % available;
      Peek(stream, buf, pos, n);
      var i := FindTerm(buf, term, pos, n);
      if i < n {
        var text := AllocAltTerm(buf, term, pos + i);
        LineFound(stream, buf[..pos + n], term, maxlen, pos + i, buf[..pos + i]);
        return Got(text, pos + i + 1);
      }
      left, pos, turn := left - n, pos + n, turn + 1;
    }
  }

  // ---------------------------------------------------------------- a whole conversation

  /** The commands as a client sends them. */
  function Feed(lines: seq<string>, term: char): string {
    if lines == [] then "" else lines[0] + [term] + Feed(lines[1..], term)
  }

  /** A line comes through as it was sent exactly when it and its terminator fit the buffer. */
  lemma FramingExact(line: string, rest: string, term: char, maxlen: nat)
    requires term !in line
    ensures FirstLine(line + [term] + rest, term, maxlen) == Got(line, |line| + 1) <==> |line| < maxlen
  {
    var stream := line + [term] + rest;
    if |line| < maxlen {
      assert stream[..|line|] == line;
      GotLine(stream, term, maxlen, |line|);
    } else {
      assert stream[..maxlen] == line[..maxlen];
      NoLine(stream, term, maxlen, maxlen);
    }
  }

  /** The lines read from a stream by call after call, as far as they come through. */
  function AllLines(stream: string, term: char, maxlen: nat): seq<string>
    decreases |stream|
  {
    match FirstLine(stream, term, maxlen)
    case Got(text, consumed) => [text] + AllLines(stream[consumed..], term, maxlen)
    case TooLong(_) => []
    case NoData => []
  }

  /** Reading undoes feeding. */
  lemma {:induction false} ReadsWhatWasFed(lines: seq<string>, term: char, maxlen: nat)
    requires 0 < maxlen && forall l :: l in lines ==> term !in l && |l| < maxlen
    ensures AllLines(Feed(lines, term), term, maxlen) == lines
  {
    if lines != [] {
      var rest := Feed(lines[1..], term);
      FramingExact(lines[0], rest, term, maxlen);
      assert (lines[0] + [term] + rest)[|lines[0]| + 1..] == rest;
      ReadsWhatWasFed(lines[1..], term, maxlen);
    } else {
      assert FirstLine("", term, maxlen) == NoData;
    }
  }

  /** One call: what has been read, and what the calls after it will read. */
  lemma NextLine(lines: seq<string>, rest: string, term: char, maxlen: nat)
    ensures var line := FirstLine(rest, term, maxlen);
            && (line.Got? ==> 0 < line.consumed <= |rest|)
            && (line.Got? ==> lines + AllLines(rest, term, maxlen) == lines + [line.text] + AllLines(rest[line.consumed..], term, maxlen))
            && (!line.Got? ==> lines + AllLines(rest, term, maxlen) == lines)
  {
  }

  /** The command loop as a reader: calls str_netfd_alloc until no further line comes through, each call
      with a schedule of its own. */
  method ReadLines(stream: string, term: char, maxlen: nat, schedules: nat -> nat -> nat) returns (lines: seq<string>)
    ensures lines == AllLines(stream, term, maxlen)
  {
    hide AllLines, FirstLine;
    var buf := new char[maxlen];
    lines := [];
    var rest := stream;
    ghost var total := AllLines(stream, term, maxlen);
    while true
      invariant lines + AllLines(rest, term, maxlen) == total
      decreases |rest|
    {
      NextLine(lines, rest, term, maxlen);
      var line := ReadLine(rest, term, buf, maxlen, schedules(|lines|));
      if !line.Got? {
        return;
      }
      lines, rest := lines + [line.text], rest[line.consumed..];
    }
  }
}
