/** ftpcmdio.c: how a reply line is built from arbitrary text (section 4.2 of RFC 959), with Telnet's
    IAC byte doubled and line feeds turned into NULs. */
module Reply {
  import opened Basics
  import opened Text

  const IAC := '\U{ff}'

  // ---------------------------------------------------------------- the two rewrites

  function ReplaceChar(s: string, from: char, to: char): (r: string)
    ensures |r| == |s|
    ensures forall i :: 0 <= i < |s| ==> r[i] == if s[i] == from then to else s[i]
  {
    seq(|s|, i requires 0 <= i < |s| => if s[i] == from then to else s[i])
  }

  /** str_replace_char. */
  method ReplaceCharLoop(s: string, from: char, to: char) returns (r: string)
    ensures r == ReplaceChar(s, from, to)
  {
    r := s;
    for i := 0 to |s|
      invariant |r| == |s|
      invariant forall j :: 0 <= j < |s| ==> r[j] == if j < i && s[j] == from then to else s[j]
    {
      if r[i] == from {
        r := r[i := to];
      }
    }
  }

  /** The escaping as the standards describe it, character by character. */
  function EscapeChar(c: char): string {
    if c == IAC then [IAC, IAC] else if c == LF then [NUL] else [c]
  }

  function Escape(text: string): string {
    if text == "" then "" else EscapeChar(text[0]) + Escape(text[1..])
  }

  /** What a client does to a reply text: two IACs stand for one, a NUL for a line feed. */
  function Unescape(s: string): string {
    if s == "" then ""
    else if s[0] == IAC && |s| > 1 && s[1] == IAC then [IAC] + Unescape(s[2..])
    else [if s[0] == NUL then LF else s[0]] + Unescape(s[1..])
  }

  lemma ReplaceFirst(s: string, to: string)
    requires s != ""
    ensures Replace(s, [IAC], to) == (if s[0] == IAC then to else [s[0]]) + Replace(s[1..], [IAC], to)
  {
    assert s == [s[0]] + s[1..];
    assert NoStraddle([s[0]], s[1..], [IAC]);
    ReplaceConcat([s[0]], s[1..], [IAC], to);
    if s[0] == IAC {
      assert OccursAt([IAC], [IAC], 0);
      LocateIs([IAC], [IAC], 0);
      assert Replace("", [IAC], to) == "";
    } else {
      CharOccurs([s[0]], IAC, 0);
      assert !Occurs([s[0]], [IAC]);
      ReplaceAbsent([s[0]], [IAC], to);
    }
  }

  /** Rewriting the whole text twice is escaping each character once. */
  lemma {:induction false} EscapeByReplace(text: string)
    ensures ReplaceChar(Replace(text, [IAC], [IAC, IAC]), LF, NUL) == Escape(text)
  {
    if text != "" {
      ReplaceFirst(text, [IAC, IAC]);
      EscapeByReplace(text[1..]);
      EscapeFirst(text[0], Replace(text[1..], [IAC], [IAC, IAC]));
    } else {
      assert Replace("", [IAC], [IAC, IAC]) == "";
    }
  }

  lemma EscapeFirst(c: char, rest: string)
    ensures ReplaceChar((if c == IAC then [IAC, IAC] else [c]) + rest, LF, NUL) == EscapeChar(c) + ReplaceChar(rest, LF, NUL)
  {
  }

  lemma {:induction false} EscapeHasNoLf(text: string)
    ensures LF !in Escape(text)
  {
    if text != "" {
      EscapeHasNoLf(text[1..]);
    }
  }

  /** A client recovers the text exactly when it holds no NUL. */
  lemma {:induction false} UnescapeEscape(text: string)
    ensures |Unescape(Escape(text))| == |text|
    ensures Unescape(Escape(text)) == text <==> NUL !in text
  {
    if text != "" {
      UnescapeEscape(text[1..]);
      var c, rest := text[0], Escape(text[1..]);
      if c == IAC {
        assert ([IAC, IAC] + rest)[2..] == rest;
      } else {
        assert (EscapeChar(c) + rest)[1..] == rest;
      }
      var d := if c == NUL then LF else c;
      assert Unescape(Escape(text)) == [d] + Unescape(rest);
      assert text == [c] + text[1..];
      assert ([d] + Unescape(rest))[1..] == Unescape(rest);
    }
  }

  // ---------------------------------------------------------------- reply lines

  /** A reply without its final line feed. */
  function ReplyLine(status: nat, sep: char, text: string): string {
    Decimal(status) + [sep] + Escape(text) + [CR]
  }

  /** ftp_write_str_common: the bytes put on the control connection. Cut at its line feeds the output
      is one line per reply. */
  method BuildReply(status: nat, sep: char, text: string) returns (reply: string)
    requires sep != LF
    ensures reply == ReplyLine(status, sep, text) + [LF]
    ensures LF !in ReplyLine(status, sep, text)
  {
    var mangled := ReplaceText(text, [IAC], [IAC, IAC]);
    mangled := ReplaceCharLoop(mangled, LF, NUL);
    EscapeByReplace(text);
    EscapeHasNoLf(text);
    reply := Decimal(status);
    assert LF !in Decimal(status);
    reply := reply + [sep];
    reply := reply + mangled;
    reply := reply + [CR, LF];
    assert [CR, LF] == [CR] + [LF];
  }

  datatype Response = Response(status: nat, sep: char, text: string)

  predicate IsDigit(c: char) {
    '0' <= c <= '9'
  }

  function LeadingDigits(s: string): (d: string)
    ensures d <= s && AllDigits(d)
  {
    if s != "" && IsDigit(s[0]) then [s[0]] + LeadingDigits(s[1..]) else ""
  }

  /** How a client reads a reply line: a number, one character, the text, and a CR at the end. */
  function Understood(line: string): Option<Response> {
    var d := LeadingDigits(line);
    if d != "" && |d| + 2 <= |line| && line[|line| - 1] == CR
    then Some(Response(DecValue(d), line[|d|], Unescape(line[|d| + 1..|line| - 1])))
    else None
  }

  lemma {:induction false} DigitsLead(d: string, rest: string)
    requires AllDigits(d) && rest != "" && !IsDigit(rest[0])
    ensures LeadingDigits(d + rest) == d
  {
    if d == "" {
      assert d + rest == rest;
    } else {
      assert d + rest == [d[0]] + (d[1..] + rest);
      assert IsDigit(d[0]);
      DigitsLead(d[1..], rest);
    }
  }

  /** The client gets the status and the separator always, and the text exactly when it holds no NUL. */
  lemma ReplyUnderstood(status: nat, sep: char, text: string)
    requires !IsDigit(sep)
    ensures var r := Understood(ReplyLine(status, sep, text));
            r.Some? && r.value.status == status && r.value.sep == sep &&
            (r.value.text == text <==> NUL !in text)
  {
    var d := Decimal(status);
    var line, rest := ReplyLine(status, sep, text), [sep] + Escape(text) + [CR];
    assert line == d + rest;
    DigitsLead(d, rest);
    DecimalValue(status);
    assert line[|d| + 1..|line| - 1] == Escape(text);
    UnescapeEscape(text);
  }

  function ReplyLines(responses: seq<Response>): seq<string> {
    seq(|responses|, i requires 0 <= i < |responses| =>
      ReplyLine(responses[i].status, responses[i].sep, responses[i].text))
  }

  /** A client that cuts the control stream at line feeds sees the replies, all of them and nothing else. */
  lemma ConversationFramed(responses: seq<Response>)
    requires forall r :: r in responses ==> r.sep != LF
    ensures Lines(JoinLines(ReplyLines(responses))) == ReplyLines(responses)
  {
    var lines := ReplyLines(responses);
    forall l | l in lines ensures LF !in l {
      var i :| 0 <= i < |lines| && lines[i] == l;
      var r := responses[i];
      assert r in responses;
      EscapeHasNoLf(r.text);
      assert LF !in Decimal(r.status);
    }
    LinesOfJoin(lines);
  }

  /** It reads each of them as the response that was sent. */
  lemma ConversationUnderstood(responses: seq<Response>)
    requires forall r :: r in responses ==> r.sep != LF && !IsDigit(r.sep) && NUL !in r.text
    ensures var lines := Lines(JoinLines(ReplyLines(responses)));
            |lines| == |responses| && forall i :: 0 <= i < |lines| ==> Understood(lines[i]) == Some(responses[i])
  {
    ConversationFramed(responses);
    forall i | 0 <= i < |responses| ensures Understood(ReplyLines(responses)[i]) == Some(responses[i]) {
      var r := responses[i];
      assert r in responses;
      ReplyUnderstood(r.status, r.sep, r.text);
    }
  }
}
