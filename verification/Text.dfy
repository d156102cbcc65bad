/** The text operations of str.c that the rest of the server is written in.
    A `mystr` is modelled as the `string` it holds; characters are bytes, so '\0' stands for NUL. */
module Text {
  import opened Basics

  const LF := '\n'
  const CR := '\r'
  const NUL := '\0'

  /** `t` stands in `s` starting at index `i`. */
  predicate OccursAt(s: string, t: string, i: int) {
    0 <= i && i + |t| <= |s| && s[i..i + |t|] == t
  }

  ghost predicate Occurs(s: string, t: string) {
    exists i :: OccursAt(s, t, i)
  }

  /** The characters of an occurrence are those of the text. */
  lemma OccurrenceChars(s: string, t: string, i: int)
    requires OccursAt(s, t, i)
    ensures forall j {:trigger s[j]} :: i <= j < i + |t| ==> s[j] == t[j - i]
  {
    assert forall j {:trigger s[j]} :: i <= j < i + |t| ==> s[j] == s[i..i + |t|][j - i];
  }

  function LocateFrom(s: string, t: string, i: nat): (r: Option<nat>)
    ensures r.Some? ==> i <= r.value <= |s| - |t|
    decreases |s| - i
  {
    if i + |t| > |s| then None
    else if s[i..i + |t|] == t then Some(i)
    else LocateFrom(s, t, i + 1)
  }

  /** The first occurrence of `t`; an empty `t` is never found. */
  function Locate(s: string, t: string): (r: Option<nat>)
    ensures r.Some? ==> t != "" && r.value + |t| <= |s|
  {
    if t == "" then None else LocateFrom(s, t, 0)
  }

  lemma {:induction false} LocateFromMeaning(s: string, t: string, i: nat)
    ensures LocateFrom(s, t, i).None? ==> forall j :: i <= j ==> !OccursAt(s, t, j)
    ensures LocateFrom(s, t, i).Some? ==>
              var k := LocateFrom(s, t, i).value; OccursAt(s, t, k) && forall j :: i <= j < k ==> !OccursAt(s, t, j)
    decreases |s| - i
  {
    if i + |t| <= |s| && s[i..i + |t|] != t {
      LocateFromMeaning(s, t, i + 1);
      assert !OccursAt(s, t, i);
    }
  }

  /** Locate finds nothing exactly when there is nothing to find, and otherwise the leftmost occurrence. */
  lemma LocateMeaning(s: string, t: string)
    ensures Locate(s, t).None? <==> t == "" || !Occurs(s, t)
    ensures Locate(s, t).Some? ==>
              var k := Locate(s, t).value; OccursAt(s, t, k) && forall j :: 0 <= j < k ==> !OccursAt(s, t, j)
  {
    if t != "" {
      LocateFromMeaning(s, t, 0);
    }
  }

  /** The two clauses of LocateMeaning determine the result. */
  lemma LocateIs(s: string, t: string, k: nat)
    requires t != "" && OccursAt(s, t, k)
    requires forall j :: 0 <= j < k ==> !OccursAt(s, t, j)
    ensures Locate(s, t) == Some(k)
  {
    LocateMeaning(s, t);
    assert Occurs(s, t);
  }

  /** str_locate_text. */
  method LocateText(s: string, t: string) returns (r: Option<nat>)
    ensures r == Locate(s, t)
  {
    if |t| == 0 || |t| > |s| {
      return None;
    }
    var i := 0;
    while i <= |s| - |t|
      invariant 0 <= i <= |s| - |t| + 1
      invariant forall j :: 0 <= j < i ==> !OccursAt(s, t, j)
    {
      if s[i..i + |t|] == t {
        LocateIs(s, t, i);
        return Some(i);
      }
      i := i + 1;
    }
    LocateMeaning(s, t);
    return None;
  }

  /** The text a C function sees when handed the buffer of `s`: everything before the first NUL. */
  function CText(s: string): (r: string)
    ensures NUL !in r
    ensures r <= s
    ensures r == s <==> NUL !in s
  {
    if s == "" || s[0] == NUL then "" else
      assert s == [s[0]] + s[1..];
      [s[0]] + CText(s[1..])
  }

  /** str_split_text: the text before the first `t`, and the text after it. */
  function Split(s: string, t: string): (r: (string, string))
    ensures Locate(s, t).None? ==> r == (s, "")
    ensures Locate(s, t).Some? ==> s == r.0 + t + r.1 && |r.0| == Locate(s, t).value
  {
    LocateMeaning(s, t);
    match Locate(s, t)
    case None => (s, "")
    case Some(i) => (s[..i], s[i + |t|..])
  }

  /** The characters of `s` that precede its first `c`. */
  function Before(s: string, c: char): (r: string)
    ensures c !in r && r <= s
    ensures c !in s ==> r == s
    ensures c in s ==> |r| < |s| && s[|r|] == c
  {
    if s == "" || s[0] == c then "" else
      assert s == [s[0]] + s[1..];
      [s[0]] + Before(s[1..], c)
  }

  function After(s: string, c: char): (r: string)
    ensures c in s ==> s == Before(s, c) + [c] + r
    ensures c !in s ==> r == ""
  {
    if c in s then s[|Before(s, c)| + 1..] else ""
  }

  lemma CharOccurs(s: string, c: char, i: int)
    ensures OccursAt(s, [c], i) <==> 0 <= i < |s| && s[i] == c
  {
    if 0 <= i < |s| {
      assert s[i..i + 1] == [s[i]];
    }
  }

  /** str_split_char. */
  lemma SplitChar(s: string, c: char)
    ensures Split(s, [c]) == (Before(s, c), After(s, c))
  {
    var b := Before(s, c);
    forall i ensures OccursAt(s, [c], i) <==> 0 <= i < |s| && s[i] == c {
      CharOccurs(s, c, i);
    }
    if c in s {
      assert forall j :: 0 <= j < |b| ==> s[j] == b[j];
      LocateIs(s, [c], |b|);
    } else {
      LocateMeaning(s, [c]);
    }
  }

  // ---------------------------------------------------------------- str_replace_text

  /** Leftmost, non-overlapping replacement of `from` by `to`. */
  function Replace(s: string, from: string, to: string): string
    decreases |s|
  {
    match Locate(s, from)
    case None => s
    case Some(i) => s[..i] + to + Replace(s[i + |from|..], from, to)
  }

  /** One round of str_replace_text: what has been produced, and what is still to be searched. */
  lemma {:induction false} ReplaceRound(out: string, s: string, from: string, to: string)
    ensures var (lhs, rhs) := Split(s, from);
            out + Replace(s, from, to) == (if |lhs| < |s| then out + lhs + to else out + lhs) + Replace(rhs, from, to)
  {
    var (lhs, rhs) := Split(s, from);
    if Locate(s, from).Some? {
      assert Replace(s, from, to) == lhs + to + Replace(rhs, from, to);
      Assoc(out, lhs, to, Replace(rhs, from, to));
    } else {
      assert Replace("", from, to) == "";
    }
  }

  /** str_replace_text: repeated splitting, each hit recognised by the left part having shrunk. */
  method ReplaceText(s: string, from: string, to: string) returns (out: string)
    ensures out == Replace(s, from, to)
  {
    out := "";
    var chunk := s;
    ghost var total := Replace(s, from, to);
    while true
      invariant out + Replace(chunk, from, to) == total
      decreases |chunk|
    {
      ReplaceRound(out, chunk, from, to);
      var (lhs, rhs) := Split(chunk, from);
      out := out + lhs;
      if |lhs| < |chunk| {
        out := out + to;
      }
      if |rhs| == 0 {
        assert Replace("", from, to) == "";
        return;
      }
      chunk := rhs;
    }
  }

  lemma Assoc(a: string, b: string, c: string, d: string)
    ensures a + b + (c + d) == (a + b + c) + d
    ensures a + (b + c + d) == a + b + c + d
  {
  }

  lemma OccursLeft(a: string, b: string, t: string, i: int)
    requires i + |t| <= |a|
    ensures OccursAt(a + b, t, i) <==> OccursAt(a, t, i)
  {
    if 0 <= i {
      assert (a + b)[i..i + |t|] == a[i..i + |t|];
    }
  }

  lemma OccursRight(a: string, b: string, t: string, i: nat)
    ensures OccursAt(a + b, t, |a| + i) <==> OccursAt(b, t, i)
  {
    if i + |t| <= |b| {
      assert (a + b)[|a| + i..|a| + i + |t|] == b[i..i + |t|];
    }
  }

  /** No occurrence of `t` in `a + b` crosses from `a` into `b`. */
  ghost predicate NoStraddle(a: string, b: string, t: string) {
    forall i :: OccursAt(a + b, t, i) ==> i + |t| <= |a| || |a| <= i
  }

  lemma LocateInLeft(a: string, b: string, t: string)
    requires Locate(a, t).Some?
    ensures Locate(a + b, t) == Locate(a, t)
  {
    LocateMeaning(a, t);
    var k := Locate(a, t).value;
    forall j | 0 <= j <= k ensures OccursAt(a + b, t, j) <==> OccursAt(a, t, j) {
      OccursLeft(a, b, t, j);
    }
    LocateIs(a + b, t, k);
  }

  /** Where `a` has no occurrence, those of `a + b` are those of `b`. */
  lemma OccursOnlyRight(a: string, b: string, t: string, i: int)
    requires NoStraddle(a, b, t) && t != "" && !Occurs(a, t)
    ensures OccursAt(a + b, t, i) <==> |a| <= i && OccursAt(b, t, i - |a|)
  {
    if i + |t| <= |a| {
      OccursLeft(a, b, t, i);
    }
    if |a| <= i {
      OccursRight(a, b, t, i - |a|);
    }
  }

  lemma LocateInRight(a: string, b: string, t: string)
    requires NoStraddle(a, b, t) && Locate(a, t).None?
    ensures Locate(b, t).Some? ==> Locate(a + b, t) == Some(|a| + Locate(b, t).value)
    ensures Locate(b, t).None? ==> Locate(a + b, t).None?
  {
    if t != "" {
      LocateMeaning(a, t);
      LocateMeaning(b, t);
      forall i ensures OccursAt(a + b, t, i) <==> |a| <= i && OccursAt(b, t, i - |a|) {
        OccursOnlyRight(a, b, t, i);
      }
      if Locate(b, t).Some? {
        LocateIs(a + b, t, |a| + Locate(b, t).value);
      } else {
        LocateMeaning(a + b, t);
      }
    }
  }

  lemma NoStraddleTail(a: string, b: string, t: string, k: nat)
    requires NoStraddle(a, b, t) && k <= |a|
    ensures NoStraddle(a[k..], b, t)
  {
    forall j | OccursAt(a[k..] + b, t, j) ensures j + |t| <= |a[k..]| || |a[k..]| <= j {
      assert a + b == a[..k] + (a[k..] + b);
      OccursRight(a[..k], a[k..] + b, t, j);
    }
  }

  lemma {:induction false} ReplaceHit(s: string, from: string, to: string, i: nat)
    requires Locate(s, from) == Some(i)
    ensures Replace(s, from, to) == s[..i] + to + Replace(s[i + |from|..], from, to)
  {
  }

  lemma {:induction false} ReplaceNone(s: string, from: string, to: string)
    requires Locate(s, from).None?
    ensures Replace(s, from, to) == s
  {
  }

  lemma {:induction false} ReplaceMiss(a: string, b: string, from: string, to: string)
    requires NoStraddle(a, b, from) && Locate(a, from).None?
    ensures Replace(a + b, from, to) == a + Replace(b, from, to)
  {
    hide Replace, Locate, NoStraddle;
    LocateInRight(a, b, from);
    match Locate(b, from)
    case None =>
      ReplaceNone(b, from, to);
      ReplaceNone(a + b, from, to);
    case Some(i) =>
      var j, rest := |a| + i, b[i + |from|..];
      ReplaceHit(a + b, from, to, j);
      ReplaceHit(b, from, to, i);
      assert (a + b)[j + |from|..] == rest && (a + b)[..j] == a + b[..i];
      Assoc(a, b[..i], to, Replace(rest, from, to));
  }

  /** Replacement commutes with concatenation when no occurrence of `from` crosses the seam. */
  lemma {:induction false} ReplaceConcat(a: string, b: string, from: string, to: string)
    requires NoStraddle(a, b, from)
    ensures Replace(a + b, from, to) == Replace(a, from, to) + Replace(b, from, to)
    decreases |a|
  {
    hide Replace, Locate, NoStraddle;
    match Locate(a, from)
    case None =>
      ReplaceNone(a, from, to);
      ReplaceMiss(a, b, from, to);
    case Some(i) =>
      var rest := a[i + |from|..];
      LocateInLeft(a, b, from);
      ReplaceHit(a + b, from, to, i);
      ReplaceHit(a, from, to, i);
      assert (a + b)[..i] == a[..i] && (a + b)[i + |from|..] == rest + b;
      NoStraddleTail(a, b, from, i + |from|);
      ReplaceConcat(rest, b, from, to);
      Assoc(a[..i], to, Replace(rest, from, to), Replace(b, from, to));
  }

  lemma {:induction false} ReplaceAbsent(s: string, from: string, to: string)
    requires !Occurs(s, from)
    ensures Replace(s, from, to) == s
  {
    LocateMeaning(s, from);
  }

  // ---------------------------------------------------------------- lines

  /** The lines str_getline hands out one after another; a last line needs no terminator. */
  function Lines(s: string): seq<string>
    decreases |s|
  {
    if s == "" then []
    else if LF in s then [Before(s, LF)] + Lines(After(s, LF))
    else [s]
  }

  function JoinLines(lines: seq<string>): string {
    if lines == [] then "" else lines[0] + [LF] + JoinLines(lines[1..])
  }

  ghost predicate LineTexts(lines: seq<string>) {
    forall l :: l in lines ==> LF !in l
  }

  lemma {:induction false} BeforeUnique(l: string, rest: string, c: char)
    requires c !in l
    ensures Before(l + [c] + rest, c) == l && After(l + [c] + rest, c) == rest
  {
    var s := l + [c] + rest;
    if l != "" {
      assert s[1..] == l[1..] + [c] + rest;
      BeforeUnique(l[1..], rest, c);
    }
    assert s[|l|] == c;
    assert s[|l| + 1..] == rest;
  }

  /** Reading lines back undoes writing them. */
  lemma {:induction false} LinesOfJoin(lines: seq<string>)
    requires LineTexts(lines)
    ensures Lines(JoinLines(lines)) == lines
  {
    if lines != [] {
      assert lines[0] in lines;
      var rest := JoinLines(lines[1..]);
      assert JoinLines(lines) == lines[0] + [LF] + rest;
      BeforeUnique(lines[0], rest, LF);
      assert LF in JoinLines(lines) by {
        assert JoinLines(lines)[|lines[0]|] == LF;
      }
      LinesOfJoin(lines[1..]);
    }
  }

  /** What stands behind the last line feed is a line of its own. */
  lemma {:induction false} LinesUnterminated(lines: seq<string>, last: string)
    requires LineTexts(lines) && LF !in last && last != ""
    ensures Lines(JoinLines(lines) + last) == lines + [last]
  {
    if lines == [] {
      assert JoinLines(lines) + last == last;
    } else {
      assert lines[0] in lines;
      var s, rest := JoinLines(lines) + last, JoinLines(lines[1..]) + last;
      assert s == lines[0] + [LF] + rest;
      BeforeUnique(lines[0], rest, LF);
      assert s[|lines[0]|] == LF;
      LinesUnterminated(lines[1..], last);
      assert lines == [lines[0]] + lines[1..];
    }
  }

  lemma {:induction false} LinesAreLineTexts(s: string)
    ensures LineTexts(Lines(s))
    decreases |s|
  {
    if s != "" && LF in s {
      LinesAreLineTexts(After(s, LF));
    }
  }

  lemma {:induction false} JoinConcat(a: seq<string>, b: seq<string>)
    ensures JoinLines(a + b) == JoinLines(a) + JoinLines(b)
  {
    if a == [] {
      assert a + b == b;
    } else {
      assert (a + b)[1..] == a[1..] + b;
      JoinConcat(a[1..], b);
    }
  }

  /** str_getline. */
  method GetLine(s: string, pos: nat) returns (found: bool, line: string, next: nat)
    requires pos <= |s|
    ensures found <==> pos < |s|
    ensures found ==> pos < next <= |s| && Lines(s[pos..]) == [line] + Lines(s[next..])
    ensures !found ==> line == "" && next == pos && Lines(s[pos..]) == []
  {
    if pos == |s| {
      return false, "", pos;
    }
    var curr := pos;
    while curr < |s| && s[curr] != LF
      invariant pos <= curr <= |s|
      invariant forall k :: pos <= k < curr ==> s[k] != LF
    {
      curr := curr + 1;
    }
    line := s[pos..curr];
    found := true;
    ghost var rest := s[pos..];
    if curr < |s| {
      next := curr + 1;
      assert rest == line + [LF] + s[next..];
      BeforeUnique(line, s[next..], LF);
      assert rest[curr - pos] == LF;
    } else {
      next := curr;
      assert rest == line;
      assert s[next..] == "";
    }
  }

  /** str_contains_line. */
  method ContainsLine(s: string, line: string) returns (b: bool)
    ensures b <==> line in Lines(s)
  {
    var pos := 0;
    assert s[0..] == s;
    while true
      invariant 0 <= pos <= |s|
      invariant line in Lines(s) <==> line in Lines(s[pos..])
      decreases |s| - pos
    {
      var found, curr, next := GetLine(s, pos);
      if !found {
        return false;
      }
      if curr == line {
        return true;
      }
      pos := next;
    }
  }
}
