/** mcupdate.c, second half: the list of manual changes is folded into the update instructions by
    searching and replacing in the instruction text. Here that is related to what it is meant to do to
    the lines of the text, and to the marker each path ends up with. */
module UpdateChanges {
  import opened Basics
  import opened Text

  // ---------------------------------------------------------------- replacing within lines

  /** Text whose only line feed, if any, is its last character cannot reach across the end of a line. */
  lemma LineSeam(l: string, rest: string, t: string)
    requires LF !in l && (t == "" || LF !in t[..|t| - 1])
    ensures NoStraddle(l + [LF], rest, t)
  {
    var s := (l + [LF]) + rest;
    forall i | OccursAt(s, t, i) ensures i + |t| <= |l| + 1 || |l| + 1 <= i {
      OccurrenceChars(s, t, i);
      assert s[|l|] == LF;
      assert forall k :: 0 <= k < |t| - 1 ==> t[k] == t[..|t| - 1][k];
    }
  }

  function MapLines(lines: seq<string>, f: string -> string): (r: seq<string>)
    ensures |r| == |lines| && forall i :: 0 <= i < |lines| ==> r[i] == f(lines[i])
  {
    seq(|lines|, i requires 0 <= i < |lines| => f(lines[i]))
  }

  /** Replacing text without line feeds in a joined text replaces it in every line by itself. */
  lemma {:induction false} ReplaceInLines(lines: seq<string>, a: string, b: string)
    requires LineTexts(lines) && LF !in a
    ensures Replace(JoinLines(lines), a, b) == JoinLines(MapLines(lines, l => Replace(l, a, b)))
  {
    hide Replace;
    if lines == [] {
      ReplaceAbsentEmpty(a, b);
    } else {
      var l, rest := lines[0], JoinLines(lines[1..]);
      assert l in lines && forall t :: t in lines[1..] ==> t in lines;
      LineSeam(l, rest, a);
      ReplaceConcat(l + [LF], rest, a, b);
      ReplaceLine(l, a, b);
      ReplaceInLines(lines[1..], a, b);
      assert MapLines(lines, l => Replace(l, a, b))[1..] == MapLines(lines[1..], l => Replace(l, a, b));
    }
  }

  lemma ReplaceAbsentEmpty(a: string, b: string)
    ensures Replace("", a, b) == ""
  {
  }

  lemma NotInLf(a: string)
    requires LF !in a && a != ""
    ensures !Occurs([LF], a)
  {
    forall i ensures !OccursAt([LF], a, i) {
      assert i == 0 && |a| == 1 ==> [LF][i..i + |a|] == [LF];
      assert a[0] != LF;
    }
  }

  lemma ReplaceLine(l: string, a: string, b: string)
    requires LF !in a
    ensures Replace(l + [LF], a, b) == Replace(l, a, b) + [LF]
  {
    hide Replace;
    var s := l + [LF];
    forall i | OccursAt(s, a, i) ensures i + |a| <= |l| || |l| <= i {
      OccurrenceChars(s, a, i);
      assert s[|l|] == LF;
    }
    ReplaceConcat(l, [LF], a, b);
    if a != "" {
      NotInLf(a);
    }
    ReplaceNoneOrEmpty([LF], a, b);
  }

  lemma ReplaceNoneOrEmpty(s: string, a: string, b: string)
    requires a == "" || !Occurs(s, a)
    ensures Replace(s, a, b) == s
  {
    LocateMeaning(s, a);
  }

  // ---------------------------------------------------------------- changing a line

  function Swap(lines: seq<string>, a: string, b: string): seq<string> {
    MapLines(lines, l => if l == a then b else l)
  }

  /** `a` stands in no line but those equal to it. */
  ghost predicate OnlyAsLine(lines: seq<string>, a: string) {
    forall l :: l in lines && l != a ==> !Occurs(l, a)
  }

  lemma ReplaceWhole(a: string, b: string)
    requires a != ""
    ensures Replace(a, a, b) == b
  {
    assert OccursAt(a, a, 0);
    LocateIs(a, a, 0);
    ReplaceHit(a, a, b, 0);
    assert a[|a|..] == "";
    ReplaceAbsentEmpty(a, b);
  }

  lemma ReplaceChanges(l: string, a: string, b: string)
    requires a != "" && |a| == |b| && a != b && Occurs(l, a)
    ensures Replace(l, a, b) != l
  {
    hide Replace, Locate;
    LocateMeaning(l, a);
    var i := Locate(l, a).value;
    ReplaceHit(l, a, b, i);
    MiddlePart(l[..i], b, Replace(l[i + |a|..], a, b));
  }

  lemma MiddlePart(x: string, y: string, z: string)
    ensures (x + y + z)[|x|..|x| + |y|] == y
  {
  }

  lemma {:induction false} ReplaceNoLf(l: string, a: string, b: string)
    requires LF !in l && LF !in b
    ensures LF !in Replace(l, a, b)
    decreases |l|
  {
    if Locate(l, a).Some? {
      var i := Locate(l, a).value;
      ReplaceHit(l, a, b, i);
      ReplaceNoLf(l[i + |a|..], a, b);
    }
  }

  lemma JoinInjective(x: seq<string>, y: seq<string>)
    requires LineTexts(x) && LineTexts(y) && JoinLines(x) == JoinLines(y)
    ensures x == y
  {
    LinesOfJoin(x);
    LinesOfJoin(y);
  }

  lemma ReplaceAsSwap(l: string, a: string, b: string)
    requires a != "" && |a| == |b| && a != b
    ensures Replace(l, a, b) == (if l == a then b else l) <==> l == a || !Occurs(l, a)
  {
    hide Replace;
    if l == a {
      ReplaceWhole(a, b);
    } else if Occurs(l, a) {
      ReplaceChanges(l, a, b);
    } else {
      ReplaceAbsent(l, a, b);
    }
  }

  /** Replacing one instruction by another of the same length changes exactly the lines equal to it, if
      and only if it stands inside no other line. */
  lemma SwapExact(lines: seq<string>, a: string, b: string)
    requires LineTexts(lines) && LF !in a && LF !in b && a != "" && |a| == |b| && a != b
    ensures Replace(JoinLines(lines), a, b) == JoinLines(Swap(lines, a, b)) <==> OnlyAsLine(lines, a)
  {
    hide Replace, JoinLines;
    ReplaceInLines(lines, a, b);
    var replaced, swapped := MapLines(lines, l => Replace(l, a, b)), Swap(lines, a, b);
    forall i | 0 <= i < |lines|
      ensures LF !in replaced[i] && LF !in swapped[i]
      ensures replaced[i] == swapped[i] <==> lines[i] == a || !Occurs(lines[i], a)
    {
      assert lines[i] in lines;
      ReplaceNoLf(lines[i], a, b);
      ReplaceAsSwap(lines[i], a, b);
    }
    if JoinLines(replaced) == JoinLines(swapped) {
      JoinInjective(replaced, swapped);
    }
    if OnlyAsLine(lines, a) {
      assert replaced == swapped;
    } else {
      var l :| l in lines && l != a && Occurs(l, a);
      var i :| 0 <= i < |lines| && lines[i] == l;
      assert replaced[i] != swapped[i];
    }
  }

  // ---------------------------------------------------------------- removing a line

  function Without(lines: seq<string>, a: string): seq<string> {
    if lines == [] then []
    else (if lines[0] == a then [] else [lines[0]]) + Without(lines[1..], a)
  }

  predicate EndsIn(l: string, a: string) {
    |a| <= |l| && l[|l| - |a|..] == a
  }

  /** No other line ends in `a`. */
  ghost predicate OnlyAsEnd(lines: seq<string>, a: string) {
    forall l :: l in lines && l != a ==> !EndsIn(l, a)
  }

  lemma OccursAtEnd(l: string, a: string, i: int)
    requires LF !in l
    ensures OccursAt(l + [LF], a + [LF], i) <==> i == |l| - |a| && EndsIn(l, a)
  {
    var s, t := l + [LF], a + [LF];
    if OccursAt(s, t, i) {
      OccurrenceChars(s, t, i);
      assert t[|a|] == LF;
      assert s[i + |a|] == LF;
      assert forall k :: 0 <= k < |l| ==> s[k] == l[k] && l[k] in l;
      assert i + |a| == |l|;
      assert s[i..i + |t|][..|a|] == a;
      assert s[i..i + |t|][..|a|] == l[i..];
    }
    if i == |l| - |a| && EndsIn(l, a) {
      TailWithLf(l, i);
    }
  }

  lemma TailWithLf(l: string, i: nat)
    requires i <= |l|
    ensures (l + [LF])[i..|l| + 1] == l[i..] + [LF]
  {
  }

  /** What removing the line text `a` does to one line. */
  lemma RemoveInLine(l: string, a: string)
    requires LF !in l
    ensures Replace(l + [LF], a + [LF], "") == if EndsIn(l, a) then l[..|l| - |a|] else l + [LF]
  {
    var s, t := l + [LF], a + [LF];
    forall i ensures OccursAt(s, t, i) <==> i == |l| - |a| && EndsIn(l, a) {
      OccursAtEnd(l, a, i);
    }
    if EndsIn(l, a) {
      var i := |l| - |a|;
      LocateIs(s, t, i);
      ReplaceHit(s, t, "", i);
      assert s[i + |t|..] == "";
      ReplaceAbsentEmpty(t, "");
    } else {
      ReplaceAbsent(s, t, "");
    }
  }

  /** The text without its occurrences of `a` at the end of a line, and without those line ends. */
  function Remove(text: string, a: string): string {
    Replace(text, a + [LF], "")
  }

  /** What removing leaves of a line. */
  function Remainder(l: string, a: string): string {
    if EndsIn(l, a) then l[..|l| - |a|] else l + [LF]
  }

  lemma RemoveLine(l: string, rest: string, a: string)
    requires LF !in l && LF !in a
    ensures Remove(l + [LF] + rest, a) == Remainder(l, a) + Remove(rest, a)
  {
    hide Replace;
    assert (a + [LF])[..|a|] == a;
    LineSeam(l, rest, a + [LF]);
    ReplaceConcat(l + [LF], rest, a + [LF], "");
    RemoveInLine(l, a);
  }

  lemma RemoveNothing(p: string, a: string)
    requires LF !in p
    ensures Remove(p, a) == p
  {
    hide Replace;
    var t := a + [LF];
    forall i ensures !OccursAt(p, t, i) {
      LfMissing(p, a, i);
    }
    ReplaceAbsent(p, t, "");
  }

  lemma LfMissing(p: string, a: string, i: int)
    requires LF !in p
    ensures !OccursAt(p, a + [LF], i)
  {
    var t := a + [LF];
    assert t[|a|] == LF;
    assert 0 <= i && i + |t| <= |p| ==> p[i..i + |t|][|a|] == p[i + |a|] && p[i + |a|] in p;
  }

  lemma WithoutFirst(lines: seq<string>, a: string)
    requires lines != []
    ensures JoinLines(Without(lines, a)) == (if lines[0] == a then "" else lines[0] + [LF]) + JoinLines(Without(lines[1..], a))
  {
    if lines[0] == a {
      assert [] + Without(lines[1..], a) == Without(lines[1..], a);
    } else {
      var w := [lines[0]] + Without(lines[1..], a);
      assert w[0] == lines[0] && w[1..] == Without(lines[1..], a);
    }
  }

  lemma {:induction false} RemoveBounds(lines: seq<string>, a: string)
    requires LineTexts(lines) && LF !in a
    ensures OnlyAsEnd(lines, a) ==> Remove(JoinLines(lines), a) == JoinLines(Without(lines, a))
    ensures |Remove(JoinLines(lines), a)| <= |JoinLines(Without(lines, a))|
    ensures !OnlyAsEnd(lines, a) ==> |Remove(JoinLines(lines), a)| < |JoinLines(Without(lines, a))|
  {
    hide Remove, Without;
    if lines == [] {
      RemoveNothing("", a);
      NothingWithout(a);
    } else {
      assert lines[0] in lines && forall t :: t in lines <==> t == lines[0] || t in lines[1..];
      RemoveLine(lines[0], JoinLines(lines[1..]), a);
      RemoveBounds(lines[1..], a);
      WithoutFirst(lines, a);
    }
  }

  lemma NothingWithout(a: string)
    ensures JoinLines(Without([], a)) == ""
  {
  }

  /** Removing an instruction with its line end removes exactly the lines equal to it, if and only if
      no other line ends in it. */
  lemma RemoveExact(lines: seq<string>, a: string)
    requires LineTexts(lines) && LF !in a
    ensures Remove(JoinLines(lines), a) == JoinLines(Without(lines, a)) <==> OnlyAsEnd(lines, a)
  {
    hide Remove;
    RemoveBounds(lines, a);
  }

  lemma {:induction false} InWithout(lines: seq<string>, a: string, l: string)
    ensures l in Without(lines, a) <==> l in lines && l != a
  {
    if lines != [] {
      InWithout(lines[1..], a, l);
      assert lines == [lines[0]] + lines[1..];
    }
  }

  /** What is meant to be left when two instructions are removed. */
  function WithoutBoth(lines: seq<string>, a: string, b: string): seq<string> {
    Without(Without(lines, a), b)
  }

  lemma WithoutBothFirst(lines: seq<string>, a: string, b: string)
    requires lines != []
    ensures JoinLines(WithoutBoth(lines, a, b)) ==
            (if lines[0] == a || lines[0] == b then "" else lines[0] + [LF]) + JoinLines(WithoutBoth(lines[1..], a, b))
  {
    var w := Without(lines[1..], a);
    assert Without(lines, a) == if lines[0] == a then w else [lines[0]] + w;
    if lines[0] != a {
      assert ([lines[0]] + w)[1..] == w;
      WithoutFirst([lines[0]] + w, b);
    }
  }

  /** Removing two instructions of one length, one after the other, from text that begins with the end
      `p` of another line: at least what is meant to go goes, and more if a line other than `a` ends
      in `a`, for then that line runs into the next. */
  lemma {:induction false} RemoveBothBound(p: string, lines: seq<string>, a: string, b: string)
    requires LineTexts(lines) && LF !in p && LF !in a && LF !in b && |a| == |b| && a != b
    ensures |Remove(p + Remove(JoinLines(lines), a), b)| <= |p| + |JoinLines(WithoutBoth(lines, a, b))|
    ensures !OnlyAsEnd(lines, a) ==>
              |Remove(p + Remove(JoinLines(lines), a), b)| < |p| + |JoinLines(WithoutBoth(lines, a, b))|
    decreases |lines|
  {
    hide Remove, WithoutBoth;
    if lines == [] {
      RemoveNothing("", a);
      assert p + "" == p;
      RemoveNothing(p, b);
    } else {
      var l, rest := lines[0], Remove(JoinLines(lines[1..]), a);
      assert l in lines && forall t :: t in lines <==> t == l || t in lines[1..];
      RemoveLine(l, JoinLines(lines[1..]), a);
      WithoutBothFirst(lines, a, b);
      if EndsIn(l, a) {
        var x := l[..|l| - |a|];
        RemoveBothBound(p + x, lines[1..], a, b);
        assert p + (x + rest) == (p + x) + rest;
      } else {
        RemoveBothBound("", lines[1..], a, b);
        assert p + (l + [LF] + rest) == (p + l) + [LF] + rest && "" + rest == rest;
        RemoveLine(p + l, rest, b);
        RemainderLength(p, l, b);
      }
    }
  }

  lemma RemainderLength(p: string, l: string, b: string)
    ensures |Remainder(p + l, b)| <= |p| + |l| + 1
    ensures l == b ==> |Remainder(p + l, b)| == |p|
  {
    if l == b {
      assert (p + l)[|p|..] == b;
    }
  }

  /** Both removals together do what is meant if and only if each does. */
  lemma RemoveBothExact(lines: seq<string>, a: string, b: string)
    requires LineTexts(lines) && LF !in a && LF !in b && |a| == |b| && a != b
    ensures Remove(Remove(JoinLines(lines), a), b) == JoinLines(WithoutBoth(lines, a, b)) <==>
            OnlyAsEnd(lines, a) && OnlyAsEnd(Without(lines, a), b)
  {
    hide Remove, Without, JoinLines, OnlyAsEnd;
    RemoveExact(lines, a);
    forall l | l in Without(lines, a) ensures LF !in l {
      InWithout(lines, a, l);
    }
    RemoveExact(Without(lines, a), b);
    RemoveBothBound("", lines, a, b);
    assert "" + Remove(JoinLines(lines), a) == Remove(JoinLines(lines), a);
  }

  // ---------------------------------------------------------------- one manual change

  const PLUS := '+'
  const MINUS := '-'
  const STAR := '*'

  predicate IsMarker(c: char) {
    c == PLUS || c == MINUS || c == STAR
  }

  /** What one line of the change list does to the instruction text. Search texts are C strings. */
  function TextStep(instr: string, change: string): string {
    if change == "" then instr
    else
      var path := change[1..];
      var plus, minus, star := [PLUS] + path, [MINUS] + path, [STAR] + path;
      var lines := Lines(instr);
      if change[0] == PLUS then
        if minus in lines then Replace(instr, CText(minus), CText(star))
        else if plus !in lines && star !in lines then instr + (plus + [LF])
        else instr
      else if change[0] == MINUS then
        if plus in lines || star in lines then
          Replace(Replace(instr, CText(plus + [LF]), ""), CText(star + [LF]), "")
        else if minus !in lines then instr + (minus + [LF])
        else instr
      else if change[0] == STAR then
        if minus in lines then Replace(instr, CText(minus), CText(star))
        else if plus in lines then Replace(instr, CText(plus), CText(star))
        else if star !in lines then instr + (star + [LF])
        else instr
      else instr
  }

  /** One turn of the loop over the change list. */
  method ApplyChange(instr: string, change: string) returns (r: string)
    ensures r == TextStep(instr, change)
  {
    hide Lines, Replace, CText;
    if change == "" {
      return instr;
    }
    var path := change[1..];
    var plus, minus, star := [PLUS] + path, [MINUS] + path, [STAR] + path;
    var hasPlus := ContainsLine(instr, plus);
    var hasMinus := ContainsLine(instr, minus);
    var hasStar := ContainsLine(instr, star);
    r := instr;
    if change[0] == PLUS {
      if hasMinus {
        r := ReplaceText(instr, CText(minus), CText(star));
      } else if !hasPlus && !hasStar {
        r := instr + (plus + [LF]);
      }
    } else if change[0] == MINUS {
      if hasPlus || hasStar {
        r := ReplaceText(instr, CText(plus + [LF]), "");
        r := ReplaceText(r, CText(star + [LF]), "");
      } else if !hasMinus {
        r := instr + (minus + [LF]);
      }
    } else if change[0] == STAR {
      if hasMinus {
        r := ReplaceText(instr, CText(minus), CText(star));
      } else if hasPlus {
        r := ReplaceText(instr, CText(plus), CText(star));
      } else if !hasStar {
        r := instr + (star + [LF]);
      }
    }
  }

  /** What that line is meant to do to the lines of the instructions. */
  function LineStep(lines: seq<string>, change: string): seq<string> {
    if change == "" then lines
    else
      var path := change[1..];
      var plus, minus, star := [PLUS] + path, [MINUS] + path, [STAR] + path;
      if change[0] == PLUS then
        if minus in lines then Swap(lines, minus, star)
        else if plus !in lines && star !in lines then lines + [plus]
        else lines
      else if change[0] == MINUS then
        if plus in lines || star in lines then WithoutBoth(lines, plus, star)
        else if minus !in lines then lines + [minus]
        else lines
      else if change[0] == STAR then
        if minus in lines then Swap(lines, minus, star)
        else if plus in lines then Swap(lines, plus, star)
        else if star !in lines then lines + [star]
        else lines
      else lines
  }

  /** The text operation hits only the lines it is meant for. What that takes depends on the branch: an
      instruction that is replaced must stand inside no other line, one that is removed must end no
      other line, and where a line is appended or nothing is done there is no condition. */
  ghost predicate Hits(lines: seq<string>, change: string) {
    change != "" ==>
      var path := change[1..];
      var plus, minus, star := [PLUS] + path, [MINUS] + path, [STAR] + path;
      if change[0] == PLUS then minus in lines ==> OnlyAsLine(lines, minus)
      else if change[0] == MINUS then
        plus in lines || star in lines ==> OnlyAsEnd(lines, plus) && OnlyAsEnd(Without(lines, plus), star)
      else if change[0] == STAR then
        if minus in lines then OnlyAsLine(lines, minus) else plus in lines ==> OnlyAsLine(lines, plus)
      else true
  }

  lemma AppendLine(lines: seq<string>, l: string)
    ensures JoinLines(lines) + (l + [LF]) == JoinLines(lines + [l])
  {
    JoinConcat(lines, [l]);
    assert JoinLines([l]) == l + [LF] + JoinLines([]);
  }

  /** Instructions without NUL are searched for whole. */
  lemma WholeText(m: char, path: string)
    requires IsMarker(m) && NUL !in path
    ensures CText([m] + path) == [m] + path && CText([m] + path + [LF]) == [m] + path + [LF]
  {
    hide CText;
  }

  /** A manual change does to the text what it is meant to do to the lines, if and only if it hits only
      the lines it is meant for. */
  lemma StepExact(lines: seq<string>, change: string)
    requires LineTexts(lines) && LF !in change && NUL !in change
    ensures TextStep(JoinLines(lines), change) == JoinLines(LineStep(lines, change)) <==> Hits(lines, change)
  {
    hide Replace, Without, WithoutBoth, Swap, JoinLines, Lines, OnlyAsLine, OnlyAsEnd, CText;
    LinesOfJoin(lines);
    if change != "" && IsMarker(change[0]) {
      var path := change[1..];
      var plus, minus, star := [PLUS] + path, [MINUS] + path, [STAR] + path;
      assert minus[0] != star[0] && plus[0] != star[0];
      WholeText(PLUS, path);
      WholeText(MINUS, path);
      WholeText(STAR, path);
      SwapExact(lines, minus, star);
      SwapExact(lines, plus, star);
      RemoveBothExact(lines, plus, star);
      AppendLine(lines, plus);
      AppendLine(lines, minus);
      AppendLine(lines, star);
    }
  }

  // ---------------------------------------------------------------- the marker of a path

  datatype Marker = Absent | Added | Removed | Changed

  /** No path is marked in two ways. */
  ghost predicate Single(lines: seq<string>, path: string) {
    var plus, minus, star := [PLUS] + path in lines, [MINUS] + path in lines, [STAR] + path in lines;
    !(plus && minus) && !(plus && star) && !(minus && star)
  }

  function MarkerOf(lines: seq<string>, path: string): Marker {
    if [PLUS] + path in lines then Added
    else if [MINUS] + path in lines then Removed
    else if [STAR] + path in lines then Changed
    else Absent
  }

  /** How a manual change is meant to alter the marker of its path. */
  function Table(m: Marker, c: char): Marker {
    if c == PLUS then (match m case Absent => Added case Removed => Changed case _ => m)
    else if c == MINUS then (match m case Absent => Removed case Removed => Removed case _ => Absent)
    else if c == STAR then Changed
    else m
  }

  lemma InSwap(lines: seq<string>, a: string, b: string, l: string)
    ensures l in Swap(lines, a, b) <==> (l == b && (a in lines || b in lines)) || (l != a && l != b && l in lines)
                                        || (l == a && a == b && a in lines)
  {
    var swapped := Swap(lines, a, b);
    if l in lines && l != a {
      var i :| 0 <= i < |lines| && lines[i] == l;
      assert swapped[i] == l;
    }
    if a in lines {
      var i :| 0 <= i < |lines| && lines[i] == a;
      assert swapped[i] == b;
    }
    if b in lines {
      var i :| 0 <= i < |lines| && lines[i] == b;
      assert swapped[i] == b;
    }
    if l in swapped {
      var i :| 0 <= i < |swapped| && swapped[i] == l;
      assert lines[i] in lines;
    }
  }

  /** Which lines there are after a change. */
  lemma InLineStep(lines: seq<string>, change: string, l: string)
    requires change != "" && IsMarker(change[0])
    ensures var path := change[1..];
            var plus, minus, star := [PLUS] + path, [MINUS] + path, [STAR] + path;
            l in LineStep(lines, change) <==>
            if l != plus && l != minus && l != star then l in lines
            else if change[0] == PLUS then
              if minus in lines then (l == star || (l == plus && plus in lines))
              else if plus in lines || star in lines then l in lines else l == plus
            else if change[0] == MINUS then
              if plus in lines || star in lines then l == minus && minus in lines else l == minus
            else
              if minus in lines then (l == star || (l == plus && plus in lines)) else l == star
  {
    var path := change[1..];
    var plus, minus, star := [PLUS] + path, [MINUS] + path, [STAR] + path;
    assert plus[0] != minus[0] && minus[0] != star[0] && plus[0] != star[0];
    hide Without, Swap;
    InSwap(lines, minus, star, l);
    InSwap(lines, plus, star, l);
    InWithout(lines, plus, l);
    InWithout(Without(lines, plus), star, l);
  }

  lemma MarkedApart(m: char, m': char, p: string, q: string)
    ensures [m] + p == [m'] + q <==> m == m' && p == q
  {
    if [m] + p == [m'] + q {
      assert ([m] + p)[0] == m && ([m'] + q)[0] == m';
      assert ([m] + p)[1..] == p && ([m'] + q)[1..] == q;
    }
  }

  lemma OtherPath(lines: seq<string>, change: string, q: string, m: char)
    requires change != "" && IsMarker(change[0]) && q != change[1..] && IsMarker(m)
    ensures [m] + q in LineStep(lines, change) <==> [m] + q in lines
  {
    hide LineStep;
    InLineStep(lines, change, [m] + q);
    MarkedApart(m, PLUS, q, change[1..]);
    MarkedApart(m, MINUS, q, change[1..]);
    MarkedApart(m, STAR, q, change[1..]);
  }

  lemma OwnPath(lines: seq<string>, change: string)
    requires change != "" && IsMarker(change[0]) && Single(lines, change[1..])
    ensures Single(LineStep(lines, change), change[1..])
    ensures MarkerOf(LineStep(lines, change), change[1..]) == Table(MarkerOf(lines, change[1..]), change[0])
  {
    hide LineStep;
    var p := change[1..];
    InLineStep(lines, change, [PLUS] + p);
    InLineStep(lines, change, [MINUS] + p);
    InLineStep(lines, change, [STAR] + p);
    MarkedApart(PLUS, MINUS, p, p);
    MarkedApart(PLUS, STAR, p, p);
    MarkedApart(MINUS, STAR, p, p);
  }

  /** A change moves the marker of its own path through the table and touches no other. */
  lemma StepMarkers(lines: seq<string>, change: string, q: string)
    requires Single(lines, q)
    ensures Single(LineStep(lines, change), q)
    ensures MarkerOf(LineStep(lines, change), q) ==
            if change != "" && q == change[1..] then Table(MarkerOf(lines, q), change[0]) else MarkerOf(lines, q)
  {
    if change != "" && IsMarker(change[0]) {
      if q == change[1..] {
        OwnPath(lines, change);
      } else {
        hide LineStep;
        OtherPath(lines, change, q, PLUS);
        OtherPath(lines, change, q, MINUS);
        OtherPath(lines, change, q, STAR);
      }
    }
  }

  // ---------------------------------------------------------------- the whole change list

  function TextFold(instr: string, changes: seq<string>): string
    decreases |changes|
  {
    if changes == [] then instr else TextFold(TextStep(instr, changes[0]), changes[1..])
  }

  function LineFold(lines: seq<string>, changes: seq<string>): seq<string>
    decreases |changes|
  {
    if changes == [] then lines else LineFold(LineStep(lines, changes[0]), changes[1..])
  }

  function MarkerFold(m: Marker, changes: seq<string>, path: string): Marker
    decreases |changes|
  {
    if changes == [] then m
    else
      var c := changes[0];
      MarkerFold(if c != "" && path == c[1..] then Table(m, c[0]) else m, changes[1..], path)
  }

  /** The loop over the change list, from the line at `pos` on. */
  method ApplyChanges(instr: string, list: string, pos: nat) returns (r: string)
    requires pos <= |list|
    ensures r == TextFold(instr, Lines(list[pos..]))
  {
    hide TextStep, Lines;
    r := instr;
    var p := pos;
    ghost var result := TextFold(instr, Lines(list[pos..]));
    while true
      invariant p <= |list| && TextFold(r, Lines(list[p..])) == result
      decreases |list| - p
    {
      var found, change, next := GetLine(list, p);
      if !found {
        return;
      }
      r := ApplyChange(r, change);
      assert ([change] + Lines(list[next..]))[1..] == Lines(list[next..]);
      p := next;
    }
  }

  /** Each change of the list hits only the lines it is meant for, when its turn comes. */
  ghost predicate AllHit(lines: seq<string>, changes: seq<string>)
    decreases |changes|
  {
    changes == [] || (Hits(lines, changes[0]) && AllHit(LineStep(lines, changes[0]), changes[1..]))
  }

  ghost predicate Plain(changes: seq<string>) {
    forall c :: c in changes ==> LF !in c && NUL !in c
  }

  lemma StepLineTexts(lines: seq<string>, change: string)
    requires LineTexts(lines) && LF !in change
    ensures LineTexts(LineStep(lines, change))
  {
    if change != "" && IsMarker(change[0]) {
      forall l | l in LineStep(lines, change) ensures LF !in l {
        hide LineStep;
        InLineStep(lines, change, l);
      }
    }
  }

  /** Folding the change list into the text is folding it into the lines. */
  lemma {:induction false} FoldRefines(lines: seq<string>, changes: seq<string>)
    requires LineTexts(lines) && Plain(changes) && AllHit(lines, changes)
    ensures TextFold(JoinLines(lines), changes) == JoinLines(LineFold(lines, changes))
    decreases |changes|
  {
    hide TextStep, LineStep, JoinLines, Hits;
    if changes != [] {
      assert changes[0] in changes;
      StepExact(lines, changes[0]);
      StepLineTexts(lines, changes[0]);
      FoldRefines(LineStep(lines, changes[0]), changes[1..]);
    }
  }

  /** After the first k changes the text is what it is meant to be. */
  ghost predicate AsMeant(lines: seq<string>, changes: seq<string>, k: nat)
    requires k <= |changes|
  {
    TextFold(JoinLines(lines), changes[..k]) == JoinLines(LineFold(lines, changes[..k]))
  }

  lemma AsMeantNext(lines: seq<string>, changes: seq<string>, k: nat)
    requires k < |changes| && TextStep(JoinLines(lines), changes[0]) == JoinLines(LineStep(lines, changes[0]))
    ensures AsMeant(lines, changes, k + 1) <==> AsMeant(LineStep(lines, changes[0]), changes[1..], k)
  {
    hide TextStep, LineStep, JoinLines;
    var first := changes[..k + 1];
    assert first[0] == changes[0] && first[1..] == changes[1..][..k];
  }

  lemma AsMeantFirst(lines: seq<string>, changes: seq<string>)
    requires changes != []
    ensures AsMeant(lines, changes, 0)
    ensures AsMeant(lines, changes, 1) <==> TextStep(JoinLines(lines), changes[0]) == JoinLines(LineStep(lines, changes[0]))
  {
    hide TextStep, LineStep, JoinLines;
    var first := changes[..1];
    assert changes[..0] == [] && first[0] == changes[0] && first[1..] == [];
    assert TextFold(TextStep(JoinLines(lines), changes[0]), []) == TextStep(JoinLines(lines), changes[0]);
    assert LineFold(LineStep(lines, changes[0]), []) == LineStep(lines, changes[0]);
  }

  /** The text is what it is meant to be after every change, if and only if every change hits only the
      lines it is meant for. */
  lemma {:induction false} FoldExact(lines: seq<string>, changes: seq<string>)
    requires LineTexts(lines) && Plain(changes)
    ensures (forall k :: 0 <= k <= |changes| ==> AsMeant(lines, changes, k)) <==> AllHit(lines, changes)
    decreases |changes|
  {
    hide Hits, LineStep, AsMeant;
    if changes == [] {
      NothingMeant(lines);
    } else {
      assert changes[0] in changes;
      var next, rest := LineStep(lines, changes[0]), changes[1..];
      StepExact(lines, changes[0]);
      AsMeantFirst(lines, changes);
      if AsMeant(lines, changes, 1) {
        StepLineTexts(lines, changes[0]);
        FoldExact(next, rest);
        forall k | 0 <= k < |changes| ensures AsMeant(lines, changes, k + 1) <==> AsMeant(next, rest, k) {
          AsMeantNext(lines, changes, k);
        }
        MeantThroughout(lines, changes, next, rest);
      }
    }
  }

  lemma NothingMeant(lines: seq<string>)
    ensures AsMeant(lines, [], 0)
  {
    var none: seq<string> := [];
    assert none[..0] == [];
  }

  lemma MeantThroughout(lines: seq<string>, changes: seq<string>, next: seq<string>, rest: seq<string>)
    requires |changes| == |rest| + 1 && AsMeant(lines, changes, 0)
    requires forall k :: 0 <= k < |changes| ==> (AsMeant(lines, changes, k + 1) <==> AsMeant(next, rest, k))
    ensures (forall k :: 0 <= k <= |changes| ==> AsMeant(lines, changes, k)) <==> (forall k :: 0 <= k <= |rest| ==> AsMeant(next, rest, k))
  {
    hide AsMeant;
    if forall k :: 0 <= k <= |rest| ==> AsMeant(next, rest, k) {
      forall k | 0 <= k <= |changes| ensures AsMeant(lines, changes, k) {
        assert k == 0 || AsMeant(next, rest, k - 1);
        assert k == 0 || AsMeant(lines, changes, (k - 1) + 1);
      }
    }
    if forall k :: 0 <= k <= |changes| ==> AsMeant(lines, changes, k) {
      forall k | 0 <= k <= |rest| ensures AsMeant(next, rest, k) {
        assert AsMeant(lines, changes, k + 1);
      }
    }
  }

  /** Every line there can ever be: the ones at the start, and the instructions for changed paths. */
  ghost predicate Covers(all: set<string>, lines: seq<string>, changes: seq<string>) {
    && (forall l :: l in lines ==> l in all)
    && (forall c :: c in changes && c != "" ==>
          [PLUS] + c[1..] in all && [MINUS] + c[1..] in all && [STAR] + c[1..] in all)
  }

  /** No instruction for a changed path stands inside another of these lines. */
  ghost predicate Separate(all: set<string>, changes: seq<string>) {
    forall l, c, m :: l in all && c in changes && c != "" && IsMarker(m) && l != [m] + c[1..] ==> !Occurs(l, [m] + c[1..])
  }

  lemma EndOccurs(l: string, a: string)
    ensures EndsIn(l, a) ==> Occurs(l, a)
  {
    if EndsIn(l, a) {
      assert OccursAt(l, a, |l| - |a|);
    }
  }

  lemma AsLineAsEnd(lines: seq<string>, a: string)
    requires OnlyAsLine(lines, a)
    ensures OnlyAsEnd(lines, a)
  {
    forall l | l in lines && l != a ensures !EndsIn(l, a) {
      EndOccurs(l, a);
    }
  }

  lemma SeparateHits(all: set<string>, lines: seq<string>, changes: seq<string>)
    requires changes != [] && Covers(all, lines, changes) && Separate(all, changes)
    ensures Hits(lines, changes[0])
  {
    hide Occurs, EndsIn, Without;
    var c := changes[0];
    assert c in changes;
    if c != "" {
      var plus, minus, star := [PLUS] + c[1..], [MINUS] + c[1..], [STAR] + c[1..];
      assert IsMarker(PLUS) && IsMarker(MINUS) && IsMarker(STAR);
      assert OnlyAsLine(lines, plus) && OnlyAsLine(lines, minus);
      var rest := Without(lines, plus);
      forall l | l in rest && l != star ensures !Occurs(l, star) {
        InWithout(lines, plus, l);
      }
      AsLineAsEnd(lines, plus);
      AsLineAsEnd(rest, star);
    }
  }

  lemma StepCovers(all: set<string>, lines: seq<string>, changes: seq<string>)
    requires changes != [] && Covers(all, lines, changes) && Separate(all, changes)
    ensures Covers(all, LineStep(lines, changes[0]), changes[1..]) && Separate(all, changes[1..])
  {
    hide Occurs, LineStep;
    var c := changes[0];
    assert c in changes && forall d :: d in changes[1..] ==> d in changes;
    forall l | l in LineStep(lines, c) ensures l in all {
      if c != "" && IsMarker(c[0]) {
        InLineStep(lines, c, l);
      } else {
        StepOfNothing(lines, c);
      }
    }
  }

  lemma StepOfNothing(lines: seq<string>, change: string)
    requires change == "" || !IsMarker(change[0])
    ensures LineStep(lines, change) == lines
  {
  }

  /** One way to know beforehand that all changes will hit only their lines: no instruction for a changed
      path stands inside another line, whichever of them are there at the time. */
  lemma {:induction false} SeparateAllHit(all: set<string>, lines: seq<string>, changes: seq<string>)
    requires Covers(all, lines, changes) && Separate(all, changes)
    ensures AllHit(lines, changes)
    decreases |changes|
  {
    hide LineStep, Hits, Covers, Separate;
    if changes != [] {
      SeparateHits(all, lines, changes);
      StepCovers(all, lines, changes);
      SeparateAllHit(all, LineStep(lines, changes[0]), changes[1..]);
    }
  }

  /** And each path ends with one marker at most, the one the table leads to. */
  lemma {:induction false} FoldMarkers(lines: seq<string>, changes: seq<string>, path: string)
    requires Single(lines, path)
    ensures Single(LineFold(lines, changes), path)
    ensures MarkerOf(LineFold(lines, changes), path) == MarkerFold(MarkerOf(lines, path), changes, path)
    decreases |changes|
  {
    hide LineStep, Single, MarkerOf;
    if changes != [] {
      StepMarkers(lines, changes[0], path);
      FoldMarkers(LineStep(lines, changes[0]), changes[1..], path);
    }
  }

  /** A text that stands inside another line does no harm where nothing is replaced. */
  lemma HarmlessPrefix()
    ensures Hits(["-ab"], "-a") && LineStep(["-ab"], "-a") == ["-ab", "-a"]
  {
    assert "-a"[1..] == "a" && [MINUS] + "a" == "-a";
    assert [PLUS] + "a" == "+a" && [STAR] + "a" == "*a" && ["-ab"][0] == "-ab";
  }

  /** Where something is, the condition is needed: with a path that begins like another, the other's line is damaged. */
  lemma PrefixDamage()
    ensures TextStep(JoinLines(["-a", "-ab"]), "+a") == JoinLines(["*a", "*ab"])
    ensures LineStep(["-a", "-ab"], "+a") == ["*a", "-ab"]
  {
    hide Replace, Lines, JoinLines, CText;
    var lines := ["-a", "-ab"];
    assert lines[0] == "-a";
    assert "+a"[1..] == "a" && [MINUS] + "a" == "-a" && [STAR] + "a" == "*a";
    LinesOfJoin(lines);
    assert CText("-a") == "-a" && CText("*a") == "*a" by {
      assert NUL !in "-a" && NUL !in "*a";
    }
    DamagedText(lines);
    assert Swap(lines, "-a", "*a") == ["*a", "-ab"];
  }

  lemma DamagedText(lines: seq<string>)
    requires lines == ["-a", "-ab"]
    ensures Replace(JoinLines(lines), "-a", "*a") == JoinLines(["*a", "*ab"])
  {
    hide Replace, JoinLines;
    ReplaceInLines(lines, "-a", "*a");
    ReplaceWhole("-a", "*a");
    DamagedLine();
    assert MapLines(lines, l => Replace(l, "-a", "*a")) == ["*a", "*ab"];
  }

  lemma DamagedLine()
    ensures Replace("-ab", "-a", "*a") == "*ab"
  {
    assert OccursAt("-ab", "-a", 0);
    LocateIs("-ab", "-a", 0);
    ReplaceHit("-ab", "-a", "*a", 0);
    assert "-ab"[2..] == "b";
    LocateMeaning("b", "-a");
    ReplaceNone("b", "-a", "*a");
  }
}
