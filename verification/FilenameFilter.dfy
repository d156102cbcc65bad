/** The filename matcher of ls.c: a loop over the tokens of the filter with a greedy forward scan,
    brace expansion by recursion, and one iteration budget shared by the whole recursion.

    Three descriptions are related here. `Glob` says declaratively which names a filter describes.
    `Greedy` is what the matcher decides when it is not stopped by its budget. `PassesFilter` is the
    matcher itself. */
module FilenameFilter {
  import opened Basics
  import opened Text

  const MATCHITERS_MAX := 1000

  predicate IsToken(c: char) {
    c == '*' || c == '?' || c == '{'
  }

  ghost predicate Literal(s: string) {
    forall i :: 0 <= i < |s| ==> !IsToken(s[i])
  }

  // ---------------------------------------------------------------- the declarative relation

  /** The alternatives of a brace list: its comma-separated parts, up to the first empty one. */
  function Alternatives(list: string): (r: seq<string>)
    ensures forall alt :: alt in r ==> alt != "" && |alt| <= |list|
    decreases |list|
  {
    if Before(list, ',') == "" then []
    else [Before(list, ',')] + Alternatives(After(list, ','))
  }

  /** `name` is described by `filter`: `*` is any text, `?` one character, a closed brace stands for
      each of its alternatives textually put in its place, an unclosed `{` is an ordinary character. */
  ghost predicate Glob(name: string, filter: string)
    decreases |filter|
  {
    if filter == "" then name == ""
    else
      var tail := filter[1..];
      if filter[0] == '*' then exists k :: 0 <= k <= |name| && Glob(name[k..], tail)
      else if filter[0] == '?' then name != "" && Glob(name[1..], tail)
      else if filter[0] == '{' && '}' in tail then
        exists alt :: alt in Alternatives(Before(tail, '}')) && Glob(name, alt + After(tail, '}'))
      else name != "" && name[0] == filter[0] && Glob(name[1..], tail)
  }

  // ---------------------------------------------------------------- what the matcher decides

  /** str_locate_chars(filter, "*?{"): the text before the first token. */
  function LeadingText(filter: string): (r: string)
    ensures r <= filter && Literal(r)
    ensures |r| < |filter| ==> IsToken(filter[|r|])
  {
    if filter == "" || IsToken(filter[0]) then "" else
      assert filter == [filter[0]] + filter[1..];
      [filter[0]] + LeadingText(filter[1..])
  }

  /** The text after the last occurrence reached by scanning forward, each new search starting behind
      the previous occurrence; all of `name` if there is none. */
  function ScanForward(name: string, needed: string): (r: string)
    ensures |r| <= |name|
    decreases |name|
  {
    match Locate(name, needed)
    case None => name
    case Some(i) => ScanForward(name[i + |needed|..], needed)
  }

  /** What is left of the name once the text before a token is matched. After a `*` the text may
      stand anywhere, otherwise it must stand here. */
  function Advance(name: string, needed: string, star: bool): (r: Option<string>)
    ensures r.Some? ==> |r.value| <= |name|
  {
    if needed == "" then Some(name)
    else if star then if Locate(name, needed).Some? then Some(ScanForward(name, needed)) else None
    else if needed <= name then Some(name[|needed|..])
    else None
  }

  /** The verdict of the matcher with an unlimited budget; `star` says the last token was a `*`. */
  ghost predicate Greedy(name: string, filter: string, star: bool)
    decreases |filter|, 0
  {
    if filter == "" then name == "" || star
    else
      var needed := LeadingText(filter);
      match Advance(name, needed, star)
      case None => false
      case Some(rest) =>
        if |needed| == |filter| then rest == ""
        else AtToken(rest, filter[|needed|], filter[|needed| + 1..])
  }

  ghost predicate AtToken(name: string, token: char, tail: string)
    decreases |tail|, 1
  {
    if token == '*' then Greedy(name, tail, true)
    else if token == '?' then name != "" && Greedy(name[1..], tail, false)
    else if '}' in tail then
      exists alt :: alt in Alternatives(Before(tail, '}')) && Greedy(name, alt + After(tail, '}'), false)
    else name != "" && name[0] == '{' && Greedy(name[1..], tail, false)
  }

  // ---------------------------------------------------------------- soundness

  lemma {:induction false} GlobLiteral(text: string, name: string, filter: string)
    requires Literal(text)
    ensures Glob(text + name, text + filter) <==> Glob(name, filter)
  {
    if text == "" {
      assert text + name == name && text + filter == filter;
    } else {
      assert (text + name)[1..] == text[1..] + name;
      assert (text + filter)[1..] == text[1..] + filter;
      GlobLiteral(text[1..], name, filter);
    }
  }

  lemma {:induction false} LiteralPrefixed(text: string, name: string, filter: string)
    requires Literal(text) && Glob(name, text + filter)
    ensures text <= name
  {
    if text != "" {
      assert (text + filter)[1..] == text[1..] + filter;
      LiteralPrefixed(text[1..], name[1..], filter);
      assert name == [name[0]] + name[1..];
    }
  }

  ghost predicate IsSuffix(t: string, s: string) {
    |t| <= |s| && s[|s| - |t|..] == t
  }

  lemma SuffixOfRest(t: string, s: string, k: nat)
    requires k <= |s| && IsSuffix(t, s[k..])
    ensures IsSuffix(t, s)
  {
    DropDrop(s, k, |s| - k - |t|);
  }

  /** The forward scan leaves off right behind some occurrence. */
  lemma {:induction false} ScanSplits(name: string, needed: string)
    requires Locate(name, needed).Some?
    ensures IsSuffix(needed + ScanForward(name, needed), name)
    decreases |name|
  {
    hide Locate, ScanForward, OccursAt, IsSuffix;
    LocateMeaning(name, needed);
    ScanStep(name, needed);
    var i := Locate(name, needed).value;
    var rest := name[i + |needed|..];
    if Locate(rest, needed).Some? {
      ScanSplits(rest, needed);
      SuffixOfRest(needed + ScanForward(rest, needed), name, i + |needed|);
    } else {
      ScanStep(rest, needed);
      OccurrenceSplits(name, needed, i);
    }
  }

  lemma ScanStep(name: string, needed: string)
    ensures ScanForward(name, needed) ==
            match Locate(name, needed) case None => name case Some(i) => ScanForward(name[i + |needed|..], needed)
  {
  }

  lemma OccurrenceSplits(name: string, needed: string, i: nat)
    requires OccursAt(name, needed, i)
    ensures IsSuffix(needed + name[i + |needed|..], name)
  {
    assert name[i..] == name[i..i + |needed|] + name[i + |needed|..];
  }

  /** `name` is described by `filter`, or by `*` followed by `filter`. */
  ghost predicate GlobAfter(name: string, filter: string, star: bool) {
    if star then exists k :: 0 <= k <= |name| && Glob(name[k..], filter) else Glob(name, filter)
  }

  /** Whatever the greedy scan accepts, the declarative relation accepts: for every name and filter. */
  lemma {:induction false} Sound(name: string, filter: string, star: bool)
    requires Greedy(name, filter, star)
    ensures GlobAfter(name, filter, star)
    decreases |filter|
  {
    if filter == "" {
      assert Glob(name[|name|..], filter);
    } else {
      var needed := LeadingText(filter);
      var rest := Advance(name, needed, star).value;
      var token := filter[|needed|..];
      assert filter == needed + token;
      if token == "" {
        assert Glob(rest, token);
      } else {
        assert token[1..] == filter[|needed| + 1..];
        SoundAtToken(rest, token);
      }
      GlobLiteral(needed, rest, token);
      if needed != "" && star {
        ScanSplits(name, needed);
      } else {
        assert name == needed + rest;
        assert star ==> name == name[0..];
      }
    }
  }

  lemma {:induction false} SoundAtToken(name: string, filter: string)
    requires filter != "" && IsToken(filter[0]) && AtToken(name, filter[0], filter[1..])
    ensures Glob(name, filter)
    decreases |filter|, 0
  {
    var tail := filter[1..];
    if filter[0] == '*' {
      Sound(name, tail, true);
    } else if filter[0] == '{' && '}' in tail {
      var rest := After(tail, '}');
      var alt :| alt in Alternatives(Before(tail, '}')) && Greedy(name, alt + rest, false);
      Sound(name, alt + rest, false);
    } else {
      Sound(name[1..], tail, false);
    }
  }

  // ---------------------------------------------------------------- exactness

  /** No proper, non-empty prefix of `s` is also its suffix. */
  ghost predicate Borderless(s: string) {
    forall k :: 0 < k < |s| ==> s[..k] != s[|s| - k..]
  }

  lemma SliceOfOccurrence(name: string, text: string, i: nat, lo: nat, hi: nat)
    requires OccursAt(name, text, i) && lo <= hi <= |text|
    ensures name[i + lo..i + hi] == text[lo..hi]
  {
    var slice, part := name[i + lo..i + hi], text[lo..hi];
    assert forall q :: 0 <= q < hi - lo ==> slice[q] == name[i..i + |text|][lo + q] && part[q] == text[lo + q];
  }

  /** Two overlapping occurrences of a text give it a border. */
  lemma OverlapIsBorder(name: string, text: string, i: nat, j: nat)
    requires OccursAt(name, text, i) && OccursAt(name, text, j) && i < j < i + |text|
    ensures !Borderless(text)
  {
    var k := i + |text| - j;
    SliceOfOccurrence(name, text, j, 0, k);
    SliceOfOccurrence(name, text, i, |text| - k, |text|);
    assert text[|text| - k..|text|] == text[|text| - k..];
  }

  lemma {:induction false} ScanFindsSuffix(name: string, text: string)
    requires text != "" && Borderless(text) && IsSuffix(text, name)
    ensures Locate(name, text).Some? && ScanForward(name, text) == ""
    decreases |name|
  {
    hide Locate, LocateFrom, Borderless;
    var j := |name| - |text|;
    assert OccursAt(name, text, j);
    LocateMeaning(name, text);
    var i := Locate(name, text).value;
    var rest := name[i + |text|..];
    if i == j {
      assert rest == "";
      ScanNothing(text);
    } else {
      assert i + |text| <= j by {
        if j < i + |text| {
          OverlapIsBorder(name, text, i, j);
        }
      }
      DropDrop(name, i + |text|, j - i - |text|);
      ScanFindsSuffix(rest, text);
    }
  }

  lemma ScanNothing(text: string)
    ensures ScanForward("", text) == ""
  {
  }

  lemma GlobOfLiteral(name: string, text: string)
    requires Literal(text)
    ensures Glob(name, text) <==> name == text
  {
    if Glob(name, text) {
      assert text == text + "";
      LiteralPrefixed(text, name, "");
      assert name == text + name[|text|..];
      GlobLiteral(text, name[|text|..], "");
    }
    if name == text {
      assert text == text + "";
      GlobLiteral(text, "", "");
    }
  }

  lemma {:induction false} LeadingTextOfLiteral(text: string)
    requires Literal(text)
    ensures LeadingText(text) == text
  {
    if text != "" {
      LeadingTextOfLiteral(text[1..]);
    }
  }

  lemma SuffixScan(name: string, text: string)
    requires Literal(text) && Borderless(text) && GlobAfter(name, text, true)
    ensures Greedy(name, text, true)
  {
    if text != "" {
      var k :| 0 <= k <= |name| && Glob(name[k..], text);
      GlobOfLiteral(name[k..], text);
      assert k == |name| - |text|;
      LeadingTextOfLiteral(text);
      ScanFindsSuffix(name, text);
    }
  }

  /** At most one `*`, and behind it only ordinary text that no closed brace reaches into and that
      has no border. Filters without `*`, filters ending in their only `*`, and `*.ext` are tame. */
  ghost predicate Tame(filter: string) {
    '*' in filter ==>
      var text := After(filter, '*');
      Literal(text) && '}' !in text && Borderless(text)
  }

  lemma TameSuffix(filter: string, k: nat)
    requires Tame(filter) && k <= |Before(filter, '*')|
    ensures Tame(filter[k..])
  {
    assert filter == filter[..k] + filter[k..];
    assert filter[..k] == Before(filter, '*')[..k];
    TameAfterPrefix(filter[..k], filter[k..]);
  }

  lemma {:induction false} AlternativeInList(list: string, alt: string)
    requires alt in Alternatives(list)
    ensures forall c :: c in alt ==> c in list
    decreases |list|
  {
    var b := Before(list, ',');
    if alt != b {
      AlternativeInList(After(list, ','), alt);
    }
  }

  lemma AfterPrefix(p: string, s: string, c: char)
    requires c !in p && c in s
    ensures c in p + s && After(p + s, c) == After(s, c)
  {
    var b, a := Before(s, c), After(s, c);
    assert p + s == (p + b) + [c] + a;
    BeforeUnique(p + b, a, c);
    assert (p + s)[|p + b|] == c;
  }

  lemma TameAfterPrefix(p: string, s: string)
    requires '*' !in p
    ensures Tame(p + s) <==> Tame(s)
  {
    if '*' in s {
      AfterPrefix(p, s, '*');
    }
  }

  /** A `*` inside a closed brace is never tame. */
  lemma StarInBody(open: string, b: string, a: string, rest: string)
    requires '*' !in open + b
    ensures !Tame(open + (b + ['*'] + a) + ['}'] + rest)
  {
    var tail := a + ['}'] + rest;
    assert tail[|a|] == '}';
    assert open + (b + ['*'] + a) + ['}'] + rest == (open + b) + ['*'] + tail;
    BeforeUnique(open + b, tail, '*');
    assert ((open + b) + ['*'] + tail)[|open + b|] == '*';
  }

  lemma TameAlternative(body: string, rest: string, alt: string)
    requires Tame(['{'] + body + ['}'] + rest) && alt in Alternatives(body)
    ensures Tame(alt + rest)
  {
    assert '*' !in body by {
      if '*' in body {
        StarInBody(['{'], Before(body, '*'), After(body, '*'), rest);
      }
    }
    TameAfterPrefix(['{'] + body + ['}'], rest);
    AlternativeInList(body, alt);
    TameAfterPrefix(alt, rest);
  }

  /** On tame filters the greedy scan misses nothing. */
  lemma {:induction false} Complete(name: string, filter: string)
    requires Tame(filter) && Glob(name, filter)
    ensures Greedy(name, filter, false)
    decreases |filter|
  {
    hide Tame, AtToken, LeadingText, Literal, Greedy;
    if filter == "" {
      NothingLeft(name);
    } else {
      var needed := LeadingText(filter);
      var token := filter[|needed|..];
      assert filter == needed + token;
      LiteralPrefixed(needed, name, token);
      var rest := name[|needed|..];
      assert name == needed + rest;
      GlobLiteral(needed, rest, token);
      TextMatched(name, filter);
      if token != "" {
        LiteralBeforeStar(filter, |needed|);
        TameSuffix(filter, |needed|);
        CompleteAtToken(rest, token);
        assert token[1..] == filter[|needed| + 1..];
      }
    }
  }

  lemma NothingLeft(name: string)
    ensures Glob(name, "") ==> Greedy(name, "", false)
  {
  }

  /** With its leading text in place, a filter is decided by what follows. */
  lemma TextMatched(name: string, filter: string)
    requires filter != "" && LeadingText(filter) <= name
    ensures var k := |LeadingText(filter)|;
            Greedy(name, filter, false) <==>
            if k == |filter| then name[k..] == "" else AtToken(name[k..], filter[k], filter[k + 1..])
  {
    hide AtToken, LeadingText;
  }

  lemma LiteralBeforeStar(filter: string, k: nat)
    requires k <= |filter| && Literal(filter[..k])
    ensures k <= |Before(filter, '*')|
  {
    forall i | 0 <= i < k ensures filter[i] != '*' {
      assert filter[..k][i] == filter[i];
    }
  }

  lemma {:induction false} CompleteInBrace(name: string, body: string, rest: string)
    requires Tame(['{'] + body + ['}'] + rest)
    requires exists alt :: alt in Alternatives(body) && Glob(name, alt + rest)
    ensures exists alt :: alt in Alternatives(body) && Greedy(name, alt + rest, false)
    decreases |['{'] + body + ['}'] + rest|, 0
  {
    var alt :| alt in Alternatives(body) && Glob(name, alt + rest);
    TameAlternative(body, rest, alt);
    Complete(name, alt + rest);
  }

  lemma BraceParts(filter: string)
    requires filter != "" && filter[0] == '{' && '}' in filter[1..]
    ensures filter == ['{'] + Before(filter[1..], '}') + ['}'] + After(filter[1..], '}')
  {
    hide Before, After;
    var b, a := Before(filter[1..], '}'), After(filter[1..], '}');
    assert ['{'] + (b + ['}'] + a) == ['{'] + b + ['}'] + a;
  }

  lemma {:induction false} CompleteAtToken(name: string, filter: string)
    requires filter != "" && IsToken(filter[0]) && Tame(filter) && Glob(name, filter)
    ensures AtToken(name, filter[0], filter[1..])
    decreases |filter|, 1
  {
    var tail := filter[1..];
    if filter[0] == '*' {
      assert Before(filter, '*') == "" && After(filter, '*') == tail;
      SuffixScan(name, tail);
    } else if filter[0] == '{' && '}' in tail {
      BraceParts(filter);
      CompleteInBrace(name, Before(tail, '}'), After(tail, '}'));
    } else {
      TameSuffix(filter, 1);
      Complete(name[1..], tail);
    }
  }

  lemma StarFirst(name: string, t: string)
    ensures Greedy(name, ['*'] + t, false) <==> Greedy(name, t, true)
  {
    var filter := ['*'] + t;
    assert LeadingText(filter) == "" && filter[0..] == filter && filter[1..] == t;
  }

  lemma StarSkips(name: string, t: string) returns (k: nat)
    requires Glob(name, ['*'] + t)
    ensures k <= |name| && Glob(name[k..], t)
  {
    assert (['*'] + t)[1..] == t;
    k :| 0 <= k <= |name| && Glob(name[k..], t);
  }

  lemma StarTakes(name: string, k: nat, t: string)
    requires k <= |name| && Glob(name[k..], t)
    ensures Glob(name, ['*'] + t)
  {
    assert (['*'] + t)[1..] == t;
  }

  lemma StarText(name: string, text: string)
    requires Literal(text)
    ensures Greedy(name, ['*'] + text, false) <==> text == "" || (Locate(name, text).Some? && ScanForward(name, text) == "")
    ensures Glob(name, ['*'] + text) <==> IsSuffix(text, name)
  {
    hide Glob, Locate, ScanForward;
    StarFirst(name, text);
    LeadingTextOfLiteral(text);
    if Glob(name, ['*'] + text) {
      var k := StarSkips(name, text);
      GlobOfLiteral(name[k..], text);
    }
    if IsSuffix(text, name) {
      GlobOfLiteral(name[|name| - |text|..], text);
      StarTakes(name, |name| - |text|, text);
    }
  }

  /** The matcher decides this filter as it is meant, on every name. */
  ghost predicate Exact(filter: string) {
    forall name :: Greedy(name, filter, false) <==> Glob(name, filter)
  }

  /** `*text` is matched exactly, on every name, if and only if `text` has no border:
      for instance `*aa` rejects `aaa`, while `*.zip` misses nothing. */
  lemma StarTextExact(text: string)
    requires Literal(text)
    ensures Exact(['*'] + text) <==> Borderless(text)
  {
    if Borderless(text) {
      forall name ensures Greedy(name, ['*'] + text, false) <==> Glob(name, ['*'] + text) {
        StarTextDecided(name, text);
      }
    } else {
      var k :| 0 < k < |text| && text[..k] == text[|text| - k..];
      var name := OverlappedName(text, k);
      assert !(Greedy(name, ['*'] + text, false) <==> Glob(name, ['*'] + text));
    }
  }

  lemma StarTextDecided(name: string, text: string)
    requires Literal(text) && Borderless(text)
    ensures Greedy(name, ['*'] + text, false) <==> Glob(name, ['*'] + text)
  {
    hide Greedy, Glob, Borderless;
    StarText(name, text);
    if text != "" && IsSuffix(text, name) {
      ScanFindsSuffix(name, text);
    }
    if Locate(name, text).Some? && ScanForward(name, text) == "" {
      ScanSplits(name, text);
      assert text + "" == text;
    }
  }

  lemma OverlappedName(text: string, k: nat) returns (name: string)
    requires Literal(text) && 0 < k < |text| && text[..k] == text[|text| - k..]
    ensures name == text[..|text| - k] + text
    ensures Glob(name, ['*'] + text) && !Greedy(name, ['*'] + text, false)
  {
    var m := |text| - k;
    name := text[..m] + text;
    assert name[m..] == text;
    assert name[..|text|] == text[..m] + text[..k] == text;
    assert OccursAt(name, text, 0);
    LocateIs(name, text, 0);
    var rest := name[|text|..];
    LocateMeaning(rest, text);
    StarText(name, text);
  }

  // ---------------------------------------------------------------- filters with one star

  /** Behind a `*`, a token is tried at the current place only. */
  lemma StarToken(name: string, t: string)
    requires t != "" && IsToken(t[0])
    ensures Greedy(name, ['*'] + t, false) <==> AtToken(name, t[0], t[1..])
  {
    hide AtToken;
    StarFirst(name, t);
    assert LeadingText(t) == "" && t[0..] == t;
  }

  /** A filter without `*` describes no name longer than itself. */
  lemma {:induction false} StarFreeBound(name: string, t: string)
    requires '*' !in t && Glob(name, t)
    ensures |name| <= |t|
    decreases |t|
  {
    if t != "" {
      var tail := t[1..];
      if t[0] == '{' && '}' in tail {
        var rest := After(tail, '}');
        var alt :| alt in Alternatives(Before(tail, '}')) && Glob(name, alt + rest);
        ExpandedBrace(tail, alt);
        StarFreeBound(name, alt + rest);
      } else {
        StarFreeBound(name[1..], tail);
      }
    }
  }

  lemma ExpandedBrace(tail: string, alt: string)
    requires '}' in tail && '*' !in tail && alt in Alternatives(Before(tail, '}'))
    ensures '*' !in alt + After(tail, '}') && |alt + After(tail, '}')| <= |tail|
  {
    hide Alternatives;
    AlternativeInList(Before(tail, '}'), alt);
  }

  /** The longest name of a kind that a filter without `*` describes. */
  lemma {:induction false} Longest(m: string, t: string) returns (name: string)
    requires '*' !in t && Glob(m, t)
    ensures Glob(name, t) && !Glob(['x'] + name, t)
    decreases |t| - |m|
  {
    hide Glob;
    StarFreeBound(m, t);
    if Glob(['x'] + m, t) {
      StarFreeBound(['x'] + m, t);
      name := Longest(['x'] + m, t);
    } else {
      name := m;
    }
  }

  /** A name that `*t` describes and the matcher rejects, for every `t` that begins with a token and
      describes anything: `*?` rejects `ab`, and `*{a}` rejects `xa`. */
  lemma RejectedName(m: string, t: string) returns (name: string)
    requires t != "" && IsToken(t[0]) && '*' !in t && Glob(m, t)
    ensures Glob(name, ['*'] + t) && !Greedy(name, ['*'] + t, false)
  {
    var longest := Longest(m, t);
    name := ['x'] + longest;
    assert name[1..] == longest && (['*'] + t)[1..] == t;
    StarToken(name, t);
    if AtToken(name, t[0], t[1..]) {
      SoundAtToken(name, t);
    }
  }

  ghost predicate DescribesNothing(t: string) {
    forall m :: !Glob(m, t)
  }

  /** `*t` with a `t` that begins with a token is exact only if it describes nothing. */
  lemma StarTokenExact(t: string)
    requires t != "" && IsToken(t[0]) && '*' !in t
    ensures Exact(['*'] + t) <==> DescribesNothing(t)
  {
    hide Greedy;
    if !DescribesNothing(t) {
      var m :| Glob(m, t);
      var name := RejectedName(m, t);
      assert !(Greedy(name, ['*'] + t, false) <==> Glob(name, ['*'] + t));
      assert !Exact(['*'] + t);
    } else {
      forall name ensures !Greedy(name, ['*'] + t, false) && !Glob(name, ['*'] + t) {
        NothingBehindStar(name, t);
        if Greedy(name, ['*'] + t, false) {
          Sound(name, ['*'] + t, false);
        }
      }
    }
  }

  lemma NothingBehindStar(name: string, t: string)
    requires DescribesNothing(t)
    ensures !Glob(name, ['*'] + t) && !GlobAfter(name, ['*'] + t, false)
  {
    assert (['*'] + t)[1..] == t;
  }

  /** `text` agrees with itself moved by d places: d is 0, or leaves a border. */
  predicate Period(text: string, d: int) {
    0 <= d < |text| && text[d..] == text[..|text| - d]
  }

  /** What is left of `text` when an occurrence d places earlier has been passed, and all behind it. */
  function Overhang(text: string, d: nat, y: string): string
    requires d <= |text|
  {
    text[|text| - d..] + y
  }

  lemma OverlapIsPeriod(name: string, text: string, i: nat, j: nat)
    requires OccursAt(name, text, i) && OccursAt(name, text, j) && i <= j < i + |text|
    ensures Period(text, j - i)
  {
    var d := j - i;
    SliceOfOccurrence(name, text, i, d, |text|);
    SliceOfOccurrence(name, text, j, 0, |text| - d);
    assert text[d..|text|] == text[d..] && text[0..|text| - d] == text[..|text| - d];
  }

  /** The scan passes any given occurrence of a text, or one that overlaps it from the left. */
  lemma {:induction false} ScanPasses(x: string, text: string, y: string) returns (d: nat)
    requires text != ""
    ensures Period(text, d) && Locate(x + text + y, text).Some?
    ensures ScanForward(x + text + y, text) == ScanForward(Overhang(text, d, y), text)
    decreases |x|
  {
    hide Locate, ScanForward, Period;
    var name := x + text + y;
    assert OccursAt(name, text, |x|);
    LocateMeaning(name, text);
    ScanStep(name, text);
    var i := Locate(name, text).value;
    if i + |text| <= |x| {
      assert name[i + |text|..] == x[i + |text|..] + text + y;
      d := ScanPasses(x[i + |text|..], text, y);
    } else {
      d := |x| - i;
      OverlapIsPeriod(name, text, i, |x|);
      assert name[i + |text|..] == Overhang(text, d, y);
    }
  }

  /** Every such case arises. */
  lemma ScanFromPeriod(text: string, d: nat, y: string)
    requires text != "" && Period(text, d)
    ensures var name := text[..d] + text + y;
            Locate(name, text).Some? && ScanForward(name, text) == ScanForward(Overhang(text, d, y), text)
  {
    hide Locate, ScanForward;
    var name := text[..d] + text + y;
    assert name[..|text|] == text[..d] + text[..|text| - d];
    assert text == text[..d] + text[d..];
    assert OccursAt(name, text, 0);
    LocateIs(name, text, 0);
    ScanStep(name, text);
    assert name[|text|..] == Overhang(text, d, y);
  }

  /** Occurrences of a text without border do not overlap, so the scan visits each of them. */
  lemma ScanVisits(x: string, text: string, y: string)
    requires text != "" && Borderless(text)
    ensures Locate(x + text + y, text).Some? && ScanForward(x + text + y, text) == ScanForward(y, text)
  {
    hide Locate, ScanForward;
    var d := ScanPasses(x, text, y);
    assert d == 0 by {
      BorderlessPeriod(text, d);
    }
    assert Overhang(text, 0, y) == y;
  }

  lemma BorderlessPeriod(text: string, d: nat)
    requires Borderless(text) && Period(text, d)
    ensures d == 0
  {
    var k := |text| - d;
    assert text[|text| - k..] == text[..k];
  }

  /** Without a `*` left, the matcher decides a filter as it is meant. */
  lemma StarFreeExact(name: string, u: string)
    requires u != "" && IsToken(u[0]) && '*' !in u
    ensures AtToken(name, u[0], u[1..]) <==> Glob(name, u)
  {
    hide AtToken, Glob;
    if AtToken(name, u[0], u[1..]) {
      SoundAtToken(name, u);
    }
    if Glob(name, u) {
      CompleteAtToken(name, u);
    }
  }

  lemma StarTextToken(name: string, text: string, u: string)
    requires text != "" && Literal(text) && u != "" && IsToken(u[0]) && '*' !in u
    ensures Greedy(name, ['*'] + (text + u), false) <==> Locate(name, text).Some? && Glob(ScanForward(name, text), u)
  {
    hide Locate, ScanForward, AtToken, Glob;
    StarFirst(name, text + u);
    LeadingTextToken(text, u);
    assert (text + u)[|text|] == u[0] && (text + u)[|text|..] == u;
    DropDrop(text + u, |text|, 1);
    StarFreeExact(ScanForward(name, text), u);
  }

  lemma {:induction false} LeadingTextToken(text: string, u: string)
    requires Literal(text) && u != "" && IsToken(u[0])
    ensures LeadingText(text + u) == text
  {
    if text != "" {
      assert (text + u)[1..] == text[1..] + u;
      LeadingTextToken(text[1..], u);
    }
  }

  lemma StarTextParts(name: string, text: string, u: string) returns (x: string, y: string)
    requires Literal(text) && Glob(name, ['*'] + (text + u))
    ensures name == x + text + y && Glob(y, u)
  {
    hide Glob, Literal;
    var k := StarSkips(name, text + u);
    var rest := name[k..];
    LiteralPrefixed(text, rest, u);
    x, y := name[..k], rest[|text|..];
    assert rest == text + y;
    assert name == x + rest;
    GlobLiteral(text, y, u);
  }

  lemma StarTextGlob(x: string, text: string, y: string, u: string)
    requires Literal(text) && Glob(y, u)
    ensures Glob(x + text + y, ['*'] + (text + u))
  {
    hide Glob;
    GlobLiteral(text, y, u);
    assert (x + text + y)[|x|..] == text + y;
    StarTakes(x + text + y, |x|, text + u);
  }

  /** What `u` describes behind the text, it still describes when the scan has gone as far as it can,
      wherever an overlapping occurrence made it start. Both y and d range over finitely many values,
      for `u` describes nothing longer than itself. */
  ghost predicate Closed(text: string, u: string) {
    forall y, d :: Glob(y, u) && Period(text, d) ==> Glob(ScanForward(Overhang(text, d, y), text), u)
  }

  /** `*` with text and then a token behind it is exact if and only if what follows the text is closed
      under the scan. */
  lemma StarTextTokenExact(text: string, u: string)
    requires text != "" && Literal(text) && u != "" && IsToken(u[0]) && '*' !in u
    ensures Exact(['*'] + (text + u)) <==> Closed(text, u)
  {
    hide Glob, Greedy, Literal, Locate, ScanForward, Overhang;
    var filter := ['*'] + (text + u);
    if Closed(text, u) {
      forall name ensures Greedy(name, filter, false) <==> Glob(name, filter) {
        StarTextToken(name, text, u);
        if Glob(name, filter) {
          var x, y := StarTextParts(name, text, u);
          var d := ScanPasses(x, text, y);
        }
        if Greedy(name, filter, false) {
          Sound(name, filter, false);
        }
      }
    }
    if Exact(filter) {
      forall y, d | Glob(y, u) && Period(text, d) ensures Glob(ScanForward(Overhang(text, d, y), text), u) {
        ClosedAt(text, u, y, d);
      }
    }
  }

  lemma ClosedAt(text: string, u: string, y: string, d: int)
    requires text != "" && Literal(text) && u != "" && IsToken(u[0]) && '*' !in u
    requires Exact(['*'] + (text + u)) && Glob(y, u) && Period(text, d)
    ensures Glob(ScanForward(Overhang(text, d, y), text), u)
  {
    hide Glob, Greedy, Locate, ScanForward, Literal;
    var name := text[..d] + text + y;
    StarTextGlob(text[..d], text, y, u);
    ScanFromPeriod(text, d, y);
    StarTextToken(name, text, u);
  }

  lemma TextThenStar(p: string, t: string, name: string)
    requires Literal(p)
    ensures Greedy(p + name, p + ['*'] + t, false) <==> Greedy(name, ['*'] + t, false)
    ensures Glob(p + name, p + ['*'] + t) <==> Glob(name, ['*'] + t)
  {
    var filter := p + (['*'] + t);
    assert filter == p + ['*'] + t;
    GlobLiteral(p, name, ['*'] + t);
    LeadingTextBefore(p, t);
    assert filter[|p|] == '*' && filter[|p| + 1..] == t;
    assert (p + name)[|p|..] == name;
    StarFirst(name, t);
  }

  lemma {:induction false} LeadingTextBefore(p: string, t: string)
    requires Literal(p)
    ensures LeadingText(p + (['*'] + t)) == p
  {
    if p != "" {
      assert (p + (['*'] + t))[1..] == p[1..] + (['*'] + t);
      LeadingTextBefore(p[1..], t);
    }
  }

  /** Ordinary text in front of the `*` makes no difference. */
  lemma TextThenStarExact(p: string, t: string)
    requires Literal(p)
    ensures Exact(p + ['*'] + t) <==> Exact(['*'] + t)
  {
    hide Greedy, Glob;
    if Exact(p + ['*'] + t) {
      forall name ensures Greedy(name, ['*'] + t, false) <==> Glob(name, ['*'] + t) {
        TextThenStar(p, t, name);
      }
    }
    if Exact(['*'] + t) {
      forall name ensures Greedy(name, p + ['*'] + t, false) <==> Glob(name, p + ['*'] + t) {
        BeginsWithText(p, t, name);
        if p <= name {
          assert name == p + name[|p|..];
          TextThenStar(p, t, name[|p|..]);
        }
      }
    }
  }

  lemma BeginsWithText(p: string, t: string, name: string)
    requires Literal(p)
    ensures Greedy(name, p + ['*'] + t, false) ==> p <= name
    ensures Glob(name, p + ['*'] + t) ==> p <= name
  {
    var filter := p + (['*'] + t);
    assert filter == p + ['*'] + t;
    LeadingTextBefore(p, t);
    if Glob(name, filter) {
      LiteralPrefixed(p, name, ['*'] + t);
    }
  }

  /** The three ways to be rejected although described: an overlap, a token behind the `*`, and a text that
      occurs again in what should follow it. */
  lemma RejectedExamples()
    ensures Glob("aaa", "*aa") && !Greedy("aaa", "*aa", false)
    ensures Glob("ab", "*?") && !Greedy("ab", "*?", false)
    ensures Glob("aa", "*a?") && !Greedy("aa", "*a?", false)
  {
    OverlapExample();
    TokenExample();
    TextTokenExample();
  }

  lemma OverlapExample()
    ensures Glob("aaa", "*aa") && !Greedy("aaa", "*aa", false)
  {
    hide Glob, Greedy;
    assert ['*'] + "aa" == "*aa";
    StarText("aaa", "aa");
    assert "aaa"[1..] == "aa" && IsSuffix("aa", "aaa");
    assert OccursAt("aaa", "aa", 0);
    LocateIs("aaa", "aa", 0);
    ScanStep("aaa", "aa");
    assert "aaa"[2..] == "a";
    ScanStep("a", "aa");
    LocateMeaning("a", "aa");
  }

  lemma TokenExample()
    ensures Glob("ab", "*?") && !Greedy("ab", "*?", false)
  {
    assert ['*'] + "?" == "*?" && "?"[1..] == "" && "ab"[1..] == "b";
    StarToken("ab", "?");
    assert Glob("b", "?") by {
      assert "b"[1..] == "";
    }
    StarTakes("ab", 1, "?");
  }

  lemma TextTokenExample()
    ensures Glob("aa", "*a?") && !Greedy("aa", "*a?", false)
  {
    hide Greedy, Locate, ScanForward;
    assert ['*'] + ("a" + "?") == "*a?" && "" + "a" + "a" == "aa";
    assert Glob("a", "?") by {
      assert "a"[1..] == "" && "?"[1..] == "";
    }
    StarTextGlob("", "a", "a", "?");
    StarTextToken("aa", "a", "?");
    AllScanned();
  }

  lemma AllScanned()
    ensures ScanForward("aa", "a") == ""
  {
    hide ScanForward, Locate;
    assert OccursAt("aa", "a", 0) && OccursAt("a", "a", 0);
    LocateIs("aa", "a", 0);
    LocateIs("a", "a", 0);
    ScanStep("aa", "a");
    ScanStep("a", "a");
    assert "aa"[1..] == "a" && "a"[1..] == "";
    ScanNothing("a");
  }

  /** Filters with one `*` and ordinary text before it: with ordinary text behind it they are exact if
      and only if that text has no border, with a token behind it only if nothing can match there, and
      with text and then a token if and only if what follows the text is closed under the scan. */
  lemma OneStarExact(p: string, t: string)
    requires Literal(p) && '*' !in t
    ensures Literal(t) ==> (Exact(p + ['*'] + t) <==> Borderless(t))
    ensures t != "" && IsToken(t[0]) ==> (Exact(p + ['*'] + t) <==> DescribesNothing(t))
    ensures var text := LeadingText(t);
            text != "" && text != t ==> (Exact(p + ['*'] + t) <==> Closed(text, t[|text|..]))
  {
    hide Exact, Borderless, DescribesNothing, Closed, LeadingText;
    TextThenStarExact(p, t);
    if Literal(t) {
      StarTextExact(t);
    }
    if t != "" && IsToken(t[0]) {
      StarTokenExact(t);
    }
    var text := LeadingText(t);
    if text != "" && text != t {
      var u := t[|text|..];
      assert t == text + u;
      StarTextTokenExact(text, u);
    }
  }

  // ---------------------------------------------------------------- filters with more stars

  /** Text between two stars: it must occur, and what is left over is what the scan leaves behind it. This
      holds whatever follows the second star. */
  lemma TextBetweenStars(name: string, text: string, t: string)
    requires text != "" && Literal(text)
    ensures Greedy(name, ['*'] + (text + (['*'] + t)), false) <==>
            Occurs(name, text) && Greedy(ScanForward(name, text), ['*'] + t, false)
  {
    hide ScanForward, AtToken;
    var u := ['*'] + t;
    StarFirst(name, text + u);
    LeadingTextToken(text, u);
    LocateMeaning(name, text);
    assert (text + u)[|text|] == '*' && (text + u)[|text|..] == u;
    DropDrop(text + u, |text|, 1);
    StarFirst(ScanForward(name, text), t);
    AtStar(ScanForward(name, text), t);
    assert u[1..] == t;
  }

  lemma AtStar(name: string, t: string)
    ensures AtToken(name, '*', t) <==> Greedy(name, t, true)
  {
  }

  /** `*` behind and in front of each of these texts. */
  function Stars(texts: seq<string>): string {
    if texts == [] then "*" else ['*'] + (texts[0] + Stars(texts[1..]))
  }

  ghost predicate Texts(texts: seq<string>) {
    forall t :: t in texts ==> t != "" && Literal(t)
  }

  /** Each text occurs in what the scan for the one before it leaves over, and the matcher takes what is
      left in the end for `*t`. */
  ghost predicate Chained(name: string, texts: seq<string>, t: string)
    decreases |texts|
  {
    if texts == [] then Greedy(name, ['*'] + t, false)
    else Occurs(name, texts[0]) && Chained(ScanForward(name, texts[0]), texts[1..], t)
  }

  /** The texts occur one behind the other, and `*t` describes what follows. */
  ghost predicate InOrder(name: string, texts: seq<string>, t: string)
    decreases |texts|
  {
    if texts == [] then Glob(name, ['*'] + t)
    else exists i :: OccursAt(name, texts[0], i) && InOrder(name[i + |texts[0]|..], texts[1..], t)
  }

  lemma StarsStep(texts: seq<string>, t: string)
    requires texts != []
    ensures var u := Stars(texts[1..]) + t;
            u != "" && u == ['*'] + u[1..] && Stars(texts) + t == ['*'] + (texts[0] + u)
  {
    assert Stars(texts[1..])[0] == '*';
    assert ['*'] + (texts[0] + Stars(texts[1..])) + t == ['*'] + (texts[0] + (Stars(texts[1..]) + t));
  }

  lemma NoTexts(t: string)
    ensures Stars([]) + t == ['*'] + t
  {
  }

  /** What the matcher decides for any number of stars with text between them, whatever follows. */
  lemma {:induction false} StarsDecided(name: string, texts: seq<string>, t: string)
    requires Texts(texts)
    ensures Greedy(name, Stars(texts) + t, false) <==> Chained(name, texts, t)
    decreases |texts|
  {
    hide Greedy, ScanForward, Occurs, Literal, Stars;
    if texts == [] {
      NoTexts(t);
    } else {
      var text, u := texts[0], Stars(texts[1..]) + t;
      assert text in texts && forall t :: t in texts[1..] ==> t in texts;
      StarsStep(texts, t);
      TextBetweenStars(name, text, u[1..]);
      StarsDecided(ScanForward(name, text), texts[1..], t);
    }
  }

  /** What such a filter means. */
  lemma {:induction false} StarsMean(name: string, texts: seq<string>, t: string)
    requires Texts(texts)
    ensures Glob(name, Stars(texts) + t) <==> InOrder(name, texts, t)
    decreases |texts|
  {
    hide Glob, Literal, Stars;
    if texts == [] {
      NoTexts(t);
    } else {
      var text, u := texts[0], Stars(texts[1..]) + t;
      assert text in texts && forall t :: t in texts[1..] ==> t in texts;
      StarsStep(texts, t);
      if Glob(name, Stars(texts) + t) {
        var x, y := StarTextParts(name, text, u);
        StarsMean(y, texts[1..], t);
        PartsOccur(x, text, y);
      }
      if InOrder(name, texts, t) {
        var x, y := FirstInOrder(name, texts, t);
        StarsMean(y, texts[1..], t);
        StarTextGlob(x, text, y, u);
      }
    }
  }

  lemma FirstInOrder(name: string, texts: seq<string>, t: string) returns (x: string, y: string)
    requires texts != [] && InOrder(name, texts, t)
    ensures name == x + texts[0] + y && InOrder(y, texts[1..], t)
  {
    var i :| OccursAt(name, texts[0], i) && InOrder(name[i + |texts[0]|..], texts[1..], t);
    x, y := name[..i], name[i + |texts[0]|..];
  }

  lemma PartsOccur(x: string, text: string, y: string)
    ensures OccursAt(x + text + y, text, |x|) && (x + text + y)[|x| + |text|..] == y
  {
  }

  lemma {:induction false} ConcatInOrder(texts: seq<string>, more: string, t: string)
    requires Glob(more, ['*'] + t)
    ensures InOrder(Concat(texts) + more, texts, t)
    decreases |texts|
  {
    hide Glob;
    if texts == [] {
      assert Concat(texts) + more == more;
    } else {
      var rest := Concat(texts[1..]) + more;
      var name := Concat(texts) + more;
      assert name == texts[0] + rest;
      assert OccursAt(name, texts[0], 0) && name[0 + |texts[0]|..] == rest;
      ConcatInOrder(texts[1..], more, t);
    }
  }

  function Concat(texts: seq<string>): string {
    if texts == [] then "" else texts[0] + Concat(texts[1..])
  }

  lemma ChainedInOrder(name: string, texts: seq<string>, t: string)
    requires Texts(texts) && Chained(name, texts, t)
    ensures InOrder(name, texts, t)
  {
    hide Greedy, Glob, Literal, Stars;
    StarsDecided(name, texts, t);
    Sound(name, Stars(texts) + t, false);
    assert Glob(name, Stars(texts) + t);
    StarsMean(name, texts, t);
  }

  lemma {:induction false} InOrderBehind(x: string, name: string, texts: seq<string>, t: string)
    requires InOrder(name, texts, t)
    ensures InOrder(x + name, texts, t)
  {
    hide Glob;
    if texts == [] {
      var k := StarSkips(name, t);
      assert (x + name)[|x| + k..] == name[k..];
      StarTakes(x + name, |x| + k, t);
    } else {
      var i :| OccursAt(name, texts[0], i) && InOrder(name[i + |texts[0]|..], texts[1..], t);
      OccursRight(x, name, texts[0], i);
      assert (x + name)[|x| + i + |texts[0]|..] == name[i + |texts[0]|..];
    }
  }

  /** What is taken is no shorter than the text at the end, and longer if there are others before. */
  lemma {:induction false} ChainLength(name: string, texts: seq<string>, last: string)
    requires Texts(texts) && Literal(last) && Chained(name, texts, last)
    ensures |name| >= |last| && (texts != [] ==> |name| > |last|)
    decreases |texts|
  {
    hide Greedy, Literal, ScanForward, Locate, Glob;
    if texts == [] {
      Sound(name, ['*'] + last, false);
      StarText(name, last);
    } else {
      var text := texts[0];
      assert text in texts && forall t :: t in texts[1..] ==> t in texts;
      ChainLength(ScanForward(name, text), texts[1..], last);
      LocateMeaning(name, text);
      ScanSplits(name, text);
    }
  }

  /** With two or more texts, each of these filters describes a name that the matcher rejects, because it
      looks for the second text only behind the last occurrence of the first. */
  lemma SecondTextMissed(texts: seq<string>, last: string) returns (name: string)
    requires Texts(texts) && |texts| >= 2 && Literal(last)
    ensures Glob(name, Stars(texts) + last) && !Greedy(name, Stars(texts) + last, false)
  {
    hide Greedy, Glob, Literal, Stars, InOrder, Chained;
    var first, all := texts[0], Concat(texts);
    name := all + (first + last);
    BehindText(first, last);
    ConcatInOrder(texts, first + last, last);
    StarsDecided(name, texts, last);
    StarsMean(name, texts, last);
    if Chained(name, texts, last) {
      // What is left behind the last occurrence of the first text holds the others.
      assert name == all + first + last;
      TwiceFirst(all, texts, last);
      name := first + (first + last);
      StarsDecided(name, texts, last);
      StarsMean(name, texts, last);
    }
  }

  lemma BehindText(x: string, last: string)
    requires Literal(last)
    ensures Glob(x + last, ['*'] + last)
  {
    hide Glob;
    StarText(x + last, last);
  }

  /** If the others are still found behind the last occurrence of the first text, then two copies of it
      make a name that is described and rejected. */
  lemma TwiceFirst(x: string, texts: seq<string>, last: string)
    requires Texts(texts) && |texts| >= 2 && Literal(last) && Chained(x + texts[0] + last, texts, last)
    ensures InOrder(texts[0] + (texts[0] + last), texts, last) && !Chained(texts[0] + (texts[0] + last), texts, last)
  {
    hide Literal, ScanForward, Occurs, Greedy, Glob, Locate;
    var first, others := texts[0], texts[1..];
    assert first in texts && others[0] in texts && forall t :: t in others ==> t in texts;
    var d := ScanPasses(x, first, last);
    ScanTail(first, d, others, last);
    var name := first + (first + last);
    assert OccursAt(name, first, 0) && name[0 + |first|..] == first + last;
    assert InOrder(name, texts, last);
    if Chained(name, texts, last) {
      ScanTwice(first, last);
      ChainLength(ScanForward(last, first), others, last);
    }
  }

  lemma ScanTail(first: string, d: nat, others: seq<string>, last: string)
    requires first != "" && d < |first| && Texts(others)
    requires Chained(ScanForward(Overhang(first, d, last), first), others, last)
    ensures InOrder(first + last, others, last)
  {
    hide ScanForward, Literal, Chained, InOrder;
    var tail := Overhang(first, d, last);
    var rest := ScanForward(tail, first);
    ChainedInOrder(rest, others, last);
    ScanLeavesSuffix(tail, first);
    InOrderBehind(tail[..|tail| - |rest|], rest, others, last);
    assert tail == tail[..|tail| - |rest|] + rest;
    InOrderBehind(first[..|first| - d], tail, others, last);
    assert first[..|first| - d] + tail == first + last;
  }

  lemma {:induction false} ScanLeavesSuffix(name: string, needed: string)
    ensures IsSuffix(ScanForward(name, needed), name)
  {
    hide ScanForward, Locate;
    if Locate(name, needed).Some? {
      ScanSplits(name, needed);
    } else {
      ScanStep(name, needed);
    }
  }

  lemma ScanTwice(first: string, y: string)
    requires first != ""
    ensures ScanForward(first + (first + y), first) == ScanForward(y, first)
  {
    ScanFirst(first, first + y);
    ScanFirst(first, y);
  }

  lemma ScanFirst(first: string, y: string)
    requires first != ""
    ensures Occurs(first + y, first) && ScanForward(first + y, first) == ScanForward(y, first)
  {
    hide ScanForward, Locate;
    assert OccursAt(first + y, first, 0);
    LocateIs(first + y, first, 0);
    ScanStep(first + y, first);
    assert (first + y)[|first|..] == y;
  }

  /** The smallest such name. */
  lemma SecondTextExample()
    ensures Glob("aba", "*a*b*") && !Greedy("aba", "*a*b*", false)
  {
    hide Greedy, Glob, Chained, InOrder;
    var texts := ["a", "b"];
    assert Stars(texts) + "" == "*a*b*" by {
      assert texts[1..] == ["b"] && ["b"][1..] == [];
    }
    BehindText("a", "");
    assert "a" + "" == "a";
    ConcatInOrder(texts, "a", "");
    assert Concat(texts) + "a" == "aba" by {
      assert texts[1..] == ["b"] && ["b"][1..] == [];
    }
    StarsMean("aba", texts, "");
    StarsDecided("aba", texts, "");
    SecondGone();
  }

  lemma SecondGone()
    ensures !Chained("aba", ["a", "b"], "")
  {
    hide ScanForward, Greedy;
    assert "aba" == "ab" + "a" + "";
    assert ["a", "b"][1..][0] == "b";
    ScanVisits("ab", "a", "");
    ScanNothing("a");
  }

  // ---------------------------------------------------------------- one text between stars, and one at the end

  /** An occurrence of `a` can end inside an occurrence of `b`, wherever it begins. */
  ghost predicate Reaches(a: string, b: string) {
    exists k :: 0 < k <= |b| && EndsAlike(a, b[..k])
  }

  /** One of the two is a suffix of the other. */
  ghost predicate EndsAlike(s: string, t: string) {
    IsSuffix(s, t) || IsSuffix(t, s)
  }

  lemma SuffixesAlike(s: string, t: string, name: string)
    requires IsSuffix(s, name) && IsSuffix(t, name)
    ensures EndsAlike(s, t)
  {
    if |s| <= |t| {
      assert name[|name| - |s|..] == name[|name| - |t|..][|t| - |s|..];
    } else {
      assert name[|name| - |t|..] == name[|name| - |s|..][|s| - |t|..];
    }
  }

  /** Unless `a` reaches into `b`, a `b` at the end of a name survives the scan for `a`. */
  lemma ScanSpares(name: string, a: string, b: string)
    requires Locate(name, a).Some? && IsSuffix(b, name) && !Reaches(a, b)
    ensures IsSuffix(b, ScanForward(name, a))
  {
    hide ScanForward, Locate, EndsAlike;
    var rest := ScanForward(name, a);
    ScanSplits(name, a);
    var e := |name| - |rest|;
    assert name[e..] == rest;
    if |rest| < |b| {
      var k := |b| - |rest|;
      assert name[..e][e - |a|..] == a;
      assert name[..e][e - k..] == b[..k];
      SuffixesAlike(a, b[..k], name[..e]);
    } else {
      assert rest[|rest| - |b|..] == name[|name| - |b|..];
    }
  }

  lemma ReachesAt(a: string, b: string, k: nat)
    requires a != "" && 0 < k <= |b| && EndsAlike(a, b[..k])
    ensures var w := if |a| <= k then "" else a[..|a| - k];
            OccursAt(w + b, a, if |a| <= k then k - |a| else 0)
  {
    if |a| <= k {
      assert "" + b == b && b[..k][k - |a|..] == b[k - |a|..k];
    } else {
      var w := a[..|a| - k];
      assert a == w + b[..k];
      assert (w + b)[..|a|] == w + b[..k];
    }
  }

  /** If it does, there is a name that shows it. */
  lemma ReachedName(a: string, b: string) returns (y: string)
    requires a != "" && Reaches(a, b)
    ensures IsSuffix(b, y) && |ScanForward(y, a)| < |b|
  {
    hide ScanForward, Locate, EndsAlike, OccursAt;
    var k :| 0 < k <= |b| && EndsAlike(a, b[..k]);
    ReachesAt(a, b, k);
    var w := if |a| <= k then "" else a[..|a| - k];
    y := w + b;
    ScanShortens(y, a, if |a| <= k then k - |a| else 0, |w|);
  }

  lemma ScanShortens(y: string, a: string, i: nat, n: nat)
    requires a != "" && OccursAt(y, a, i) && n < |y| && (i > 0 ==> n == 0) && n < |a|
    ensures |ScanForward(y, a)| < |y| - n
  {
    hide ScanForward, Locate;
    LocateMeaning(y, a);
    assert Occurs(y, a);
    ScanStep(y, a);
  }

  lemma OneDecided(name: string, a: string, b: string)
    requires a != "" && Literal(a)
    ensures Greedy(name, Stars([a]) + b, false) <==> Occurs(name, a) && Greedy(ScanForward(name, a), ['*'] + b, false)
  {
    hide Greedy, ScanForward, Literal;
    StarsDecided(name, [a], b);
    assert [a][1..] == [];
  }

  lemma OneMeans(name: string, a: string, b: string)
    requires a != "" && Literal(a) && Literal(b)
    ensures Glob(name, Stars([a]) + b) <==> exists i :: OccursAt(name, a, i) && IsSuffix(b, name[i + |a|..])
  {
    hide Glob, Literal, IsSuffix;
    StarsMean(name, [a], b);
    assert [a][1..] == [] && [a][0] == a;
    forall i | OccursAt(name, a, i) ensures InOrder(name[i + |a|..], [], b) <==> IsSuffix(b, name[i + |a|..]) {
      StarText(name[i + |a|..], b);
    }
  }

  lemma FoundBehind(a: string, y: string, b: string)
    requires a != "" && Literal(a) && Literal(b) && IsSuffix(b, y)
    ensures Glob(a + y, Stars([a]) + b)
  {
    hide Glob, Literal, IsSuffix, Stars;
    OneMeans(a + y, a, b);
    assert OccursAt(a + y, a, 0) && (a + y)[0 + |a|..] == y;
  }

  /** If `a` reaches into `b`, a described name is rejected. */
  lemma ReachedRejected(a: string, b: string)
    requires a != "" && Literal(a) && Literal(b) && Reaches(a, b)
    ensures !Exact(Stars([a]) + b)
  {
    hide Greedy, Glob, Literal, Stars, ScanForward;
    var y := ReachedName(a, b);
    FoundBehind(a, y, b);
    OneDecided(a + y, a, b);
    ScanFirst(a, y);
    var rest := ScanForward(y, a);
    if Greedy(rest, ['*'] + b, false) {
      Sound(rest, ['*'] + b, false);
      StarText(rest, b);
    }
    assert !(Greedy(a + y, Stars([a]) + b, false) <==> Glob(a + y, Stars([a]) + b));
  }

  lemma NotInOverlap(a: string, b: string, k: nat)
    requires a != "" && !Reaches(a, b) && 0 < k < |b| && b[..k] == b[|b| - k..]
    ensures !Occurs(b[..|b| - k] + b, a)
  {
    hide EndsAlike;
    var m := |b| - k;
    var o := b[..m] + b;
    assert o[..|b|] == b by {
      assert o[..|b|] == b[..m] + b[..k];
    }
    forall i | OccursAt(o, a, i) ensures false {
      var e := i + |a|;
      assert o[..e][e - |a|..] == a;
      var n := if e <= |b| then e else e - m;
      assert o[..e][e - n..] == b[..n] by {
        if e <= |b| {
          assert o[..e] == o[..|b|][..e];
        } else {
          assert o[..e] == b[..m] + b[..n];
        }
      }
      SuffixesAlike(a, b[..n], o[..e]);
    }
  }

  lemma BorderRejected(a: string, b: string)
    requires a != "" && Literal(a) && Literal(b) && !Borderless(b) && !Reaches(a, b)
    ensures !Exact(Stars([a]) + b)
  {
    hide Greedy, Glob, Literal, Stars, ScanForward, Reaches, Locate;
    var k :| 0 < k < |b| && b[..k] == b[|b| - k..];
    var o := OverlappedName(b, k);
    NotInOverlap(a, b, k);
    LocateMeaning(o, a);
    ScanStep(o, a);
    StarText(o, b);
    FoundBehind(a, o, b);
    OneDecided(a + o, a, b);
    ScanFirst(a, o);
    assert !(Greedy(a + o, Stars([a]) + b, false) <==> Glob(a + o, Stars([a]) + b));
  }

  /** `*a*b` with ordinary text is exact if and only if `b` has no border and `a` does not reach into it. */
  lemma TwoTextsExact(a: string, b: string)
    requires a != "" && Literal(a) && Literal(b)
    ensures Exact(Stars([a]) + b) <==> Borderless(b) && !Reaches(a, b)
  {
    hide Greedy, Glob, Literal, Stars, ScanForward, Borderless, Reaches, Locate;
    if Reaches(a, b) {
      ReachedRejected(a, b);
    } else if !Borderless(b) {
      BorderRejected(a, b);
    } else {
      forall name ensures Greedy(name, Stars([a]) + b, false) <==> Glob(name, Stars([a]) + b) {
        TwoTextsDecided(name, a, b);
      }
    }
  }

  lemma TwoTextsDecided(name: string, a: string, b: string)
    requires a != "" && Literal(a) && Literal(b) && Borderless(b) && !Reaches(a, b)
    ensures Greedy(name, Stars([a]) + b, false) <==> Glob(name, Stars([a]) + b)
  {
    hide Greedy, Glob, Literal, Stars, ScanForward, Borderless, Reaches, Locate, IsSuffix;
    if Greedy(name, Stars([a]) + b, false) {
      Sound(name, Stars([a]) + b, false);
    }
    OneMeans(name, a, b);
    if Glob(name, Stars([a]) + b) {
      var i :| OccursAt(name, a, i) && IsSuffix(b, name[i + |a|..]);
      SuffixOfRest(b, name, i + |a|);
      LocateMeaning(name, a);
      assert Occurs(name, a);
      ScanSpares(name, a, b);
      OneDecided(name, a, b);
      StarText(ScanForward(name, a), b);
      StarTextDecided(ScanForward(name, a), b);
    }
  }

  /** One text between two stars is always found. */
  lemma OneTextExact(text: string)
    requires text != "" && Literal(text)
    ensures Exact(Stars([text]))
    ensures forall name :: Greedy(name, Stars([text]), false) <==> Occurs(name, text)
  {
    hide Greedy, Glob, Occurs, Stars, ScanForward;
    assert Stars([text]) + "" == Stars([text]);
    TwoTextsExact(text, "");
    forall name ensures Greedy(name, Stars([text]), false) <==> Occurs(name, text) {
      OneDecided(name, text, "");
      StarText(ScanForward(name, text), "");
    }
  }

  /** The exact condition for every filter of ordinary text and stars: behind the first star at most one
      text with a star behind it, no border in the text at the end, and the one before not reaching into it. */
  lemma StarsExact(p: string, texts: seq<string>, last: string)
    requires Literal(p) && Texts(texts) && Literal(last)
    ensures Exact(p + (Stars(texts) + last)) <==>
            Borderless(last) && |texts| <= 1 && (|texts| == 1 ==> !Reaches(texts[0], last))
  {
    hide Greedy, Glob, Literal, Stars, Borderless, Reaches;
    var u := Stars(texts) + last;
    assert u != "" && u == ['*'] + u[1..] by {
      StarsBegin(texts, last);
    }
    TextThenStarExact(p, u[1..]);
    assert p + ['*'] + u[1..] == p + u;
    if |texts| == 0 {
      NoTexts(last);
      assert u == ['*'] + last;
      StarTextExact(last);
    } else if |texts| == 1 {
      assert texts == [texts[0]] && texts[0] in texts;
      TwoTextsExact(texts[0], last);
    } else {
      var name := SecondTextMissed(texts, last);
      assert !(Greedy(name, u, false) <==> Glob(name, u));
    }
  }

  lemma StarsBegin(texts: seq<string>, t: string)
    ensures Stars(texts) + t != "" && Stars(texts) + t == ['*'] + (Stars(texts) + t)[1..]
  {
    assert Stars(texts)[0] == '*';
  }

  /** Two stars together are one. */
  lemma StarStar(name: string, t: string)
    ensures Greedy(name, "**" + t, false) <==> Greedy(name, ['*'] + t, false)
    ensures Glob(name, "**" + t) <==> Glob(name, ['*'] + t)
  {
    hide Glob;
    var u := ['*'] + t;
    assert "**" + t == ['*'] + u;
    StarFirst(name, u);
    StarFirst(name, t);
    assert LeadingText(u) == "" && u[0..] == u && u[1..] == t;
    if Glob(name, u) {
      assert name[0..] == name;
      StarTakes(name, 0, u);
    }
    if Glob(name, ['*'] + u) {
      var k := StarSkips(name, u);
      var j := StarSkips(name[k..], t);
      DropDrop(name, k, j);
      StarTakes(name, k + j, t);
    }
  }

  // ---------------------------------------------------------------- brace lists

  function JoinAlternatives(alts: seq<string>): string {
    if alts == [] then ""
    else if |alts| == 1 then alts[0]
    else alts[0] + [','] + JoinAlternatives(alts[1..])
  }

  ghost predicate PlainAlternatives(alts: seq<string>) {
    forall a :: a in alts ==> a != "" && ',' !in a
  }

  /** A list of alternatives is read back, in order and complete. */
  lemma {:induction false} AlternativesOfJoin(alts: seq<string>)
    requires PlainAlternatives(alts)
    ensures Alternatives(JoinAlternatives(alts)) == alts
  {
    hide Alternatives;
    if alts == [] {
      NoAlternatives("");
    } else {
      assert alts[0] in alts && forall a :: a in alts[1..] ==> a in alts;
      AlternativesOfJoin(alts[1..]);
      FirstAlternative(alts[0], JoinAlternatives(alts[1..]));
      assert alts == [alts[0]] + alts[1..];
    }
  }

  lemma FirstAlternative(a: string, rest: string)
    requires a != "" && ',' !in a
    ensures Alternatives(a + [','] + rest) == [a] + Alternatives(rest)
    ensures Alternatives(a) == [a] + Alternatives("")
  {
    BeforeUnique(a, rest, ',');
    assert (a + [','] + rest)[|a|] == ',';
    assert Before(a, ',') == a && After(a, ',') == "";
  }

  lemma NoAlternatives(rest: string)
    ensures Alternatives("") == [] && Alternatives([','] + rest) == []
  {
  }

  /** Whatever follows an empty alternative is not looked at. */
  lemma {:induction false} AlternativesStop(alts: seq<string>, rest: string)
    requires PlainAlternatives(alts) && alts != []
    ensures Alternatives(JoinAlternatives(alts) + ",," + rest) == alts
  {
    hide Alternatives;
    assert alts[0] in alts && forall a :: a in alts[1..] ==> a in alts;
    var first := alts[0];
    if |alts| == 1 {
      assert first + ",," + rest == first + [','] + ([','] + rest);
      FirstAlternative(first, [','] + rest);
      NoAlternatives(rest);
    } else {
      var others := JoinAlternatives(alts[1..]);
      assert first + [','] + others + ",," + rest == first + [','] + (others + ",," + rest);
      FirstAlternative(first, others + ",," + rest);
      AlternativesStop(alts[1..], rest);
    }
    assert alts == [alts[0]] + alts[1..];
  }

  // ---------------------------------------------------------------- the price of a decision

  /** How many rounds the matcher makes, through the whole recursion, until it has decided. */
  ghost function Cost(name: string, filter: string, star: bool): nat
    decreases |filter|, 0
  {
    if filter == "" then 0
    else
      var needed := LeadingText(filter);
      1 + match Advance(name, needed, star)
          case None => 0
          case Some(rest) =>
            if |needed| == |filter| then 0 else CostAtToken(rest, filter[|needed|], filter[|needed| + 1..])
  }

  ghost function CostAtToken(name: string, token: char, tail: string): nat
    decreases |tail|, 2
  {
    if token == '*' then Cost(name, tail, true)
    else if token == '?' then if name == "" then 0 else Cost(name[1..], tail, false)
    else if '}' in tail then CostOfList(name, Before(tail, '}'), After(tail, '}'))
    else if name == "" || name[0] != '{' then 0 else Cost(name[1..], tail, false)
  }

  /** Alternatives are tried until one matches. */
  ghost function CostOfList(name: string, list: string, tail: string): nat
    decreases |list| + |tail|, 1
  {
    var alt := Before(list, ',');
    if alt == "" then 0
    else Cost(name, alt + tail, false) + if Greedy(name, alt + tail, false) then 0 else CostOfList(name, After(list, ','), tail)
  }

  function Capped(n: nat): nat {
    if n < MATCHITERS_MAX then n else MATCHITERS_MAX
  }

  /** Without braces, each round takes at least one character off the filter. */
  lemma {:induction false} CostBound(name: string, filter: string, star: bool)
    requires '{' !in filter
    ensures Cost(name, filter, star) <= |filter|
    decreases |filter|
  {
    if filter != "" {
      var needed := LeadingText(filter);
      var moved := Advance(name, needed, star);
      if moved.Some? && |needed| < |filter| {
        var token, tail := filter[|needed|], filter[|needed| + 1..];
        assert token in filter;
        if token == '*' {
          CostBound(moved.value, tail, true);
        } else if moved.value != "" {
          CostBound(moved.value[1..], tail, false);
        }
      }
    }
  }

  // ---------------------------------------------------------------- the matcher

  lemma DropDrop(s: string, a: nat, b: nat)
    requires a + b <= |s|
    ensures s[a..][b..] == s[a + b..]
  {
  }

  /** The inner scan: from a first occurrence at `first`, keep advancing while the text is found again.
      str_locate_str reads the text it looks for up to its first NUL. */
  method LastOccurrence(name: string, needed: string, first: nat) returns (index: nat)
    requires needed != "" && NUL !in needed && Locate(name, needed) == Some(first)
    ensures index + |needed| <= |name|
    ensures ScanForward(name, needed) == name[index + |needed|..]
  {
    hide ScanForward, Locate;
    index := first;
    var scan := name[index + |needed|..];
    ghost var last := ScanForward(name, needed);
    ScanStep(name, needed);
    while true
      invariant index + |needed| <= |name| && scan == name[index + |needed|..]
      invariant last == ScanForward(scan, needed)
      decreases |scan|
    {
      ScanStep(scan, needed);
      var found := LocateText(scan, CText(needed));
      if found.None? {
        return;
      }
      DropDrop(name, index + |needed|, found.value + |needed|);
      index := index + found.value + |needed|;
      scan := scan[found.value + |needed|..];
    }
  }

  /** The text before a token, matched against the front or, after a `*`, anywhere. */
  method MatchText(name: string, needed: string, mustMatchHere: bool) returns (rest: Option<string>)
    requires NUL !in needed
    ensures rest == Advance(name, needed, !mustMatchHere)
  {
    if needed == "" {
      return Some(name);
    }
    var found := LocateText(name, CText(needed));
    LocateMeaning(name, needed);
    assert needed <= name <==> OccursAt(name, needed, 0);
    if found.None? {
      return None;
    }
    var index := found.value;
    if mustMatchHere && index > 0 {
      return None;
    }
    if !mustMatchHere {
      index := LastOccurrence(name, needed, index);
    }
    rest := Some(name[index + |needed|..]);
  }

  /** Where one round of the loop leaves the matcher. */
  datatype Round =
    | Mismatch
    | Onward(name: string, filter: string, token: char)
    | Braces(name: string, list: string, after: string)

  /** What `round` says the verdict is. */
  ghost predicate Decides(round: Round, verdict: bool) {
    match round
    case Mismatch => !verdict
    case Onward(name, filter, token) => verdict <==> Greedy(name, filter, token == '*')
    case Braces(name, list, after) => verdict <==> AnyMatches(name, Alternatives(list), after)
  }

  /** What `round` leaves to be paid. */
  ghost predicate Costs(round: Round, cost: int) {
    match round
    case Mismatch => cost == 0
    case Onward(name, filter, token) => cost == Cost(name, filter, token == '*')
    case Braces(name, list, after) => cost == CostOfList(name, list, after)
  }

  ghost predicate Shortens(round: Round, bound: nat) {
    match round
    case Mismatch => true
    case Onward(_, filter, token) =>
      |filter| < bound && NUL !in filter && token in {'*', '?', '{', NUL} && (token == NUL ==> filter == "")
    case Braces(_, list, after) => |list| + |after| < bound && NUL !in list && NUL !in after
  }

  lemma BraceSplit(tail: string)
    requires '}' in tail && NUL !in tail
    ensures Split(tail, "}") == (Before(tail, '}'), After(tail, '}'))
    ensures |Before(tail, '}')| + |After(tail, '}')| < |tail| && NUL !in Before(tail, '}') && NUL !in After(tail, '}')
  {
    SplitChar(tail, '}');
  }

  method HandleToken(rest: string, token: char, tail: string) returns (round: Round)
    requires IsToken(token) && NUL !in tail
    ensures Decides(round, AtToken(rest, token, tail)) && Shortens(round, |tail| + 1)
    ensures Costs(round, CostAtToken(rest, token, tail))
  {
    if token == '?' {
      return if rest == "" then Mismatch else Onward(rest[1..], tail, token);
    } else if token == '{' {
      if '}' in tail {
        BraceSplit(tail);
        var (list, after) := Split(tail, "}");
        return Braces(rest, list, after);
      }
      return if rest == "" || rest[0] != '{' then Mismatch else Onward(rest[1..], tail, token);
    }
    return Onward(rest, tail, token);
  }

  /** One round of the loop, up to the trying of alternatives. */
  method TakeToken(name: string, filter: string, mustMatchHere: bool) returns (round: Round)
    requires filter != "" && NUL !in filter
    ensures Decides(round, Greedy(name, filter, !mustMatchHere)) && Shortens(round, |filter|)
    ensures Costs(round, Cost(name, filter, !mustMatchHere) - 1)
  {
    hide AtToken, CostAtToken, CostOfList, Advance, LeadingText, Literal, Alternatives;
    var needed := LeadingText(filter);
    var matched := MatchText(name, needed, mustMatchHere);
    if matched.None? {
      return Mismatch;
    }
    if |needed| == |filter| {
      return Onward(matched.value, "", NUL);
    }
    round := HandleToken(matched.value, filter[|needed|], filter[|needed| + 1..]);
  }

  /** vsf_filename_passes_filter. The counter runs through the whole recursion; a run that uses it up
      reports no match. Unless that happens the verdict is the greedy one, so a match is always a
      glob match, and on tame filters the two agree. */
  method PassesFilter(name: string, filter: string, itersIn: nat) returns (ret: bool, iters: nat)
    requires NUL !in filter && itersIn <= MATCHITERS_MAX
    ensures iters == Capped(itersIn + Cost(name, filter, false))
    ensures iters == MATCHITERS_MAX ==> !ret
    ensures iters < MATCHITERS_MAX ==> (ret <==> Greedy(name, filter, false))
    ensures '{' !in filter && itersIn + |filter| < MATCHITERS_MAX ==> (ret <==> Greedy(name, filter, false))
    ensures ret ==> Glob(name, filter)
    ensures iters < MATCHITERS_MAX && Tame(filter) ==> (ret <==> Glob(name, filter))
  {
    ret, iters := MatchTokens(name, filter, itersIn);
    if '{' !in filter {
      CostBound(name, filter, false);
    }
    if ret {
      Sound(name, filter, false);
    }
    if iters < MATCHITERS_MAX && Tame(filter) && Glob(name, filter) {
      Complete(name, filter);
    }
  }

  method MatchTokens(name: string, filter: string, itersIn: nat) returns (ret: bool, iters: nat)
    requires NUL !in filter && itersIn <= MATCHITERS_MAX
    ensures iters == Capped(itersIn + Cost(name, filter, false))
    ensures iters == MATCHITERS_MAX ==> !ret
    ensures iters < MATCHITERS_MAX ==> (ret <==> Greedy(name, filter, false))
    decreases |filter|, 0
  {
    hide Greedy, Cost, CostOfList, Alternatives;
    FinishedFree();
    iters := itersIn;
    var filterRemain, nameRemain := filter, name;
    var lastToken, mustMatchHere := NUL, true;
    ghost var verdict, total := Greedy(name, filter, false), itersIn + Cost(name, filter, false);
    while filterRemain != "" && iters < MATCHITERS_MAX
      invariant |filterRemain| <= |filter| && NUL !in filterRemain
      invariant itersIn <= iters <= MATCHITERS_MAX
      invariant filterRemain != "" ==> (mustMatchHere <==> lastToken != '*')
      invariant verdict <==> Greedy(nameRemain, filterRemain, lastToken == '*')
      invariant iters + Cost(nameRemain, filterRemain, lastToken == '*') == total
      decreases |filterRemain|
    {
      iters := iters + 1;
      var round := TakeToken(nameRemain, filterRemain, mustMatchHere);
      match round
      case Mismatch =>
        return false, iters;
      case Braces(rest, list, after) =>
        ret, iters := TryAlternatives(rest, list, after, iters);
        return;
      case Onward(rest, tail, token) =>
        nameRemain, filterRemain, lastToken := rest, tail, token;
        mustMatchHere := token == '?' || token == '{';
    }
    if |nameRemain| > 0 && lastToken != '*' {
      return false, iters;
    }
    ret := iters != MATCHITERS_MAX;
  }

  /** An empty filter is decided at once. */
  lemma FinishedFree()
    ensures forall name, star :: Cost(name, "", star) == 0 && (Greedy(name, "", star) <==> name == "" || star)
  {
  }

  ghost predicate AnyMatches(name: string, alts: seq<string>, tail: string) {
    exists alt :: alt in alts && Greedy(name, alt + tail, false)
  }

  lemma AlternativesSplit(name: string, list: string, tail: string)
    ensures var (alt, others) := Split(list, ",");
            && |alt| + |others| <= |list|
            && (NUL !in list ==> NUL !in alt && NUL !in others)
            && (AnyMatches(name, Alternatives(list), tail) <==>
                alt != "" && (Greedy(name, alt + tail, false) || AnyMatches(name, Alternatives(others), tail)))
            && CostOfList(name, list, tail) ==
               (if alt == "" then 0
                else Cost(name, alt + tail, false) + if Greedy(name, alt + tail, false) then 0 else CostOfList(name, others, tail))
  {
    hide Greedy, Cost;
    SplitChar(list, ',');
    var (alt, others) := Split(list, ",");
    assert Alternatives(list) == if alt == "" then [] else [alt] + Alternatives(others);
  }

  /** The alternatives of a brace list, tried from left to right until one matches. */
  method TryAlternatives(name: string, list: string, tail: string, itersIn: nat) returns (ret: bool, iters: nat)
    requires NUL !in list && NUL !in tail && itersIn <= MATCHITERS_MAX
    ensures iters == Capped(itersIn + CostOfList(name, list, tail))
    ensures iters == MATCHITERS_MAX ==> !ret
    ensures iters < MATCHITERS_MAX ==> (ret <==> AnyMatches(name, Alternatives(list), tail))
    decreases |list| + |tail|, 1
  {
    hide Greedy, Cost, CostOfList, Alternatives, AnyMatches, Split;
    iters := itersIn;
    AlternativesSplit(name, list, tail);
    var (alt, others) := Split(list, ",");
    ghost var verdict, todo := AnyMatches(name, Alternatives(list), tail), list;
    ghost var price := Capped(itersIn + CostOfList(name, list, tail));
    while alt != ""
      invariant |todo| <= |list| && NUL !in todo && (alt, others) == Split(todo, ",")
      invariant itersIn <= iters <= MATCHITERS_MAX
      invariant iters < MATCHITERS_MAX ==> (verdict <==> AnyMatches(name, Alternatives(todo), tail))
      invariant Capped(iters + CostOfList(name, todo, tail)) == price
      decreases |todo|
    {
      AlternativesSplit(name, todo, tail);
      ret, iters := MatchTokens(name, alt + tail, iters);
      if ret {
        return;
      }
      todo := others;
      var split := Split(others, ",");
      alt, others := split.0, split.1;
    }
    AlternativesSplit(name, todo, tail);
    ret := false;
  }
}
