/** ipaddrparse.c: the textual forms of IPv6 addresses (section 2.2 of RFC 4291). */
module Ipv6 {
  import opened Basics
  import opened Text

  // ---------------------------------------------------------------- hexadecimal groups

  function HexDigit(c: char): (d: int)
    ensures -1 <= d < 16
  {
    if '0' <= c <= '9' then c as int - '0' as int
    else if 'A' <= c <= 'F' then c as int - 'A' as int + 10
    else if 'a' <= c <= 'f' then c as int - 'a' as int + 10
    else -1
  }

  /** The sixteen digits in both cases, and nothing else. */
  lemma HexDigitExact(c: char, d: nat)
    requires d < 16
    ensures HexDigit(c) == d <==> c == "0123456789abcdef"[d] || c == "0123456789ABCDEF"[d]
  {
    var lower, upper := "0123456789abcdef", "0123456789ABCDEF";
    assert forall k :: 0 <= k < 16 ==> HexDigit(lower[k]) == k;
    assert forall k :: 0 <= k < 16 ==> HexDigit(upper[k]) == k;
  }

  predicate AllHex(s: string) {
    forall i :: 0 <= i < |s| ==> HexDigit(s[i]) >= 0
  }

  /** The number a hexadecimal text denotes. */
  function HexValue(s: string): (v: nat)
    requires AllHex(s)
  {
    if s == "" then 0 else 16 * HexValue(s[..|s| - 1]) + HexDigit(s[|s| - 1])
  }

  lemma {:induction false} HexMonotone(s: string, k: nat)
    requires AllHex(s) && k <= |s|
    ensures HexValue(s[..k]) <= HexValue(s)
  {
    if k == |s| {
      assert s[..k] == s;
    } else {
      assert s[..|s| - 1][..k] == s[..k];
      HexMonotone(s[..|s| - 1], k);
    }
  }

  function HexGroup(s: string): Option<seq<Byte>> {
    if AllHex(s) && HexValue(s) <= 0xFFFF then Some([HexValue(s) / 256, HexValue(s) % 256]) else None
  }

  function Lowered(s: string): (t: string)
    ensures |t| == |s|
  {
    seq(|s|, i requires 0 <= i < |s| => if 'A' <= s[i] <= 'Z' then s[i] - 'A' + 'a' else s[i])
  }

  lemma {:induction false} LoweredValue(s: string)
    ensures AllHex(Lowered(s)) == AllHex(s)
    ensures AllHex(s) ==> HexValue(Lowered(s)) == HexValue(s)
  {
    var t := Lowered(s);
    assert forall i :: 0 <= i < |s| ==> HexDigit(t[i]) == HexDigit(s[i]);
    if s != "" {
      LoweredValue(s[..|s| - 1]);
      assert t[..|t| - 1] == Lowered(s[..|s| - 1]);
    }
  }

  /** Letter case makes no difference to a group, valid or not. */
  lemma GroupCase(s: string)
    ensures HexGroup(Lowered(s)) == HexGroup(s)
  {
    LoweredValue(s);
  }

  /** ipv6_parse_hex. The accumulator stays far below 32 bits. */
  method ParseHex(s: string) returns (r: Option<seq<Byte>>)
    ensures r == HexGroup(s)
  {
    var val := 0;
    for i := 0 to |s|
      invariant AllHex(s[..i]) && val == HexValue(s[..i]) && 0 <= val <= 0xFFFF
    {
      var d := HexDigit(s[i]);
      ghost var t := s[..i + 1];
      assert t[..i] == s[..i] && t[i] == s[i];
      if d < 0 {
        assert !AllHex(s);
        return None;
      }
      val := 16 * val + d;
      assert val < 0x1_0000_0000;
      if val > 0xFFFF {
        if AllHex(s) {
          HexMonotone(s, i + 1);
        }
        return None;
      }
    }
    assert s[..|s|] == s;
    r := Some([val / 256, val % 256]);
  }

  // ---------------------------------------------------------------- dotted quads

  lemma {:induction false} DecMonotone(s: string, k: nat)
    requires AllDigits(s) && k <= |s|
    ensures DecValue(s[..k]) <= DecValue(s)
  {
    if k == |s| {
      assert s[..k] == s;
    } else {
      assert s[..|s| - 1][..k] == s[..k];
      DecMonotone(s[..|s| - 1], k);
    }
  }

  predicate Field(s: string) {
    s != "" && AllDigits(s) && DecValue(s) <= 255
  }

  /** `n` decimal fields with dots between them. */
  function Fields(s: string, n: nat): (r: Option<seq<Byte>>)
    ensures r.Some? ==> |r.value| == n
  {
    if n == 0 then None
    else if n == 1 then if Field(s) then Some([DecValue(s)]) else None
    else if '.' in s && Field(Before(s, '.')) then
      match Fields(After(s, '.'), n - 1)
      case None => None
      case Some(rest) => Some([DecValue(Before(s, '.'))] + rest)
    else None
  }

  function BigEndian(bytes: seq<Byte>): (v: nat)
  {
    if bytes == [] then 0 else 256 * BigEndian(bytes[..|bytes| - 1]) + bytes[|bytes| - 1]
  }

  function Prepend(acc: seq<Byte>, r: Option<seq<Byte>>): Option<seq<Byte>> {
    match r
    case None => None
    case Some(rest) => Some(acc + rest)
  }

  lemma FieldsDot(cur: string, rest: string, n: nat)
    requires AllDigits(cur) && n > 0
    ensures Fields(cur + ['.'] + rest, n) ==
            if n > 1 && Field(cur) then Prepend([DecValue(cur)], Fields(rest, n - 1)) else None
  {
    var s := cur + ['.'] + rest;
    assert s[|cur|] == '.';
    BeforeUnique(cur, rest, '.');
  }

  lemma BadField(bad: string, field: string)
    requires bad <= field && !(AllDigits(bad) && DecValue(bad) <= 255)
    ensures !Field(field)
  {
    if AllDigits(field) {
      assert bad == field[..|bad|];
      DecMonotone(field, |bad|);
    }
  }

  /** Once a field has a wrong character or is too large, nothing that follows can mend it. */
  lemma FieldsBad(bad: string, rest: string, n: nat)
    requires '.' !in bad && !(AllDigits(bad) && DecValue(bad) <= 255) && n > 0
    ensures Fields(bad + rest, n) == None
  {
    var s := bad + rest;
    BadField(bad, s);
    if '.' in s {
      assert '.' in rest;
      var b, a := Before(rest, '.'), After(rest, '.');
      assert s == (bad + b) + ['.'] + a;
      BeforeUnique(bad + b, a, '.');
      BadField(bad, bad + b);
    }
  }

  lemma DecAppend(cur: string, c: char)
    requires AllDigits(cur) && '0' <= c <= '9'
    ensures AllDigits(cur + [c]) && DecValue(cur + [c]) == 10 * DecValue(cur) + (c as int - '0' as int)
  {
    assert (cur + [c])[..|cur|] == cur;
  }

  lemma BigEndianAppend(bytes: seq<Byte>, b: Byte)
    ensures BigEndian(bytes + [b]) == 256 * BigEndian(bytes) + b
  {
    assert (bytes + [b])[..|bytes|] == bytes;
  }

  lemma PrependTwice(acc: seq<Byte>, b: Byte, r: Option<seq<Byte>>)
    ensures Prepend(acc, Prepend([b], r)) == Prepend(acc + [b], r)
  {
    if r.Some? {
      assert acc + ([b] + r.value) == acc + [b] + r.value;
    }
  }

  lemma LastField(cur: string, n: nat)
    requires AllDigits(cur) && n > 0
    ensures Fields(cur, n) == if n == 1 && Field(cur) then Some([DecValue(cur)]) else None
  {
    assert '.' !in cur;
  }

  /** Taking a 32-bit number apart again. */
  function Octets(v: nat): seq<Byte>
    requires v < 0x1_0000_0000
  {
    [v / 0x100_0000, v / 0x1_0000 % 256, v / 256 % 256, v % 256]
  }

  lemma BigEndianOfFour(q: seq<Byte>)
    requires |q| == 4
    ensures BigEndian(q) == 256 * (256 * (256 * (q[0] as int) + q[1]) + q[2]) + q[3]
  {
    var a, b, c, d := q[0], q[1], q[2], q[3];
    assert q == [a, b, c] + [d] && [a, b, c] == [a, b] + [c] && [a, b] == [a] + [b] && [a] == [] + [a];
    BigEndianAppend([], a);
    BigEndianAppend([a], b);
    BigEndianAppend([a, b], c);
    BigEndianAppend([a, b, c], d);
  }

  lemma OctetsOfBigEndian(q: seq<Byte>)
    requires |q| == 4
    ensures BigEndian(q) < 0x1_0000_0000 && Octets(BigEndian(q)) == q
  {
    hide BigEndian;
    BigEndianOfFour(q);
    var v := BigEndian(q);
    assert v % 256 == q[3] && v / 256 == 256 * (256 * (q[0] as int) + q[1]) + q[2];
    assert v / 0x1_0000 == v / 256 / 256 == 256 * (q[0] as int) + q[1];
    assert v / 0x100_0000 == v / 0x1_0000 / 256 == q[0] as int;
  }

  /** The fields of `s` are those in `acc` and those still to come, the next of which begins with `cur`. */
  ghost predicate Due(s: string, acc: seq<Byte>, cur: string, rest: string) {
    |acc| <= 3 && Fields(s, 4) == Prepend(acc, Fields(cur + rest, 4 - |acc|))
  }

  lemma DueStart(s: string)
    ensures Due(s, [], "", s)
  {
    hide Fields;
    assert "" + s == s;
    if Fields(s, 4).Some? {
      assert [] + Fields(s, 4).value == Fields(s, 4).value;
    }
  }

  lemma DueDot(s: string, acc: seq<Byte>, cur: string, rest: string)
    requires Due(s, acc, cur, ['.'] + rest) && AllDigits(cur) && DecValue(cur) <= 255
    ensures cur == "" || |acc| == 3 ==> Fields(s, 4).None?
    ensures cur != "" && |acc| < 3 ==> Due(s, acc + [DecValue(cur)], "", rest)
  {
    hide Fields, DecValue;
    assert cur + (['.'] + rest) == cur + ['.'] + rest;
    FieldsDot(cur, rest, 4 - |acc|);
    if cur != "" && |acc| < 3 {
      PrependTwice(acc, DecValue(cur), Fields(rest, 3 - |acc|));
      assert "" + rest == rest;
    }
  }

  lemma DueChar(s: string, acc: seq<Byte>, cur: string, c: char, rest: string)
    requires Due(s, acc, cur, [c] + rest)
    ensures Due(s, acc, cur + [c], rest)
  {
    hide Fields;
    assert cur + ([c] + rest) == (cur + [c]) + rest;
  }

  lemma DueBad(s: string, acc: seq<Byte>, bad: string, rest: string)
    requires Due(s, acc, bad, rest) && '.' !in bad && !(AllDigits(bad) && DecValue(bad) <= 255)
    ensures Fields(s, 4).None?
  {
    hide Fields;
    FieldsBad(bad, rest, 4 - |acc|);
  }

  lemma DueEnd(s: string, acc: seq<Byte>, cur: string)
    requires Due(s, acc, cur, "") && AllDigits(cur) && DecValue(cur) <= 255
    ensures Fields(s, 4) == if |acc| == 3 && cur != "" then Some(acc + [DecValue(cur)]) else None
  {
    hide Fields, DecValue;
    assert cur + "" == cur;
    LastField(cur, 4 - |acc|);
  }

  /** ipv4_parse_dotquad; `finalVal` collects at most four bytes. */
  method ParseDotQuad(s: string) returns (r: Option<seq<Byte>>)
    ensures r == Fields(s, 4)
  {
    hide Fields, DecValue, BigEndian, Due, Prepend;
    var val, finalVal, seen, dots := 0, 0, false, 0;
    ghost var acc: seq<Byte>, cur := [], "";
    EmptyValues();
    DueStart(s);
    assert s[0..] == s;
    for i := 0 to |s|
      invariant |acc| == dots <= 3 && finalVal == BigEndian(acc)
      invariant AllDigits(cur) && val == DecValue(cur) <= 255 && (seen <==> cur != "")
      invariant Due(s, acc, cur, s[i..])
    {
      var c := s[i];
      assert s[i..] == [c] + s[i + 1..];
      if c == '.' {
        DueDot(s, acc, cur, s[i + 1..]);
        if !seen || dots == 3 {
          return None;
        }
        BigEndianAppend(acc, val);
        EmptyValues();
        acc, cur := acc + [val], "";
        finalVal := 256 * finalVal + val;
        val, seen, dots := 0, false, dots + 1;
      } else {
        DueChar(s, acc, cur, c, s[i + 1..]);
        if '0' <= c <= '9' {
          DecAppend(cur, c);
          val := 10 * val + (c as int - '0' as int);
          if val > 255 {
            DueBad(s, acc, cur + [c], s[i + 1..]);
            return None;
          }
          seen := true;
          cur := cur + [c];
        } else {
          assert (cur + [c])[|cur|] == c;
          DueBad(s, acc, cur + [c], s[i + 1..]);
          return None;
        }
      }
    }
    DueEnd(s, acc, cur);
    if dots != 3 || !seen {
      return None;
    }
    BigEndianAppend(acc, val);
    OctetsOfBigEndian(acc + [val]);
    finalVal := 256 * finalVal + val;
    r := Some(Octets(finalVal));
  }

  lemma EmptyValues()
    ensures BigEndian([]) == 0 && DecValue("") == 0
  {
  }

  // ---------------------------------------------------------------- groups between colons

  function Group(s: string): (r: Option<seq<Byte>>)
    ensures r.Some? ==> |r.value| == 2 || |r.value| == 4
  {
    if '.' in s then Fields(s, 4) else HexGroup(s)
  }

  /** Groups separated by single colons; one trailing colon is let pass, an empty group is not. */
  function Groups(s: string): Option<seq<Byte>>
    decreases |s|
  {
    if s == "" then Some([])
    else if Before(s, ':') == "" then None
    else
      match Group(Before(s, ':'))
      case None => None
      case Some(bytes) => Prepend(bytes, Groups(After(s, ':')))
  }

  lemma PrependAll(acc: seq<Byte>, bytes: seq<Byte>, r: Option<seq<Byte>>)
    ensures Prepend(acc, Prepend(bytes, r)) == Prepend(acc + bytes, r)
  {
    if r.Some? {
      assert acc + (bytes + r.value) == acc + bytes + r.value;
    }
  }

  /** ipv6_parse_main. */
  method ParseGroups(s: string) returns (r: Option<seq<Byte>>)
    ensures r == Groups(s)
  {
    hide Group;
    var out: seq<Byte>, lhs := [], s;
    ghost var total := Groups(s);
    assert Groups(s).Some? ==> [] + Groups(s).value == Groups(s).value;
    while lhs != ""
      invariant total == Prepend(out, Groups(lhs))
      decreases |lhs|
    {
      SplitChar(lhs, ':');
      var (field, rhs) := Split(lhs, ":");
      if field == "" {
        return None;
      }
      var bytes := ParseGroup(field);
      if bytes.None? {
        return None;
      }
      PrependAll(out, bytes.value, Groups(rhs));
      out, lhs := out + bytes.value, rhs;
    }
    assert out + [] == out;
    r := Some(out);
  }

  method ParseGroup(field: string) returns (r: Option<seq<Byte>>)
    ensures r == Group(field)
  {
    if '.' in field {
      r := ParseDotQuad(field);
    } else {
      r := ParseHex(field);
    }
  }

  // ---------------------------------------------------------------- whole addresses

  function Zeros(n: nat): (z: seq<Byte>)
    ensures |z| == n
  {
    seq(n, _ => 0)
  }

  function Address(s: string): Option<seq<Byte>> {
    var (lhs, rhs) := Split(s, "::");
    match (Groups(lhs), Groups(rhs))
    case (Some(l), Some(r)) =>
      if |l| + |r| > 16 then None
      else if |r| > 0 then Some(l + Zeros(16 - |l| - |r|) + r)
      else Some(l)
    case _ => None
  }

  /** vsf_sysutil_parse_ipv6. */
  method ParseIpv6(s: string) returns (r: Option<seq<Byte>>)
    ensures r == Address(s)
  {
    hide Groups;
    var (lhs, rhs) := Split(s, "::");
    var left := ParseGroups(lhs);
    if left.None? {
      return None;
    }
    var right := ParseGroups(rhs);
    if right.None? {
      return None;
    }
    if |left.value| + |right.value| > 16 {
      return None;
    }
    var ret := left.value;
    if |right.value| > 0 {
      var addNulls := 16 - (|left.value| + |right.value|);
      var i := 0;
      while i < addNulls
        invariant 0 <= i <= addNulls && ret == left.value + Zeros(i)
      {
        assert Zeros(i + 1) == Zeros(i) + [0];
        ret := ret + [0];
        i := i + 1;
      }
      ret := ret + right.value;
    }
    r := Some(ret);
  }

  /** How many groups a text holds, a dotted quad counting as two. */
  function GroupCount(s: string): nat
    decreases |s|
  {
    if s == "" then 0 else (if '.' in Before(s, ':') then 2 else 1) + GroupCount(After(s, ':'))
  }

  lemma {:induction false} GroupsLength(s: string)
    requires Groups(s).Some?
    ensures |Groups(s).value| == 2 * GroupCount(s)
    decreases |s|
  {
    if s != "" {
      GroupsLength(After(s, ':'));
    }
  }

  /** The code promises 16 bytes but does not always deliver them: it does so exactly when there is
      something behind the `::`, or there are eight groups before it. */
  lemma SixteenBytes(s: string)
    requires Address(s).Some?
    ensures |Address(s).value| <= 16
    ensures |Address(s).value| == 16 <==> Split(s, "::").1 != "" || GroupCount(Split(s, "::").0) == 8
  {
    hide Groups, GroupCount;
    NonEmptyGroups(Split(s, "::").1);
    GroupsLength(Split(s, "::").0);
  }

  lemma NonEmptyGroups(s: string)
    requires Groups(s).Some?
    ensures Groups(s).value == [] <==> s == ""
  {
  }

  // ---------------------------------------------------------------- parsing undoes printing

  /** `text` spells one group: hexadecimal in either case, with or without leading zeros, or a dotted quad. */
  predicate Spells(text: string, bytes: seq<Byte>) {
    text != "" && ':' !in text && Group(text) == Some(bytes)
  }

  function Joined(texts: seq<string>, sep: char): string {
    if texts == [] then ""
    else if |texts| == 1 then texts[0]
    else texts[0] + [sep] + Joined(texts[1..], sep)
  }

  function JoinGroups(texts: seq<string>): string {
    Joined(texts, ':')
  }

  function Flatten(bytes: seq<seq<Byte>>): seq<Byte> {
    if bytes == [] then [] else bytes[0] + Flatten(bytes[1..])
  }

  ghost predicate SpellAll(texts: seq<string>, bytes: seq<seq<Byte>>) {
    |texts| == |bytes| && forall i :: 0 <= i < |texts| ==> Spells(texts[i], bytes[i])
  }

  lemma {:induction false} GroupsOfJoin(texts: seq<string>, bytes: seq<seq<Byte>>)
    requires SpellAll(texts, bytes)
    ensures Groups(JoinGroups(texts)) == Some(Flatten(bytes))
  {
    hide Group;
    if texts != [] {
      var t, rest := texts[0], JoinGroups(texts[1..]);
      assert Spells(t, bytes[0]);
      GroupsOfJoin(texts[1..], bytes[1..]);
      if |texts| == 1 {
        assert Before(t, ':') == t && After(t, ':') == "";
        assert Flatten(bytes[1..]) == [] && bytes[0] + [] == bytes[0];
      } else {
        BeforeUnique(t, rest, ':');
        assert (t + [':'] + rest)[|t|] == ':';
      }
    }
  }

  lemma {:induction false} GroupsOfTrailing(texts: seq<string>, bytes: seq<seq<Byte>>)
    requires SpellAll(texts, bytes) && texts != []
    ensures Groups(JoinGroups(texts) + [':']) == Some(Flatten(bytes))
  {
    hide Group;
    var t := texts[0];
    assert Spells(t, bytes[0]);
    if |texts| == 1 {
      assert t + [':'] == t + [':'] + "";
      BeforeUnique(t, "", ':');
      assert (t + [':'])[|t|] == ':';
      assert Flatten(bytes[1..]) == [];
      assert Groups("") == Some([]);
    } else {
      var rest := JoinGroups(texts[1..]) + [':'];
      GroupsOfTrailing(texts[1..], bytes[1..]);
      assert JoinGroups(texts) + [':'] == t + [':'] + rest;
      BeforeUnique(t, rest, ':');
      assert (t + [':'] + rest)[|t|] == ':';
    }
  }

  /** What is accepted is groups with single colons between them. */
  lemma {:induction false} GroupsSpelled(s: string) returns (texts: seq<string>, bytes: seq<seq<Byte>>)
    requires Groups(s).Some?
    ensures SpellAll(texts, bytes) && Groups(s).value == Flatten(bytes) && (s == "" ==> texts == [])
    ensures s == JoinGroups(texts) || (texts != [] && s == JoinGroups(texts) + [':'])
    decreases |s|
  {
    hide Group;
    if s == "" {
      return [], [];
    }
    var t, rest := Before(s, ':'), After(s, ':');
    texts, bytes := GroupsSpelled(rest);
    assert Spells(t, Group(t).value);
    SpellMore(t, texts, Group(t).value, bytes);
    if ':' in s {
      assert s == t + [':'] + rest;
      assert texts != [] ==> t + [':'] + (JoinGroups(texts) + [':']) == t + [':'] + JoinGroups(texts) + [':'];
    }
    texts, bytes := [t] + texts, [Group(t).value] + bytes;
  }

  lemma SpellMore(t: string, texts: seq<string>, b: seq<Byte>, bytes: seq<seq<Byte>>)
    requires Spells(t, b) && SpellAll(texts, bytes)
    ensures SpellAll([t] + texts, [b] + bytes)
    ensures Flatten([b] + bytes) == b + Flatten(bytes)
    ensures JoinGroups([t] + texts) == if texts == [] then t else t + [':'] + JoinGroups(texts)
  {
    assert ([t] + texts)[1..] == texts && ([b] + bytes)[1..] == bytes;
  }

  /** A text is taken for these bytes exactly if it spells them in groups, with a colon to spare at most
      at the very end. */
  lemma GroupsMeaning(s: string, b: seq<Byte>)
    ensures Groups(s) == Some(b) <==>
            exists texts, bytes :: SpellAll(texts, bytes) && b == Flatten(bytes) &&
                                   (s == JoinGroups(texts) || (texts != [] && s == JoinGroups(texts) + [':']))
  {
    hide Groups, JoinGroups;
    if Groups(s) == Some(b) {
      var texts, bytes := GroupsSpelled(s);
    }
    forall texts, bytes | SpellAll(texts, bytes) ensures Groups(JoinGroups(texts)) == Some(Flatten(bytes)) {
      GroupsOfJoin(texts, bytes);
    }
    forall texts, bytes | SpellAll(texts, bytes) && texts != [] ensures Groups(JoinGroups(texts) + [':']) == Some(Flatten(bytes)) {
      GroupsOfTrailing(texts, bytes);
    }
  }

  ghost predicate FieldAll(texts: seq<string>, q: seq<Byte>) {
    |texts| == |q| && forall i :: 0 <= i < |q| ==> Field(texts[i]) && DecValue(texts[i]) == q[i]
  }

  lemma {:induction false} FieldsOfJoin(texts: seq<string>, q: seq<Byte>)
    requires FieldAll(texts, q) && q != []
    ensures Fields(Joined(texts, '.'), |q|) == Some(q)
  {
    hide Fields, DecValue;
    var t := texts[0];
    assert Field(t) && DecValue(t) == q[0];
    if |q| == 1 {
      LastField(t, 1);
      assert [q[0]] == q;
    } else {
      FieldsOfJoin(texts[1..], q[1..]);
      FieldsDot(t, Joined(texts[1..], '.'), |q|);
      assert [q[0]] + q[1..] == q;
    }
  }

  lemma {:induction false} FieldsSpelled(s: string, n: nat) returns (texts: seq<string>)
    requires Fields(s, n).Some?
    ensures FieldAll(texts, Fields(s, n).value) && |texts| == n && s == Joined(texts, '.')
  {
    hide Field, DecValue, FieldAll, Joined;
    if n == 1 {
      texts := [s];
      NoFields();
      FieldMore(s, [], []);
      assert [s] + [] == [s] && Fields(s, n).value + [] == Fields(s, n).value;
    } else {
      var t, rest := Before(s, '.'), After(s, '.');
      texts := FieldsSpelled(rest, n - 1);
      FieldMore(t, texts, Fields(rest, n - 1).value);
      assert s == t + ['.'] + rest;
      texts := [t] + texts;
    }
  }

  lemma NoFields()
    ensures FieldAll([], [])
  {
  }

  lemma FieldMore(t: string, texts: seq<string>, q: seq<Byte>)
    requires Field(t) && FieldAll(texts, q)
    ensures FieldAll([t] + texts, [DecValue(t)] + q)
    ensures Joined([t] + texts, '.') == if texts == [] then t else t + ['.'] + Joined(texts, '.')
  {
    hide Field, DecValue;
    assert ([t] + texts)[1..] == texts;
  }

  /** A dotted quad is four decimal fields with dots between them, and nothing else is. */
  lemma FieldsMeaning(s: string, q: seq<Byte>)
    requires q != []
    ensures Fields(s, |q|) == Some(q) <==> exists texts :: FieldAll(texts, q) && s == Joined(texts, '.')
  {
    hide Fields;
    if Fields(s, |q|) == Some(q) {
      var texts := FieldsSpelled(s, |q|);
    }
    forall texts | FieldAll(texts, q) ensures Fields(Joined(texts, '.'), |q|) == Some(q) {
      FieldsOfJoin(texts, q);
    }
  }

  /** No two colons stand together in joined groups, and none stands at either end. */
  predicate ColonsApart(s: string) {
    && (s != "" ==> s[0] != ':' && s[|s| - 1] != ':')
    && forall i :: 0 <= i < |s| - 1 ==> !(s[i] == ':' && s[i + 1] == ':')
  }

  lemma {:induction false} JoinColonsApart(texts: seq<string>)
    requires forall t :: t in texts ==> t != "" && ':' !in t
    ensures ColonsApart(JoinGroups(texts)) && (texts != [] ==> JoinGroups(texts) != "")
  {
    if texts != [] {
      assert texts[0] in texts;
      assert forall t :: t in texts[1..] ==> t in texts;
      JoinColonsApart(texts[1..]);
    }
  }

  lemma SplitDoubleColon(left: string, right: string)
    requires ColonsApart(left)
    ensures Split(left + "::" + right, "::") == (left, right)
  {
    var s := left + "::" + right;
    assert OccursAt(s, "::", |left|);
    forall j | 0 <= j < |left| ensures !OccursAt(s, "::", j) {
      assert s[j..j + 2] == [s[j], s[j + 1]];
    }
    LocateIs(s, "::", |left|);
  }

  lemma NoDoubleColon(s: string)
    requires ColonsApart(s)
    ensures Split(s, "::") == (s, "")
  {
    forall j ensures !OccursAt(s, "::", j) {
      if 0 <= j < |s| - 1 {
        assert s[j..j + 2] == [s[j], s[j + 1]];
      }
    }
    LocateMeaning(s, "::");
  }

  lemma SpelledTexts(texts: seq<string>, bytes: seq<seq<Byte>>)
    requires SpellAll(texts, bytes)
    ensures ColonsApart(JoinGroups(texts)) && (texts != [] ==> JoinGroups(texts) != "")
  {
    forall t | t in texts ensures t != "" && ':' !in t {
      var i :| 0 <= i < |texts| && texts[i] == t;
      assert Spells(texts[i], bytes[i]);
    }
    JoinColonsApart(texts);
  }

  /** Groups that fill the address parse to their bytes. */
  lemma FullAddress(texts: seq<string>, bytes: seq<seq<Byte>>)
    requires SpellAll(texts, bytes) && |Flatten(bytes)| <= 16
    ensures Address(JoinGroups(texts)) == Some(Flatten(bytes))
  {
    hide Group;
    SpelledTexts(texts, bytes);
    GroupsOfJoin(texts, bytes);
    NoDoubleColon(JoinGroups(texts));
  }

  /** Groups, `::`, groups: the gap is filled with zeros to 16 bytes. */
  lemma CompressedAddress(left: seq<string>, l: seq<seq<Byte>>, right: seq<string>, r: seq<seq<Byte>>)
    requires SpellAll(left, l) && SpellAll(right, r) && right != []
    requires |Flatten(l)| + |Flatten(r)| <= 16
    ensures Address(JoinGroups(left) + "::" + JoinGroups(right)) ==
            Some(Flatten(l) + Zeros(16 - |Flatten(l)| - |Flatten(r)|) + Flatten(r))
  {
    hide Group, Groups, JoinGroups, Flatten, ColonsApart, Split, SpellAll;
    SpelledTexts(left, l);
    SpelledTexts(right, r);
    GroupsOfJoin(left, l);
    GroupsOfJoin(right, r);
    SplitDoubleColon(JoinGroups(left), JoinGroups(right));
    NonEmptyGroups(JoinGroups(right));
  }

  /** How addresses are printed: each group in lower-case hexadecimal without leading zeros. */
  function PrintHex(v: nat): (s: string)
    ensures s != "" && AllHex(s)
  {
    var d := v % 16;
    var digit := [if d < 10 then '0' + d as char else 'a' + (d - 10) as char];
    if v < 16 then digit else PrintHex(v / 16) + digit
  }

  lemma {:induction false} PrintHexValue(v: nat)
    ensures HexValue(PrintHex(v)) == v && ':' !in PrintHex(v) && '.' !in PrintHex(v)
  {
    var s := PrintHex(v);
    if v < 16 {
      assert s[..|s| - 1] == "";
    } else {
      PrintHexValue(v / 16);
      assert s[..|s| - 1] == PrintHex(v / 16);
    }
  }

  lemma PrintedGroup(v: nat)
    requires v <= 0xFFFF
    ensures Spells(PrintHex(v), [v / 256, v % 256])
  {
    PrintHexValue(v);
  }

  /** Decimal fields with dots between them. */
  function PrintFields(bytes: seq<Byte>): string
    requires bytes != []
  {
    if |bytes| == 1 then Decimal(bytes[0]) else Decimal(bytes[0]) + ['.'] + PrintFields(bytes[1..])
  }

  lemma NoColon(s: string, rest: string)
    requires AllDigits(s) && ':' !in rest
    ensures ':' !in s && ':' !in s + ['.'] + rest && '.' in s + ['.'] + rest
  {
    assert (s + ['.'] + rest)[|s|] == '.';
  }

  lemma {:induction false} PrintedShape(bytes: seq<Byte>)
    requires bytes != []
    ensures PrintFields(bytes) != "" && ':' !in PrintFields(bytes) && (|bytes| > 1 ==> '.' in PrintFields(bytes))
  {
    hide Decimal;
    if |bytes| > 1 {
      PrintedShape(bytes[1..]);
      NoColon(Decimal(bytes[0]), PrintFields(bytes[1..]));
    }
  }

  lemma {:induction false} PrintedFields(bytes: seq<Byte>)
    requires bytes != []
    ensures Fields(PrintFields(bytes), |bytes|) == Some(bytes)
  {
    hide DecValue, Decimal, Fields;
    var s := Decimal(bytes[0]);
    DecimalValue(bytes[0]);
    if |bytes| == 1 {
      LastField(s, 1);
      assert [bytes[0]] == bytes;
    } else {
      PrintedFields(bytes[1..]);
      FieldsDot(s, PrintFields(bytes[1..]), |bytes|);
      assert [bytes[0]] + bytes[1..] == bytes;
    }
  }

  lemma PrintedQuad(q: seq<Byte>)
    requires |q| == 4
    ensures Spells(PrintFields(q), q)
  {
    hide PrintFields, Fields;
    PrintedShape(q);
    PrintedFields(q);
  }

  function PrintWords(words: seq<nat>): seq<string> {
    seq(|words|, i requires 0 <= i < |words| => PrintHex(words[i]))
  }

  function WordBytes(words: seq<nat>): seq<seq<Byte>>
    requires forall i :: 0 <= i < |words| ==> words[i] <= 0xFFFF
  {
    seq(|words|, i requires 0 <= i < |words| => [words[i] / 256, words[i] % 256])
  }

  lemma {:induction false} FlattenPairs(bytes: seq<seq<Byte>>)
    requires forall i :: 0 <= i < |bytes| ==> |bytes[i]| == 2
    ensures |Flatten(bytes)| == 2 * |bytes|
    ensures forall i :: 0 <= i < |bytes| ==> Flatten(bytes)[2 * i] == bytes[i][0] && Flatten(bytes)[2 * i + 1] == bytes[i][1]
  {
    if bytes != [] {
      FlattenPairs(bytes[1..]);
      var f, rest := Flatten(bytes), Flatten(bytes[1..]);
      forall i | 0 <= i < |bytes| ensures f[2 * i] == bytes[i][0] && f[2 * i + 1] == bytes[i][1] {
        if i > 0 {
          assert f[2 * i] == rest[2 * (i - 1)] && f[2 * i + 1] == rest[2 * (i - 1) + 1];
          assert bytes[1..][i - 1] == bytes[i];
        }
      }
    }
  }

  /** Eight printed groups parse back to the 16 bytes they were printed from. */
  lemma PrintedAddress(words: seq<nat>)
    requires |words| == 8 && forall i :: 0 <= i < |words| ==> words[i] <= 0xFFFF
    ensures Address(JoinGroups(PrintWords(words))) == Some(Flatten(WordBytes(words)))
    ensures |Flatten(WordBytes(words))| == 16
    ensures forall i :: 0 <= i < 8 ==> 256 * (Flatten(WordBytes(words))[2 * i] as int) + Flatten(WordBytes(words))[2 * i + 1] == words[i]
  {
    forall i | 0 <= i < 8 ensures Spells(PrintWords(words)[i], WordBytes(words)[i]) {
      PrintedGroup(words[i]);
    }
    hide Spells, PrintHex, Flatten, JoinGroups, Address;
    FlattenPairs(WordBytes(words));
    FullAddress(PrintWords(words), WordBytes(words));
  }

  /** The failing case in the flesh, with `::` and without: `1::` and `1` are accepted with only two bytes
      behind the returned pointer. */
  lemma ShortAddress()
    ensures Address("1::") == Some([0, 1])
    ensures Address("1") == Some([0, 1])
  {
    NoDoubleColon("1");
    assert "1::" == "1" + "::" + "";
    SplitDoubleColon("1", "");
    assert HexValue("1") == 1 by {
      assert "1"[..0] == "";
    }
    assert Before("1", ':') == "1" && After("1", ':') == "";
    assert Groups("1") == Prepend([0, 1], Groups(""));
    assert [0, 1] + [] == [0, 1];
  }
}
