/** str.c: the buffer behind a `mystr`, with its length and its capacity, and the operations that grow,
    cut and rewrite it in place. Lengths are 32-bit in the program; `buf_needed` wraps around beyond. */
module StrBuf {
  import opened Basics
  import opened Text
  import Reply

  const LIMIT := 0x1_0000_0000

  class MyStr {
    var buf: array?<char>
    var len: nat
    var allocBytes: nat

    constructor ()
      ensures Valid() && Contents() == "" && buf == null
    {
      buf, len, allocBytes := null, 0, 0;
    }

    predicate Valid()
      reads this
    {
      if buf == null then len == 0 && allocBytes == 0
      else allocBytes == buf.Length && len < allocBytes < LIMIT
    }

    function Contents(): (s: string)
      reads this, buf
      requires Valid()
      ensures |s| == len
    {
      if buf == null then "" else buf[..len]
    }

    /** A C function handed the buffer finds a NUL behind the contents. */
    predicate Terminated()
      reads this, buf
      requires Valid()
    {
      buf != null && buf[len] == NUL
    }

    /** The buffer is the old one or a new one, never one of somebody else. */
    twostate predicate OwnBuffer()
      reads this
    {
      buf == null || buf == old(buf) || fresh(buf)
    }

    /** malloc and realloc: a new block, with the old contents in front if there are any. */
    method Regrow(size: nat, keep: nat)
      requires Valid() && len < size < LIMIT && keep <= len
      modifies this
      ensures Valid() && buf != null && fresh(buf) && allocBytes == size && len == keep
      ensures Contents() == old(Contents())[..keep]
    {
      var bigger := new char[size];
      for i := 0 to keep
        invariant forall j :: 0 <= j < i ==> bigger[j] == old(buf[j])
        invariant unchanged(this)
      {
        bigger[i] := buf[i];
      }
      buf, allocBytes, len := bigger, size, keep;
    }

    /** memcpy and the closing NUL. */
    method Put(at: nat, src: string)
      requires Valid() && buf != null && at <= len && at + |src| < allocBytes
      modifies this`len, buf
      ensures Valid() && len == at + |src| && Terminated()
      ensures Contents() == old(Contents())[..at] + src
    {
      for i := 0 to |src|
        invariant forall j :: 0 <= j < at ==> buf[j] == old(buf[j])
        invariant forall j :: 0 <= j < i ==> buf[at + j] == src[j]
      {
        buf[at + i] := src[i];
      }
      buf[at + |src|] := NUL;
      len := at + |src|;
    }

    /** private_str_alloc_memchunk */
    method Alloc(src: string)
      requires Valid() && |src| + 1 < LIMIT
      modifies this, buf
      ensures Valid() && Terminated() && OwnBuffer()
      ensures Contents() == src
      ensures allocBytes == if |src| + 1 > old(allocBytes) then |src| + 1 else old(allocBytes)
    {
      var bufNeeded := |src| + 1;
      if bufNeeded > allocBytes {
        Free();
        Regrow(bufNeeded, 0);
      }
      Put(0, src);
    }

    /** private_str_append_memchunk: the capacity never shrinks. */
    method Append(src: string)
      requires Valid() && len + |src| + 1 < LIMIT
      modifies this, buf
      ensures Valid() && Terminated() && OwnBuffer()
      ensures Contents() == old(Contents()) + src
      ensures allocBytes == if old(len) + |src| + 1 > old(allocBytes) then old(len) + |src| + 1 else old(allocBytes)
    {
      var bufNeeded := len + |src| + 1;
      if bufNeeded > allocBytes {
        Regrow(bufNeeded, len);
      }
      Put(len, src);
    }

    /** str_free */
    method Free()
      requires Valid()
      modifies this
      ensures Valid() && buf == null && Contents() == ""
    {
      buf, len, allocBytes := null, 0, 0;
    }

    /** str_trunc: the new length may also be longer than the old one, up to the capacity. */
    method Trunc(truncLen: nat) returns (ok: bool)
      requires Valid()
      modifies this`len, buf
      ensures Valid() && ok == (truncLen < allocBytes)
      ensures ok ==> len == truncLen && Terminated()
      ensures ok && truncLen <= old(len) ==> Contents() == old(Contents())[..truncLen]
    {
      if truncLen >= allocBytes {
        return false;
      }
      len := truncLen;
      buf[len] := NUL;
      return true;
    }

    /** str_empty */
    method Empty()
      requires Valid()
      modifies this, buf
      ensures Valid() && Terminated() && OwnBuffer() && Contents() == ""
    {
      if buf == null {
        Alloc("");
      }
      var _ := Trunc(0);
    }

    /** str_reserve: the closing NUL is put at the reserved length, not at the length of the contents. So
        the contents survive exactly if they do not reach that far, or have a NUL there anyway. */
    method Reserve(resLen: nat)
      requires Valid() && resLen + 1 < LIMIT
      modifies this, buf
      ensures Valid() && OwnBuffer() && len == old(len) && resLen < allocBytes
      ensures Contents() == old(Contents()) <==> resLen >= old(len) || old(Contents())[resLen] == NUL
      ensures resLen < old(len) ==> Contents() == old(Contents())[resLen := NUL]
    {
      var total := resLen + 1;
      if total > allocBytes {
        Regrow(total, len);
      }
      buf[resLen] := NUL;
      assert resLen < len ==> Contents()[resLen] == NUL;
    }

    /** str_replace_char */
    method ReplaceChar(from: char, to: char)
      requires Valid()
      modifies buf
      ensures Valid() && Contents() == Reply.ReplaceChar(old(Contents()), from, to)
    {
      for i := 0 to len
        invariant buf != null ==> forall j :: 0 <= j < len ==> buf[j] == if j < i && old(buf[j]) == from then to else old(buf[j])
      {
        if buf[i] == from {
          buf[i] := to;
        }
      }
    }
  }

  // ---------------------------------------------------------------- splitting and replacing

  predicate Apart(a: MyStr, b: MyStr)
    reads a, b
  {
    a != b && (a.buf != b.buf || a.buf == null)
  }

  /** str_split_text: the right part goes to the other string, and the source is cut where it stands. */
  method SplitText(src: MyStr, rhs: MyStr, text: string)
    requires src.Valid() && rhs.Valid() && Apart(src, rhs)
    modifies src`len, src.buf, rhs, rhs.buf
    ensures src.Valid() && rhs.Valid() && Apart(src, rhs) && rhs.OwnBuffer()
    ensures (src.Contents(), rhs.Contents()) == Split(old(src.Contents()), text)
  {
    var s := src.Contents();
    var found := LocateText(s, text);
    if found.None? {
      rhs.Empty();
      return;
    }
    var index := found.value;
    rhs.Alloc(s[index + |text|..]);
    assert src.Contents() == s;
    var _ := src.Trunc(index);
  }

  predicate AllApart(a: MyStr, b: MyStr, c: MyStr)
    reads a, b, c
  {
    a.Valid() && b.Valid() && c.Valid() && Apart(a, b) && Apart(a, c) && Apart(b, c)
  }

  /** One round: the left part and perhaps the replacement go to the destination, the right part becomes
      the chunk to search next. */
  method ReplaceOnce(out: MyStr, chunk: MyStr, rhs: MyStr, from: string, to: string)
    requires AllApart(out, chunk, rhs)
    requires |out.Contents() + Replace(chunk.Contents(), from, to)| + 1 < LIMIT
    modifies out, out.buf, chunk, chunk.buf, rhs, rhs.buf
    ensures AllApart(out, chunk, rhs) && out.OwnBuffer() && chunk.OwnBuffer() && rhs.OwnBuffer()
    ensures out.Contents() + Replace(chunk.Contents(), from, to) == old(out.Contents() + Replace(chunk.Contents(), from, to))
    ensures chunk.Contents() == "" || chunk.len < old(chunk.len)
  {
    hide Replace, Split;
    ghost var done, s := out.Contents(), chunk.Contents();
    RoundFits(done, s, from, to);
    var lhsLen := chunk.len;
    SplitText(chunk, rhs, from);
    AppendHit(out, chunk.Contents(), chunk.len < lhsLen, to);
    chunk.Alloc(rhs.Contents());
  }

  method AppendHit(out: MyStr, lhs: string, hit: bool, to: string)
    requires out.Valid() && out.len + |lhs| + (if hit then |to| else 0) + 1 < LIMIT
    modifies out, out.buf
    ensures out.Valid() && out.OwnBuffer() && out.buf != null
    ensures out.Contents() == if hit then old(out.Contents()) + lhs + to else old(out.Contents()) + lhs
  {
    out.Append(lhs);
    if hit {
      out.Append(to);
    }
  }

  lemma RoundFits(done: string, s: string, from: string, to: string)
    requires |done + Replace(s, from, to)| + 1 < LIMIT
    ensures var (lhs, rhs) := Split(s, from);
            && |done| + |lhs| + (if |lhs| < |s| then |to| else 0) + 1 < LIMIT
            && (rhs == "" || |rhs| < |s|)
            && done + Replace(s, from, to) == (if |lhs| < |s| then done + lhs + to else done + lhs) + Replace(rhs, from, to)
  {
    hide Replace;
    ReplaceRound(done, s, from, to);
  }

  /** str_replace_text on the buffer, with its two chunks. */
  method ReplaceTextInPlace(str: MyStr, chunk: MyStr, rhs: MyStr, from: string, to: string)
    requires AllApart(str, chunk, rhs)
    requires |Replace(str.Contents(), from, to)| + 1 < LIMIT
    modifies str, str.buf, chunk, chunk.buf, rhs, rhs.buf
    ensures AllApart(str, chunk, rhs)
    ensures str.Contents() == Replace(old(str.Contents()), from, to)
  {
    hide Replace;
    ghost var total := Replace(str.Contents(), from, to);
    chunk.Alloc(str.Contents());
    str.Free();
    ReplaceOnce(str, chunk, rhs, from, to);
    while chunk.len != 0
      invariant AllApart(str, chunk, rhs) && str.OwnBuffer() && chunk.OwnBuffer() && rhs.OwnBuffer()
      invariant str.Contents() + Replace(chunk.Contents(), from, to) == total
      decreases chunk.len
    {
      ReplaceOnce(str, chunk, rhs, from, to);
    }
    ReplaceEmpty(from, to);
  }

  lemma ReplaceEmpty(from: string, to: string)
    ensures Replace("", from, to) == ""
  {
  }
}
