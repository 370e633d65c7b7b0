/** The growable byte buffer of core/strbuf.c. */
module StrBufs {
  import opened Bytes

  const STRBUF_INIT_LEN: nat := 128

  /** The bytes of a C string that starts s: those before the first NUL. */
  function CString(s: seq<byte>): (r: seq<byte>)
    ensures r <= s && NUL !in r && (|r| < |s| ==> s[|r|] == NUL)
  {
    if s == [] || s[0] == NUL then [] else [s[0]] + CString(s[1..])
  }

  lemma {:induction false} CStringOf(s: seq<byte>, t: seq<byte>)
    requires NUL !in s
    ensures CString(s + [NUL] + t) == s
    ensures CString(s) == s
  {
    if s != [] {
      assert (s + [NUL] + t)[1..] == s[1..] + [NUL] + t;
      CStringOf(s[1..], t);
    }
  }

  class StrBuf {
    var p: array<byte>
    var len: nat
    var cap: nat

    ghost predicate Valid()
      reads this
    {
      cap == p.Length && len < cap
    }

    ghost function Contents(): (s: seq<byte>)
      reads this, p
      requires Valid()
      ensures |s| == len
    {
      p[..len]
    }

    /** The byte after the contents is NUL; strbuf_reset does not write one. */
    ghost predicate Terminated()
      reads this, p
      requires Valid()
    {
      p[len] == NUL
    }

    constructor ()
      ensures Valid() && Contents() == [] && Terminated() && fresh(p)
    {
      p := new byte[STRBUF_INIT_LEN](_ => 0);
      len, cap := 0, STRBUF_INIT_LEN;
    }

    method Reset()
      requires Valid()
      modifies this`len
      ensures Valid() && Contents() == []
    {
      len := 0;
    }

    /** The contents grow by one byte, whether or not the buffer is reallocated. */
    method Append(ch: byte)
      requires Valid()
      modifies this, p
      ensures Valid() && Contents() == old(Contents()) + [ch] && Terminated()
      ensures p == old(p) || fresh(p)
    {
      if len + 1 == cap {
        var newP := new byte[cap * 2](_ => 0);
        forall i | 0 <= i < cap { newP[i] := p[i]; }
        p := newP;
        cap := cap * 2;
      }
      p[len] := ch;
      len := len + 1;
      p[len] := NUL;
    }

    /** strbuf_cat: a C string stops at its first NUL. */
    method Cat(s: seq<byte>)
      requires Valid()
      modifies this, p
      ensures Valid() && Contents() == old(Contents()) + CString(s)
      ensures p == old(p) || fresh(p)
      ensures CString(s) != [] ==> Terminated()
    {
      var i := 0;
      assert CString(s)[..0] == [];
      while i < |s| && s[i] != NUL
        invariant 0 <= i <= |CString(s)| && Valid() && Contents() == old(Contents()) + CString(s)[..i]
        invariant p == old(p) || fresh(p)
        invariant i > 0 ==> Terminated()
        decreases |s| - i
      {
        ghost var c := CString(s);
        assert c[..i + 1] == c[..i] + [s[i]];
        Append(s[i]);
        i := i + 1;
      }
      assert i == |CString(s)|;
    }
  }
}
