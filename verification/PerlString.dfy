/** The string buffer of an SV, as far as the operators of doop.c use it. */
module PerlString {
  import opened Bits
  import opened Common

  /** SvPVX, SvLEN (the length of `buf`) and SvCUR. The byte after the contents is a NUL. */
  class Buffer {
    var buf: array<byte>
    var cur: nat

    ghost predicate Valid()
      reads this, buf
    {
      cur < buf.Length <= SSIZE_MAX && buf[cur] == 0
    }

    ghost function Contents(): (s: seq<byte>)
      reads this, buf
      requires Valid()
      ensures |s| == cur && forall i :: 0 <= i < |s| ==> s[i] == buf[i]
    {
      buf[..cur]
    }

    /** An SV holding `s`. */
    constructor (s: seq<byte>)
      requires |s| < SSIZE_MAX
      ensures Valid() && Contents() == s && fresh(buf) && buf.Length == |s| + 1
    {
      var b := new byte[|s| + 1];
      forall i | 0 <= i < |s| {
        b[i] := s[i];
      }
      b[|s|] := 0;
      buf, cur := b, |s|;
      new;
      assert Contents() == s;
    }

    /** SvGROW: more than `n` bytes of room, the block and all it holds moved if it has not so
        many; false if there is no such room. */
    method Grow(n: nat) returns (ok: bool)
      requires cur < buf.Length <= SSIZE_MAX
      modifies this`buf
      ensures ok == (n <= SSIZE_MAX)
      ensures !ok ==> buf == old(buf)
      ensures ok ==> n <= buf.Length <= SSIZE_MAX && old(buf.Length) <= buf.Length
                     && buf[..old(buf.Length)] == old(buf[..])
      ensures if ok && n >= old(buf.Length) then fresh(buf) else buf == old(buf)
    {
      ok := n <= SSIZE_MAX;
      if ok && n >= buf.Length {
        var b := new byte[if n < SSIZE_MAX then n + 1 else n];
        forall i | 0 <= i < buf.Length {
          b[i] := buf[i];
        }
        buf := b;
      }
    }
  }
}
