/** The UTF-8 branches of do_trans_simple, do_trans_count and do_trans_complex. */
module TransUtf8 {
  import opened Bits
  import opened Common
  import opened Utf8
  import opened PerlString
  import opened Trans

  // ----- Reading and writing characters -----

  /** The state of a pass: `src` from `s` to `send` encodes what is still to be read, `dst` up
      to `d` encodes what has been written. Unless the string may grow, both are the same
      buffer and the write cursor has not passed the read cursor; otherwise `dst` is twice as
      large as the string, and one byte more. */
  ghost predicate InFlight(src: array<byte>, dst: array<byte>, s: nat, d: nat, send: nat, grows: bool,
                           out: seq<Point>, rest: seq<Point>)
    reads src, dst
  {
    && s <= send < src.Length && src[s..send] == EncodeAll(rest)
    && d <= dst.Length && dst[..d] == EncodeAll(out)
    && if grows then dst != src && dst.Length == 2 * send + 1 && d <= 2 * s else dst == src && d <= s
  }

  /** utf8n_to_uvchr */
  method ReadChar(src: array<byte>, s: nat, send: nat, ghost rest: seq<Point>) returns (c: Point, ulen: nat)
    requires s < send < src.Length && src[s..send] == EncodeAll(rest)
    ensures rest != [] && c == rest[0] && ulen == Skip(c) && s + ulen <= send
    ensures src[s + ulen..send] == EncodeAll(rest[1..])
  {
    ghost var tail := EncodeAll(rest[1..]);
    DecodeEncode(rest[0], tail);
    var bytes := src[s..send];
    ulen := SkipOf(bytes[0]);
    c := Decode(bytes);
    assert src[s + ulen..send] == bytes[ulen..] == tail;
  }

  method StoreBytes(dst: array<byte>, d: nat, bytes: seq<byte>) returns (d': nat)
    requires d + |bytes| <= dst.Length
    modifies dst
    ensures d' == d + |bytes| && dst[..d'] == old(dst[..d]) + bytes
    ensures forall k :: d' <= k < dst.Length ==> dst[k] == old(dst[k])
  {
    d' := d + |bytes|;
    forall k | d <= k < d' {
      dst[k] := bytes[k - d];
    }
    assert dst[..d'] == old(dst[..d]) + bytes;
  }

  /** Move(): the ranges may overlap. */
  method MoveBytes(src: array<byte>, s: nat, dst: array<byte>, d: nat, n: nat) returns (d': nat)
    requires s + n <= src.Length && d + n <= dst.Length
    modifies dst
    ensures d' == d + n && dst[..d'] == old(dst[..d]) + old(src[s..s + n])
    ensures forall k :: d' <= k < dst.Length ==> dst[k] == old(dst[k])
  {
    d' := d + n;
    forall k | d <= k < d' {
      dst[k] := src[s + (k - d)];
    }
    assert dst[d..d'] == old(src[s..s + n]);
    assert dst[..d'] == old(dst[..d]) + dst[d..d'];
  }

  /** What is still to be read stays if the write cursor has not passed the read cursor. */
  method MoveAhead(src: array<byte>, s: nat, dst: array<byte>, d: nat, n: nat, send: nat) returns (d': nat)
    requires s + n <= send <= src.Length && d + n <= dst.Length && (dst == src ==> d <= s)
    modifies dst
    ensures d' == d + n && dst[..d'] == old(dst[..d]) + old(src[s..s + n])
    ensures src[s + n..send] == old(src[s + n..send])
  {
    ghost var tail := src[s + n..send];
    d' := MoveBytes(src, s, dst, d, n);
    assert forall k :: s + n <= k < send ==> src[k] == tail[k - (s + n)];
  }

  /** uvchr_to_utf8 of the replacement of a character that has been read. */
  method WriteChar(src: array<byte>, dst: array<byte>, s: nat, d: nat, send: nat, grows: bool, ch: Point,
                   ghost c: Point, ghost out: seq<Point>, ghost rest: seq<Point>) returns (d': nat)
    requires InFlight(src, dst, s, d, send, grows, out, [c] + rest)
    requires Skip(ch) <= if grows then 2 * Skip(c) else Skip(c)
    modifies dst
    ensures d' == d + Skip(ch) && InFlight(src, dst, s + Skip(c), d', send, grows, out + [ch], rest)
  {
    AfterRead(src, dst, s, d, send, grows, c, out, rest);
    EncodeSnoc(out, ch);
    hide EncodeAll, Encode;
    ghost var tail := src[s + Skip(c)..send];
    d' := StoreBytes(dst, d, Encode(ch));
    assert forall k :: s + Skip(c) <= k < send ==> src[k] == tail[k - (s + Skip(c))];
    assert src[s + Skip(c)..send] == tail;
  }

  /** Move(): the character that has been read is copied as it is. */
  method CopyChar(src: array<byte>, dst: array<byte>, s: nat, d: nat, send: nat, grows: bool, ulen: nat,
                  ghost c: Point, ghost out: seq<Point>, ghost rest: seq<Point>) returns (d': nat)
    requires InFlight(src, dst, s, d, send, grows, out, [c] + rest) && ulen == Skip(c)
    modifies dst
    ensures d' == d + ulen && InFlight(src, dst, s + ulen, d', send, grows, out + [c], rest)
  {
    AfterRead(src, dst, s, d, send, grows, c, out, rest);
    EncodeSnoc(out, c);
    hide EncodeAll, Encode;
    d' := MoveAhead(src, s, dst, d, ulen, send);
  }

  /** A character that has been read and is not written. */
  lemma AfterRead(src: array<byte>, dst: array<byte>, s: nat, d: nat, send: nat, grows: bool, c: Point,
                  out: seq<Point>, rest: seq<Point>)
    requires InFlight(src, dst, s, d, send, grows, out, [c] + rest)
    ensures s + Skip(c) <= send && src[s..s + Skip(c)] == Encode(c)
    ensures InFlight(src, dst, s + Skip(c), d, send, grows, out, rest)
  {
    assert ([c] + rest)[1..] == rest;
    var bytes := src[s..send];
    assert bytes == Encode(c) + EncodeAll(rest);
    assert src[s..s + Skip(c)] == bytes[..Skip(c)];
    assert src[s + Skip(c)..send] == bytes[Skip(c)..];
  }

  /** The end of a pass: the string takes over what was written. */
  method Finish(sv: Buffer, dst: array<byte>, d: nat, grows: bool)
    requires sv.buf.Length <= SSIZE_MAX && d <= dst.Length && (!grows ==> dst == sv.buf && d < dst.Length)
    requires d < SSIZE_MAX
    modifies sv, sv.buf
    ensures sv.Valid() && sv.Contents() == old(dst[..d])
    ensures sv.buf == old(sv.buf) || fresh(sv.buf)
  {
    if grows {
      var b := new byte[d + 1];
      forall k | 0 <= k < d {
        b[k] := dst[k];
      }
      b[d] := 0;
      sv.buf := b;
    } else {
      dst[d] := 0;
    }
    sv.cur := d;
  }

  // ----- do_trans_simple and do_trans_count -----

  /** OPpTRANS_GROWS must be on if some replacement needs more bytes than what it replaces,
      which for replacements below 256 means that it is not ASCII and what it replaces is. */
  predicate GrowthKnown(t: Table, grows: bool)
    requires t.Valid()
  {
    grows || forall c :: 0 <= c < 0x80 ==> t.entries[c] < 0x80
  }

  lemma ReplacementFits(t: Table, grows: bool, c: Point, ch: Point)
    requires t.Valid() && GrowthKnown(t, grows) && ch < 0x100 && (c < 0x80 ==> ch == t.entries[c])
    ensures Skip(ch) <= if grows then 2 * Skip(c) else Skip(c)
  {
  }

  /** Characters transliterated one by one, where a deleted character ends a run. */
  function TranslatePoints(t: Table, simple: bool, s: seq<Point>, squash: bool): Progress
    requires t.Valid()
  {
    Translate(s, Actions(t, simple, s), squash, true)
  }

  lemma TranslatePointsNext(t: Table, simple: bool, s: seq<Point>, squash: bool, n: nat)
    requires t.Valid() && n < |s|
    ensures s[n..] == [s[n]] + s[n + 1..]
    ensures TranslatePoints(t, simple, s[..n + 1], squash)
         == Step(TranslatePoints(t, simple, s[..n], squash), s[n],
                 if simple then SimpleAction(t, s[n]) else ComplexAction(t, s[n]), squash, true)
  {
    var a := s[..n + 1];
    assert a[..n] == s[..n];
    ActionsPrefix(t, simple, a, n);
  }

  /** The UTF-8 branch of do_trans_simple. */
  method SimpleUtf8(sv: Buffer, t: Table, grows: bool, ghost pts: seq<Point>) returns (matches: nat)
    requires sv.Valid() && t.Valid() && GrowthKnown(t, grows) && sv.Contents() == EncodeAll(pts)
    requires grows ==> 2 * sv.cur + 1 < SSIZE_MAX
    modifies sv, sv.buf
    ensures sv.Valid() && (sv.buf == old(sv.buf) || fresh(sv.buf))
    ensures var p := TranslatePoints(t, true, pts, false);
            sv.Contents() == EncodeAll(p.out) && matches == p.matches
  {
    var dst := sv.buf;
    if grows {
      dst := new byte[sv.cur * 2 + 1];
    }
    var d;
    matches, d := SimplePass(sv.buf, dst, sv.cur, t, grows, pts);
    Finish(sv, dst, d, grows);
  }

  method SimplePass(src: array<byte>, dst: array<byte>, send: nat, t: Table, grows: bool, ghost pts: seq<Point>)
      returns (matches: nat, d: nat)
    requires t.Valid() && GrowthKnown(t, grows)
    requires InFlight(src, dst, 0, 0, send, grows, [], pts)
    modifies dst
    ensures d <= (if grows then 2 * send else send) && d <= dst.Length
    ensures var p := TranslatePoints(t, true, pts, false); dst[..d] == EncodeAll(p.out) && matches == p.matches
  {
    StartsEmpty(t, true, false);
    hide TranslatePoints, EncodeAll, InFlight, Step;
    matches := 0;
    var s := 0;
    d := 0;
    ghost var i, p := 0, START;
    assert pts[0..] == pts && pts[..0] == [];
    while s < send
      invariant s <= send && 0 <= i <= |pts| && matches == p.matches
      invariant p == TranslatePoints(t, true, pts[..i], false)
      invariant InFlight(src, dst, s, d, send, grows, p.out, pts[i..])
      decreases send - s
    {
      ghost var rest := pts[i..];
      s, d, matches := SimpleChar(src, dst, s, d, send, t, grows, matches, p, rest);
      TranslatePointsNext(t, true, pts, false, i);
      assert rest[1..] == pts[i + 1..];
      i := i + 1;
      p := TranslatePoints(t, true, pts[..i], false);
    }
    NothingLeft(src, dst, s, d, send, grows, p.out, pts[i..]);
    assert pts[..i] == pts;
  }

  /** One turn of the loop of do_trans_simple. */
  method SimpleChar(src: array<byte>, dst: array<byte>, s: nat, d: nat, send: nat, t: Table, grows: bool,
                    matches: nat, ghost p: Progress, ghost rest: seq<Point>)
      returns (s': nat, d': nat, matches': nat)
    requires t.Valid() && GrowthKnown(t, grows) && s < send && matches == p.matches
    requires InFlight(src, dst, s, d, send, grows, p.out, rest)
    modifies dst
    ensures rest != [] && s < s' <= send
    ensures var q := Step(p, rest[0], SimpleAction(t, rest[0]), false, true);
            InFlight(src, dst, s', d', send, grows, q.out, rest[1..]) && matches' == q.matches
  {
    hide EncodeAll, Skip, GrowthKnown, InFlight;
    Unread(src, dst, s, d, send, grows, p.out, rest);
    var c, ulen := ReadChar(src, s, send, rest);
    assert rest == [c] + rest[1..];
    matches' := matches;
    if c < 0x100 && t.entries[c] >= 0 {
      matches' := matches + 1;
      ReplacementFits(t, grows, c, t.entries[c]);
      d' := WriteChar(src, dst, s, d, send, grows, t.entries[c], c, p.out, rest[1..]);
    } else {
      d' := CopyChar(src, dst, s, d, send, grows, ulen, c, p.out, rest[1..]);
    }
    s' := s + ulen;
  }

  lemma StartsEmpty(t: Table, simple: bool, squash: bool)
    requires t.Valid()
    ensures TranslatePoints(t, simple, [], squash) == START
  {
  }

  lemma Unread(src: array<byte>, dst: array<byte>, s: nat, d: nat, send: nat, grows: bool,
               out: seq<Point>, rest: seq<Point>)
    requires InFlight(src, dst, s, d, send, grows, out, rest)
    ensures s <= send < src.Length && src[s..send] == EncodeAll(rest)
  {
  }

  lemma NothingLeft(src: array<byte>, dst: array<byte>, s: nat, d: nat, send: nat, grows: bool,
                    out: seq<Point>, rest: seq<Point>)
    requires InFlight(src, dst, s, d, send, grows, out, rest) && s >= send
    ensures d <= dst.Length && d <= (if grows then 2 * send else send)
    ensures rest == [] && dst[..d] == EncodeAll(out) && d <= 2 * send
  {
  }

  /** The UTF-8 branch of do_trans_count. Under /c every character above 255 counts. */
  method CountUtf8(sv: Buffer, t: Table, complement: bool, ghost pts: seq<Point>) returns (matches: nat)
    requires sv.Valid() && t.Valid() && sv.Contents() == EncodeAll(pts)
    ensures matches == Counted(t, complement, pts)
  {
    hide EncodeAll;
    matches := 0;
    var s := 0;
    ghost var i := 0;
    assert pts[0..] == pts && sv.buf[0..sv.cur] == sv.Contents();
    while s < sv.cur
      invariant 0 <= i <= |pts| && s <= sv.cur && sv.buf[s..sv.cur] == EncodeAll(pts[i..])
      invariant matches == Counted(t, complement, pts[..i])
      decreases sv.cur - s
    {
      var c, ulen := ReadChar(sv.buf, s, sv.cur, pts[i..]);
      if c < 0x100 {
        if t.entries[c] >= 0 {
          matches := matches + 1;
        }
      } else if complement {
        matches := matches + 1;
      }
      s := s + ulen;
      assert pts[i..][1..] == pts[i + 1..] && pts[..i + 1][..i] == pts[..i];
      i := i + 1;
    }
    EncodeNothing(pts[i..]);
    assert pts[..i] == pts;
  }

  lemma EncodeNothing(s: seq<Point>)
    ensures EncodeAll(s) == [] <==> s == []
  {
  }

  function Counted(t: Table, complement: bool, s: seq<Point>): nat
    requires t.Valid()
  {
    if s == [] then 0
    else Counted(t, complement, s[..|s| - 1])
         + BoolVal(if s[|s| - 1] < 0x100 then t.entries[s[|s| - 1]] >= 0 else complement)
  }

  /** Without /c the count is that of the translation that would be made. */
  lemma {:induction false} CountedIsTranslated(t: Table, s: seq<Point>)
    requires t.Valid()
    ensures Counted(t, false, s) == TranslatePoints(t, true, s, false).matches
  {
    if s != [] {
      var n := |s| - 1;
      CountedIsTranslated(t, s[..n]);
      TranslatePointsNext(t, true, s, false, n);
      assert s[..n + 1] == s;
    }
  }

  // ----- do_trans_complex -----

  /** No replacement is on record. The value is a code point that Perl can encode. */
  const NO_RUN: Point := 0xfeed_face

  /** What the loops over UTF-8 keep: `pch` is the last replacement, or `NO_RUN`. */
  datatype Pass = Pass(out: seq<Point>, pch: Point, matches: nat)

  function PassStep(p: Pass, c: Point, a: Action, squash: bool, ends: bool): Pass {
    match a
    case Keep => Pass(p.out + [c], NO_RUN, p.matches)
    case Delete => Pass(p.out, if ends then NO_RUN else p.pch, p.matches + 1)
    case Put(ch) =>
      if squash && ch == p.pch then p.(matches := p.matches + 1)
      else Pass(p.out + [ch], ch, p.matches + 1)
  }

  function PassOver(s: seq<Point>, acts: seq<Action>, squash: bool, ends: bool): Pass
    requires |acts| == |s|
  {
    if s == [] then Pass([], NO_RUN, 0)
    else var n := |s| - 1;
         PassStep(PassOver(s[..n], acts[..n], squash, ends), s[n], acts[n], squash, ends)
  }

  /** What the UTF-8 branch of do_trans_complex computes. */
  function ComplexPassOver(t: Table, s: seq<Point>, squash: bool): Pass
    requires t.Valid()
  {
    PassOver(s, Actions(t, false, s), squash, true)
  }

  /** The UTF-8 branch of do_trans_complex. */
  method ComplexUtf8(sv: Buffer, t: Table, squash: bool, grows: bool, ghost pts: seq<Point>) returns (matches: nat)
    requires sv.Valid() && t.Valid() && GrowthKnown(t, grows) && sv.Contents() == EncodeAll(pts)
    requires grows ==> 2 * sv.cur + 1 < SSIZE_MAX
    modifies sv, sv.buf
    ensures sv.Valid() && (sv.buf == old(sv.buf) || fresh(sv.buf))
    ensures var p := ComplexPassOver(t, pts, squash); sv.Contents() == EncodeAll(p.out) && matches == p.matches
  {
    var dst := sv.buf;
    if grows {
      dst := new byte[sv.cur * 2 + 1];
    }
    var d;
    matches, d := ComplexPass(sv.buf, dst, sv.cur, t, squash, grows, pts);
    Finish(sv, dst, d, grows);
  }

  method ComplexPass(src: array<byte>, dst: array<byte>, send: nat, t: Table, squash: bool, grows: bool,
                     ghost pts: seq<Point>) returns (matches: nat, d: nat)
    requires t.Valid() && GrowthKnown(t, grows)
    requires InFlight(src, dst, 0, 0, send, grows, [], pts)
    modifies dst
    ensures d <= (if grows then 2 * send else send) && d <= dst.Length
    ensures var p := ComplexPassOver(t, pts, squash); dst[..d] == EncodeAll(p.out) && matches == p.matches
  {
    assert ComplexPassOver(t, [], squash) == Pass([], NO_RUN, 0);
    hide ComplexPassOver, PassStep, EncodeAll, InFlight;
    matches := 0;
    var s, pch := 0, NO_RUN;
    d := 0;
    ghost var i, p := 0, Pass([], NO_RUN, 0);
    assert pts[0..] == pts && pts[..0] == [];
    while s < send
      invariant s <= send && 0 <= i <= |pts| && matches == p.matches && pch == p.pch
      invariant p == ComplexPassOver(t, pts[..i], squash)
      invariant InFlight(src, dst, s, d, send, grows, p.out, pts[i..])
      decreases send - s
    {
      ghost var rest := pts[i..];
      s, d, pch, matches := ComplexChar(src, dst, s, d, send, t, squash, grows, pch, matches, p, rest);
      PassNext(t, pts, squash, i);
      assert rest[1..] == pts[i + 1..];
      i := i + 1;
      p := ComplexPassOver(t, pts[..i], squash);
    }
    NothingLeft(src, dst, s, d, send, grows, p.out, pts[i..]);
    assert pts[..i] == pts;
  }

  /** One turn of the loop of do_trans_complex. */
  method ComplexChar(src: array<byte>, dst: array<byte>, s: nat, d: nat, send: nat, t: Table, squash: bool,
                     grows: bool, pch: Point, matches: nat, ghost p: Pass, ghost rest: seq<Point>)
      returns (s': nat, d': nat, pch': Point, matches': nat)
    requires t.Valid() && GrowthKnown(t, grows) && s < send && pch == p.pch && matches == p.matches
    requires InFlight(src, dst, s, d, send, grows, p.out, rest)
    modifies dst
    ensures rest != [] && s < s' <= send
    ensures var q := PassStep(p, rest[0], ComplexAction(t, rest[0]), squash, true);
            && InFlight(src, dst, s', d', send, grows, q.out, rest[1..])
            && pch' == q.pch && matches' == q.matches
  {
    hide EncodeAll, Skip, GrowthKnown, InFlight;
    Unread(src, dst, s, d, send, grows, p.out, rest);
    var c, ulen := ReadChar(src, s, send, rest);
    assert rest == [c] + rest[1..];
    AfterRead(src, dst, s, d, send, grows, c, p.out, rest[1..]);
    var sch := t.entries[if c >= t.Size() then t.Size() else c];
    s', d', pch', matches' := s + ulen, d, pch, matches;
    if sch >= 0 || sch == -3 {
      var ch: Point := if sch >= 0 then sch else c;
      matches' := matches + 1;
      if !squash || ch != pch {
        EntryFits(t, grows, c);
        d' := WriteChar(src, dst, s, d, send, grows, ch, c, p.out, rest[1..]);
        pch' := ch;
      }
      return;
    } else if sch == -1 {
      d' := CopyChar(src, dst, s, d, send, grows, ulen, c, p.out, rest[1..]);
    } else {
      matches' := matches + 1;
    }
    pch' := NO_RUN;
  }

  lemma EntryFits(t: Table, grows: bool, c: Point)
    requires t.Valid() && GrowthKnown(t, grows)
    ensures var a := ComplexAction(t, c); a.Put? ==> Skip(a.ch) <= if grows then 2 * Skip(c) else Skip(c)
  {
  }

  lemma PassNext(t: Table, s: seq<Point>, squash: bool, n: nat)
    requires t.Valid() && n < |s|
    ensures s[n..] == [s[n]] + s[n + 1..]
    ensures ComplexPassOver(t, s[..n + 1], squash)
         == PassStep(ComplexPassOver(t, s[..n], squash), s[n], ComplexAction(t, s[n]), squash, true)
  {
    assert s[..n + 1][..n] == s[..n];
    ActionsPrefix(t, false, s[..n + 1], n);
  }
}
