/** do_trans_simple_utf8 and do_trans_complex_utf8: transliteration by a lookup function, in place
    or into a buffer that is enlarged as needed. */
module TransSwash {
  import opened Bits
  import opened Common
  import opened Utf8
  import opened PerlString
  import opened Trans
  import opened TransUtf8

  /** What swash_fetch answers is below `none` for a replacement, `none` for a character that
      is kept, `none + 1` for one that gets the final replacement; anything else deletes. */
  datatype Swash = Swash(fetch: Point -> Point, none: Point, final: Option<Point>)

  function SimpleSwash(w: Swash, c: Point): Action {
    var uv := w.fetch(c);
    if uv < w.none then Put(uv)
    else if uv == w.none then Keep
    else if uv == w.none + 1 then Put(if w.final.Some? then w.final.value else 0)
    else Delete
  }

  function ComplexSwash(w: Swash, del: bool, squash: bool, c: Point): Action {
    var uv := w.fetch(c);
    if uv < w.none then Put(uv)
    else if uv == w.none then Keep
    else if uv == w.none + 1 && !del then
      if w.final.Some? then Put(w.final.value) else if squash then Put(c) else Put(0)
    else Delete
  }

  /** Which of the two functions runs, and with which flags. */
  datatype Job = Simple(w: Swash) | Complex(w: Swash, del: bool, squash: bool) {
    function Act(c: Point): Action {
      if Simple? then SimpleSwash(w, c) else ComplexSwash(w, del, squash, c)
    }

    predicate Squashes() {
      Complex? && squash
    }

    function Acts(s: seq<Point>): (r: seq<Action>)
      ensures |r| == |s| && forall i :: 0 <= i < |s| ==> r[i] == Act(s[i])
    {
      seq(|s|, i requires 0 <= i < |s| => Act(s[i]))
    }

    /** What the loops compute. */
    function Passed(s: seq<Point>): Pass {
      PassOver(s, Acts(s), Squashes(), false)
    }
  }

  lemma PassedNext(j: Job, s: seq<Point>, n: nat)
    requires n < |s|
    ensures s[n..] == [s[n]] + s[n + 1..]
    ensures j.Passed(s[..n + 1]) == PassStep(j.Passed(s[..n]), s[n], j.Act(s[n]), j.Squashes(), false)
  {
    var a := s[..n + 1];
    assert a[..n] == s[..n];
    assert j.Acts(a)[..n] == j.Acts(s[..n]);
  }

  /** do_trans_simple_utf8 counts only what it replaces. */
  function SimpleCount(acts: seq<Action>): nat {
    if acts == [] then 0 else SimpleCount(acts[..|acts| - 1]) + BoolVal(acts[|acts| - 1].Put?)
  }

  // ----- How a pass in place ends -----

  /** It is complete; or it croaks because the buffer may not grow; or its output overtakes the
      reading, so that characters not yet read are overwritten; or it writes beyond the block. */
  datatype Fate = Complete | Panic | Overtaken | Overrun

  /** After `i` characters more has been written than read. */
  predicate Over(j: Job, s: seq<Point>, i: nat)
    requires i <= |s|
  {
    |EncodeAll(j.Passed(s[..i]).out)| > |EncodeAll(s[..i])|
  }

  /** The first time from `i` on that this happens; past the end if it does not. */
  function FirstOver(j: Job, s: seq<Point>, i: nat): (m: nat)
    requires i <= |s|
    ensures i <= m <= |s| + 1
    ensures forall k :: i <= k < m && k <= |s| ==> !Over(j, s, k)
    ensures m <= |s| ==> Over(j, s, m)
    decreases |s| - i
  {
    if Over(j, s, i) then i else if i == |s| then |s| + 1 else FirstOver(j, s, i + 1)
  }

  /** How a pass in place ends in a block of `room` bytes. do_trans_complex_utf8 notices an output
      that is too long at its next turn only; `copied` tells whether the output is copied in the
      end or gets its NUL where it is. */
  function FateOf(j: Job, s: seq<Point>, room: nat, copied: bool): Fate {
    var m := FirstOver(j, s, 0);
    if m > |s| then Complete
    else
      var d := |EncodeAll(j.Passed(s[..m]).out)|;
      if d > room then Overrun
      else if m == |s| && j.Complex? then if copied || d < room then Complete else Overrun
      else if d > |EncodeAll(s)| then Panic
      else Overtaken
  }

  // ----- The buffer -----

  /** `dst` up to `d` encodes what has been written. */
  ghost predicate Written(dst: array<byte>, d: nat, out: seq<Point>)
    reads dst
  {
    d <= dst.Length && dst[..d] == EncodeAll(out)
  }

  /** The state of a pass: as in the other passes, but an output buffer of its own has
      UTF8_MAXBYTES bytes past its soft limit `dend`. */
  ghost predicate Growing(src: array<byte>, dst: array<byte>, s: nat, d: nat, send: nat, grows: bool, dend: nat,
                          out: seq<Point>, rest: seq<Point>)
    reads src, dst
  {
    && s <= send < src.Length && src[s..send] == EncodeAll(rest)
    && Written(dst, d, out)
    && if grows then dst != src && dst.Length == dend + UTF8_MAXBYTES else dst == src && d <= s && dend == send
  }

  /** `if (d > dend)`: past the soft limit the buffer is enlarged by more than the string and a
      character. Without an output buffer of its own that is a panic. */
  method Regrow(src: array<byte>, dst: array<byte>, s: nat, d: nat, send: nat, grows: bool, dend: nat,
                ghost out: seq<Point>, ghost rest: seq<Point>)
      returns (dst': array<byte>, dend': nat, panic: bool)
    requires Written(dst, d, out) && (!grows ==> dst == src && dend == send)
    requires grows || d <= s ==> Growing(src, dst, s, d, send, grows, dend, out, rest)
    ensures panic <==> !grows && d > dend
    ensures !panic ==> d <= dend' && Written(dst', d, out)
    ensures grows || d <= s ==> !panic && Growing(src, dst', s, d, send, grows, dend', out, rest)
    ensures dst' == dst || fresh(dst')
    ensures !grows ==> dst' == dst && dend' == dend
  {
    dst', dend', panic := dst, dend, false;
    if d > dend {
      if !grows {
        panic := true;
        return;
      }
      dend' := dend + send + UTF8_MAXBYTES;
      dst' := new byte[dend' + UTF8_MAXBYTES];
      forall k | 0 <= k < d {
        dst'[k] := dst[k];
      }
      assert dst'[..d] == dst[..d];
    }
  }

  /** Writes the replacement of the character just read, if there is room in the block. */
  method WriteGrowing(src: array<byte>, dst: array<byte>, s: nat, d: nat, send: nat, grows: bool, dend: nat,
                      ch: Point, ghost c: Point, ghost out: seq<Point>, ghost rest: seq<Point>)
      returns (d': nat, room: bool)
    requires Growing(src, dst, s, d, send, grows, dend, out, [c] + rest) && d <= dend
    modifies dst
    ensures room <==> grows || |EncodeAll(out + [ch])| <= dst.Length
    ensures room ==> Written(dst, d', out + [ch])
    ensures grows || (room && d' <= s + Skip(c)) ==>
              Growing(src, dst, s + Skip(c), d', send, grows, dend, out + [ch], rest)
  {
    AfterReadGrowing(src, dst, s, d, send, grows, dend, c, out, rest);
    EncodeSnoc(out, ch);
    hide EncodeAll, Encode;
    ghost var tail := src[s + Skip(c)..send];
    d', room := d, d + Skip(ch) <= dst.Length;
    if room {
      d' := StoreBytes(dst, d, Encode(ch));
      if grows || d' <= s + Skip(c) {
        assert forall k :: s + Skip(c) <= k < send ==> src[k] == tail[k - (s + Skip(c))];
        assert src[s + Skip(c)..send] == tail;
      }
    }
  }

  /** Copies the character just read. */
  method CopyGrowing(src: array<byte>, dst: array<byte>, s: nat, d: nat, send: nat, grows: bool, dend: nat, i: nat,
                     ghost c: Point, ghost out: seq<Point>, ghost rest: seq<Point>) returns (d': nat)
    requires Growing(src, dst, s, d, send, grows, dend, out, [c] + rest) && d <= dend && i == Skip(c)
    modifies dst
    ensures Growing(src, dst, s + i, d', send, grows, dend, out + [c], rest)
  {
    AfterReadGrowing(src, dst, s, d, send, grows, dend, c, out, rest);
    EncodeSnoc(out, c);
    hide EncodeAll, Encode;
    d' := MoveAhead(src, s, dst, d, i, send);
  }

  lemma AfterReadGrowing(src: array<byte>, dst: array<byte>, s: nat, d: nat, send: nat, grows: bool, dend: nat,
                         c: Point, out: seq<Point>, rest: seq<Point>)
    requires Growing(src, dst, s, d, send, grows, dend, out, [c] + rest)
    ensures s + Skip(c) <= send && src[s..s + Skip(c)] == Encode(c)
    ensures Growing(src, dst, s + Skip(c), d, send, grows, dend, out, rest)
  {
    hide Encode, Skip, EncodeAll, Written;
    EncodeCons(c, rest);
    var bytes := src[s..send];
    assert src[s..s + Skip(c)] == bytes[..Skip(c)];
    assert src[s + Skip(c)..send] == bytes[Skip(c)..];
  }

  // ----- The passes -----

  /** What one turn leaves behind: the character is read and its output written, unless there is
      no room for it in the block. */
  ghost predicate Turned(src: array<byte>, dst: array<byte>, s: nat, d: nat, send: nat, grows: bool, dend: nat,
                         out: seq<Point>, rest: seq<Point>, room: bool)
    reads src, dst
  {
    && (room <==> grows || |EncodeAll(out)| <= dst.Length)
    && (room ==> Written(dst, d, out))
    && (grows || (room && d <= s) ==> Growing(src, dst, s, d, send, grows, dend, out, rest))
  }

  /** One turn of the loop of do_trans_simple_utf8. */
  method SimpleTurn(src: array<byte>, dst: array<byte>, s: nat, d: nat, send: nat, grows: bool, dend: nat,
                    w: Swash, matches: nat, ghost p: Pass, ghost rest: seq<Point>)
      returns (s': nat, d': nat, matches': nat, room: bool)
    requires s < send && Growing(src, dst, s, d, send, grows, dend, p.out, rest) && d <= dend
    modifies dst
    ensures rest != [] && s' == s + Skip(rest[0]) <= send
    ensures var q := PassStep(p, rest[0], SimpleSwash(w, rest[0]), false, false);
            Turned(src, dst, s', d', send, grows, dend, q.out, rest[1..], room)
    ensures matches' == matches + BoolVal(SimpleSwash(w, rest[0]).Put?)
  {
    hide EncodeAll, Skip;
    var c, i := ReadChar(src, s, send, rest);
    assert rest == [c] + rest[1..];
    hide Growing;
    AfterReadGrowing(src, dst, s, d, send, grows, dend, c, p.out, rest[1..]);
    s', d', matches', room := s + i, d, matches, true;
    var uv := w.fetch(c);
    if uv < w.none {
      matches' := matches + 1;
      d', room := WriteGrowing(src, dst, s, d, send, grows, dend, uv, c, p.out, rest[1..]);
    } else if uv == w.none {
      d' := CopyGrowing(src, dst, s, d, send, grows, dend, i, c, p.out, rest[1..]);
      FromGrowing(src, dst, s', d', send, grows, dend, p.out + [c], rest[1..]);
    } else if uv == w.none + 1 {
      var final: Point := if w.final.Some? then w.final.value else 0;
      matches' := matches + 1;
      d', room := WriteGrowing(src, dst, s, d, send, grows, dend, final, c, p.out, rest[1..]);
    } else {
      FromGrowing(src, dst, s', d', send, grows, dend, p.out, rest[1..]);
    }
  }

  lemma FromGrowing(src: array<byte>, dst: array<byte>, s: nat, d: nat, send: nat, grows: bool, dend: nat,
                    out: seq<Point>, rest: seq<Point>)
    requires Growing(src, dst, s, d, send, grows, dend, out, rest)
    ensures Written(dst, d, out) && |EncodeAll(out)| == d <= dst.Length
    ensures s <= send < src.Length && src[s..send] == EncodeAll(rest)
    ensures !grows ==> dst == src && d <= s && dend == send
  {
  }

  /** Where a pass stands after `i` characters; in place the output has not overtaken the reading
      before. */
  ghost predicate Standing(j: Job, pts: seq<Point>, i: nat, src: array<byte>, dst: array<byte>, s: nat, d: nat,
                           send: nat, grows: bool, dend: nat)
    reads src, dst
  {
    && i <= |pts| && s == |EncodeAll(pts[..i])| && send == |EncodeAll(pts)| < src.Length
    && Written(dst, d, j.Passed(pts[..i]).out)
    && (grows || d <= s ==> Growing(src, dst, s, d, send, grows, dend, j.Passed(pts[..i]).out, pts[i..]))
    && (!grows ==> dst == src && dend == send && forall k :: 0 <= k < i ==> !Over(j, pts, k))
  }

  lemma Starts(j: Job, pts: seq<Point>, src: array<byte>, dst: array<byte>, send: nat, grows: bool, dend: nat)
    requires Growing(src, dst, 0, 0, send, grows, dend, [], pts)
    ensures Standing(j, pts, 0, src, dst, 0, 0, send, grows, dend) && j.Passed(pts[..0]) == Pass([], NO_RUN, 0)
  {
    assert pts[..0] == [] && pts[0..] == pts;
    assert src[0..send] == EncodeAll(pts);
  }

  lemma PositionNext(pts: seq<Point>, i: nat)
    requires i < |pts|
    ensures |EncodeAll(pts[..i + 1])| == |EncodeAll(pts[..i])| + Skip(pts[i]) <= |EncodeAll(pts)|
  {
    assert pts[..i + 1] == pts[..i] + [pts[i]];
    EncodeSnoc(pts[..i], pts[i]);
    assert pts == pts[..i + 1] + pts[i + 1..];
    EncodeConcat(pts[..i + 1], pts[i + 1..]);
  }

  /** A turn from a place where the output is not ahead. */
  lemma StandsNext(j: Job, pts: seq<Point>, i: nat, src: array<byte>, dst: array<byte>, s: nat, d: nat, s': nat,
                   d': nat, send: nat, grows: bool, dend: nat, room: bool)
    requires i < |pts| && s == |EncodeAll(pts[..i])| && send == |EncodeAll(pts)| < src.Length && s' == s + Skip(pts[i])
    requires !grows ==> d <= s && d == |EncodeAll(j.Passed(pts[..i]).out)|
    requires !grows ==> dst == src && dend == send && forall k :: 0 <= k < i ==> !Over(j, pts, k)
    requires var q := PassStep(j.Passed(pts[..i]), pts[i], j.Act(pts[i]), j.Squashes(), false);
             Turned(src, dst, s', d', send, grows, dend, q.out, pts[i..][1..], room)
    ensures j.Passed(pts[..i + 1]) == PassStep(j.Passed(pts[..i]), pts[i], j.Act(pts[i]), j.Squashes(), false)
    ensures room ==> Standing(j, pts, i + 1, src, dst, s', d', send, grows, dend)
    ensures !room ==> !grows && FateOf(j, pts, src.Length, true) == Overrun
  {
    PassedNext(j, pts, i);
    PositionNext(pts, i);
    assert pts[i..][1..] == pts[i + 1..];
    hide EncodeAll, Job.Passed, PassStep, Growing, Turned, Standing, FateOf, Over;
    if room {
      StandsInRoom(j, pts, i, src, dst, s, s', d', send, grows, dend);
    } else {
      RunsOut(j, pts, i, src, dst, s, s', d', send, grows, dend);
    }
  }

  lemma StandsInRoom(j: Job, pts: seq<Point>, i: nat, src: array<byte>, dst: array<byte>, s: nat, s': nat, d': nat,
                     send: nat, grows: bool, dend: nat)
    requires i < |pts| && s' == |EncodeAll(pts[..i + 1])| && send == |EncodeAll(pts)| < src.Length
    requires !grows ==> s == |EncodeAll(pts[..i])| >= |EncodeAll(j.Passed(pts[..i]).out)|
    requires !grows ==> dst == src && dend == send && forall k :: 0 <= k < i ==> !Over(j, pts, k)
    requires Turned(src, dst, s', d', send, grows, dend, j.Passed(pts[..i + 1]).out, pts[i + 1..], true)
    ensures Standing(j, pts, i + 1, src, dst, s', d', send, grows, dend)
  {
    hide EncodeAll, Job.Passed, Growing, Written;
  }

  lemma RunsOut(j: Job, pts: seq<Point>, i: nat, src: array<byte>, dst: array<byte>, s: nat, s': nat, d': nat,
                send: nat, grows: bool, dend: nat)
    requires i < |pts| && |EncodeAll(pts[..i + 1])| <= |EncodeAll(pts)| < src.Length
    requires !grows ==> s == |EncodeAll(pts[..i])| >= |EncodeAll(j.Passed(pts[..i]).out)|
    requires !grows ==> dst == src && forall k :: 0 <= k < i ==> !Over(j, pts, k)
    requires Turned(src, dst, s', d', send, grows, dend, j.Passed(pts[..i + 1]).out, pts[i + 1..], false)
    ensures !grows && FateOf(j, pts, src.Length, true) == Overrun
  {
    hide EncodeAll, Job.Passed, Growing, Written;
    FirstIs(j, pts, i + 1);
  }

  lemma FirstIs(j: Job, pts: seq<Point>, m: nat)
    requires m <= |pts| && Over(j, pts, m) && forall k :: 0 <= k < m ==> !Over(j, pts, k)
    ensures FirstOver(j, pts, 0) == m
  {
  }

  lemma NeverFirst(j: Job, pts: seq<Point>)
    requires forall k :: 0 <= k <= |pts| ==> !Over(j, pts, k)
    ensures FirstOver(j, pts, 0) == |pts| + 1
  {
  }

  /** A pass in place stops where its output is ahead, before the end. */
  lemma StopsAhead(j: Job, pts: seq<Point>, i: nat, src: array<byte>, dst: array<byte>, s: nat, d: nat, send: nat,
                   dend: nat)
    requires Standing(j, pts, i, src, dst, s, d, send, false, dend) && d > s && (j.Simple? || s < send)
    ensures FateOf(j, pts, src.Length, true) == if d > dend then Panic else Overtaken
  {
    FirstIs(j, pts, i);
    assert pts[..|pts|] == pts;
  }

  /** At the end everything is read. */
  lemma StandsAtEnd(j: Job, pts: seq<Point>, i: nat, src: array<byte>, dst: array<byte>, s: nat, d: nat, send: nat,
                    grows: bool, dend: nat)
    requires Standing(j, pts, i, src, dst, s, d, send, grows, dend) && s >= send && (j.Complex? || grows || d <= s)
    ensures i == |pts| && pts[..i] == pts && Written(dst, d, j.Passed(pts).out)
    ensures !grows ==> FateOf(j, pts, src.Length, true) == Complete
    ensures !grows && d <= s ==> FirstOver(j, pts, 0) == |pts| + 1
    ensures !grows && d > s ==> FirstOver(j, pts, 0) == |pts|
  {
    if i < |pts| {
      PositionNext(pts, i);
      assert false;
    }
    assert pts[..i] == pts;
    if !grows {
      if d > s {
        FirstIs(j, pts, i);
      } else {
        NeverFirst(j, pts);
      }
    }
  }

  /** One turn, and the check of the limit that follows it. */
  method SimpleRound(src: array<byte>, dst: array<byte>, s: nat, d: nat, send: nat, grows: bool, dend: nat,
                     w: Swash, matches: nat, ghost pts: seq<Point>, ghost i: nat)
      returns (fate: Fate, s': nat, d': nat, dst': array<byte>, dend': nat, matches': nat)
    requires Standing(Simple(w), pts, i, src, dst, s, d, send, grows, dend)
    requires s < send && d <= dend && (grows || d <= s) && matches == SimpleCount(Simple(w).Acts(pts)[..i])
    modifies dst
    ensures (dst' == dst || fresh(dst')) && (!grows ==> dst' == dst) && s < s'
    ensures fate.Complete? ==>
              && i < |pts| && Standing(Simple(w), pts, i + 1, src, dst', s', d', send, grows, dend')
              && d' <= dend' && (grows || d' <= s') && matches' == SimpleCount(Simple(w).Acts(pts)[..i + 1])
    ensures !fate.Complete? ==> !grows && fate == FateOf(Simple(w), pts, src.Length, true)
  {
    hide EncodeAll, Growing, Job.Passed, PassStep, FateOf, Over, Written, SimpleCount;
    ghost var j := Simple(w);
    ghost var p := j.Passed(pts[..i]);
    FromStanding(j, pts, i, src, dst, s, d, send, grows, dend);
    var room, panic;
    fate, dst', dend' := Complete, dst, dend;
    s', d', matches', room := SimpleTurn(src, dst, s, d, send, grows, dend, w, matches, p, pts[i..]);
    StandsNext(j, pts, i, src, dst, s, d, s', d', send, grows, dend, room);
    if !room {
      fate := Overrun;
      return;
    }
    CountedSoFar(j.Acts(pts), i + 1);
    dst', dend', panic := Regrow(src, dst, s', d', send, grows, dend, j.Passed(pts[..i + 1]).out, pts[i + 1..]);
    if !grows && d' > s' {
      StopsAhead(j, pts, i + 1, src, dst', s', d', send, dend');
      fate := if panic then Panic else Overtaken;
    }
  }

  method SimpleLoop(src: array<byte>, dst0: array<byte>, send: nat, grows: bool, dend0: nat, w: Swash,
                    ghost pts: seq<Point>) returns (fate: Fate, matches: nat, dst: array<byte>, d: nat)
    requires Growing(src, dst0, 0, 0, send, grows, dend0, [], pts)
    modifies dst0
    ensures fate == if grows then Complete else FateOf(Simple(w), pts, src.Length, true)
    ensures (dst == dst0 || fresh(dst)) && (!grows ==> dst == src)
    ensures fate.Complete? ==> Written(dst, d, Simple(w).Passed(pts).out) && (!grows ==> d <= send)
    ensures fate.Complete? ==> matches == SimpleCount(Simple(w).Acts(pts))
  {
    ghost var j := Simple(w);
    ghost var acts := j.Acts(pts);
    fate, matches, dst, d := Complete, 0, dst0, 0;
    var s, dend := 0, dend0;
    ghost var i := 0;
    Starts(j, pts, src, dst, send, grows, dend);
    StandingIs(j, pts, i, src, dst, s, d, send, grows, dend);
    CountedSoFar(acts, 0);
    hide EncodeAll, Growing, Job.Passed, PassStep, Skip, FateOf, Over, Written, SimpleCount, Standing;
    while s < send
      invariant fate.Complete? && i <= |pts| && d <= dend && (grows || (d <= s && dst == src == dst0))
      invariant dst == dst0 || fresh(dst)
      invariant matches == SimpleCount(acts[..i])
      invariant Standing(j, pts, i, src, dst, s, d, send, grows, dend)
      decreases send - s
    {
      fate, s, d, dst, dend, matches := SimpleRound(src, dst, s, d, send, grows, dend, w, matches, pts, i);
      if !fate.Complete? {
        return;
      }
      i := i + 1;
    }
    StandsAtEnd(j, pts, i, src, dst, s, d, send, grows, dend);
    assert acts[..i] == acts;
  }

  lemma StandingIs(j: Job, pts: seq<Point>, i: nat, src: array<byte>, dst: array<byte>, s: nat, d: nat, send: nat,
                   grows: bool, dend: nat)
    requires Standing(j, pts, i, src, dst, s, d, send, grows, dend)
    ensures i <= |pts| && (!grows ==> dst == src && dend == send)
  {
  }

  lemma CountedSoFar(acts: seq<Action>, n: nat)
    requires n <= |acts|
    ensures SimpleCount(acts[..n]) == if n == 0 then 0 else SimpleCount(acts[..n - 1]) + BoolVal(acts[n - 1].Put?)
  {
    if n > 0 {
      assert acts[..n][..n - 1] == acts[..n - 1];
    }
  }

  lemma FromStanding(j: Job, pts: seq<Point>, i: nat, src: array<byte>, dst: array<byte>, s: nat, d: nat, send: nat,
                     grows: bool, dend: nat)
    requires Standing(j, pts, i, src, dst, s, d, send, grows, dend) && (grows || d <= s)
    ensures Growing(src, dst, s, d, send, grows, dend, j.Passed(pts[..i]).out, pts[i..])
    ensures d == |EncodeAll(j.Passed(pts[..i]).out)|
  {
  }

  /** One turn of the loops of do_trans_complex_utf8. */
  method ComplexTurn(src: array<byte>, dst: array<byte>, s: nat, d: nat, send: nat, grows: bool, dend: nat,
                     w: Swash, del: bool, squash: bool, puv: Point, matches: nat,
                     ghost p: Pass, ghost rest: seq<Point>)
      returns (s': nat, d': nat, puv': Point, matches': nat, room: bool)
    requires s < send && Growing(src, dst, s, d, send, grows, dend, p.out, rest) && d <= dend
    requires puv == p.pch && matches == p.matches
    modifies dst
    ensures rest != [] && s' == s + Skip(rest[0]) <= send
    ensures var q := PassStep(p, rest[0], ComplexSwash(w, del, squash, rest[0]), squash, false);
            && Turned(src, dst, s', d', send, grows, dend, q.out, rest[1..], room)
            && (room ==> puv' == q.pch && matches' == q.matches)
  {
    hide EncodeAll, Skip;
    var c, i := ReadChar(src, s, send, rest);
    assert rest == [c] + rest[1..];
    hide Growing;
    AfterReadGrowing(src, dst, s, d, send, grows, dend, c, p.out, rest[1..]);
    FromGrowing(src, dst, s + i, d, send, grows, dend, p.out, rest[1..]);
    s', d', puv', matches', room := s + i, d, puv, matches, true;
    var uv := w.fetch(c);
    if uv == w.none {
      d' := CopyGrowing(src, dst, s, d, send, grows, dend, i, c, p.out, rest[1..]);
      FromGrowing(src, dst, s', d', send, grows, dend, p.out + [c], rest[1..]);
      puv' := NO_RUN;
      return;
    }
    matches' := matches + 1;
    if uv < w.none || (uv == w.none + 1 && !del) {
      var ch := if uv < w.none then uv else if w.final.Some? then w.final.value else if squash then c else 0;
      if !squash || ch != puv {
        d', room := WriteGrowing(src, dst, s, d, send, grows, dend, ch, c, p.out, rest[1..]);
        puv' := ch;
      }
    }
  }

  method ComplexLoop(src: array<byte>, dst0: array<byte>, send: nat, grows: bool, dend0: nat, w: Swash,
                     del: bool, squash: bool, ghost pts: seq<Point>)
      returns (fate: Fate, matches: nat, dst: array<byte>, d: nat)
    requires Growing(src, dst0, 0, 0, send, grows, dend0, [], pts)
    modifies dst0
    ensures fate == if grows then Complete else FateOf(Complex(w, del, squash), pts, src.Length, true)
    ensures (dst == dst0 || fresh(dst)) && (!grows ==> dst == src)
    ensures fate.Complete? ==>
              var p := Complex(w, del, squash).Passed(pts); Written(dst, d, p.out) && matches == p.matches
  {
    ghost var j := Complex(w, del, squash);
    fate, matches, dst, d := Complete, 0, dst0, 0;
    var s, dend, puv, room, panic := 0, dend0, NO_RUN, true, false;
    ghost var i := 0;
    Starts(j, pts, src, dst, send, grows, dend);
    hide EncodeAll, Growing, Job.Passed, PassStep, Skip, FateOf, Over, Written;
    while s < send
      invariant i <= |pts| && s <= send
      invariant dst == dst0 || fresh(dst)
      invariant puv == j.Passed(pts[..i]).pch && matches == j.Passed(pts[..i]).matches
      invariant Standing(j, pts, i, src, dst, s, d, send, grows, dend)
      decreases send - s
    {
      ghost var p, s0 := j.Passed(pts[..i]), s;
      dst, dend, panic := Regrow(src, dst, s, d, send, grows, dend, p.out, pts[i..]);
      if !grows && d > s {
        StopsAhead(j, pts, i, src, dst, s, d, send, dend);
        fate := if panic then Panic else Overtaken;
        return;
      }
      FromStanding(j, pts, i, src, dst, s, d, send, grows, dend);
      ghost var d0 := d;
      s, d, puv, matches, room :=
        ComplexTurn(src, dst, s, d, send, grows, dend, w, del, squash, puv, matches, p, pts[i..]);
      StandsNext(j, pts, i, src, dst, s0, d0, s, d, send, grows, dend, room);
      if !room {
        fate := Overrun;
        return;
      }
      i := i + 1;
    }
    StandsAtEnd(j, pts, i, src, dst, s, d, send, grows, dend);
  }

  // ----- do_trans_simple_utf8 and do_trans_complex_utf8 -----

  /** Whether the bytes of a string must be upgraded first. */
  predicate NeedsUpgrade(s: seq<byte>, isUtf8: bool) {
    !isUtf8 && exists i :: 0 <= i < |s| && s[i] >= 0x80
  }

  /** bytes_to_utf8, unless the string is UTF-8 already or all ASCII. */
  method Source(sv: Buffer, isUtf8: bool, ghost pts: seq<Point>) returns (src: array<byte>, len: nat, hibit: bool)
    requires sv.Valid() && StandsFor(sv.Contents(), isUtf8, pts) && 2 * sv.cur < SSIZE_MAX
    ensures len < src.Length <= SSIZE_MAX && src[..len] == EncodeAll(pts) && len <= 2 * sv.cur
    ensures hibit == NeedsUpgrade(sv.Contents(), isUtf8)
    ensures if hibit then fresh(src) && src.Length == len + 1 else src == sv.buf && len == sv.cur
  {
    src, len := sv.buf, sv.cur;
    hibit := !isUtf8 && exists i :: 0 <= i < sv.cur && sv.buf[i] >= 0x80;
    if hibit {
      var bytes := EncodeAll(Points(sv.buf[..sv.cur]));
      UpgradeBound(sv.buf[..sv.cur]);
      len := |bytes|;
      src := new byte[len + 1];
      forall k | 0 <= k < len {
        src[k] := bytes[k];
      }
      src[len] := 0;
    } else if !isUtf8 {
      AsciiIsUtf8(sv.Contents());
    }
  }

  /** The output buffer of a pass and its soft limit. */
  method Target(src: array<byte>, len: nat, grows: bool, ghost pts: seq<Point>) returns (dst: array<byte>, dend: nat)
    requires len < src.Length && src[..len] == EncodeAll(pts)
    ensures Growing(src, dst, 0, 0, len, grows, dend, [], pts)
    ensures if grows then fresh(dst) else dst == src
  {
    dst, dend := src, len;
    if grows {
      dst, dend := new byte[len * 3 + UTF8_MAXBYTES], len * 3;
    }
    assert src[0..len] == EncodeAll(pts);
  }

  /** How a call ends for a string with these contents in a buffer of `room` bytes. */
  function CallFate(j: Job, contents: seq<byte>, isUtf8: bool, room: nat, grows: bool, pts: seq<Point>): Fate {
    if grows then Complete
    else if NeedsUpgrade(contents, isUtf8) then FateOf(j, pts, |EncodeAll(pts)| + 1, true)
    else FateOf(j, pts, room, false)
  }

  /** With a buffer of its own every call is complete; without one it ends as the pass does, in the
      block of the upgraded copy, which has one byte more than that, or in the string's own. */
  lemma CallFateIs(j: Job, s: seq<byte>, isUtf8: bool, room: nat, grows: bool, pts: seq<Point>)
    ensures grows ==> CallFate(j, s, isUtf8, room, grows, pts) == Complete
    ensures !grows && !isUtf8 && (exists i :: 0 <= i < |s| && s[i] >= 0x80) ==>
              CallFate(j, s, isUtf8, room, grows, pts) == FateOf(j, pts, |EncodeAll(pts)| + 1, true)
    ensures !grows && (isUtf8 || forall i :: 0 <= i < |s| ==> s[i] < 0x80) ==>
              CallFate(j, s, isUtf8, room, grows, pts) == FateOf(j, pts, room, false)
  {
    hide FateOf, EncodeAll;
  }

  /** How a pass ends where no output is ahead of the reading, and where one is at the end. */
  lemma FateIs(j: Job, s: seq<Point>, room: nat, copied: bool)
    ensures (forall i :: 0 <= i <= |s| ==> !Over(j, s, i)) ==> FateOf(j, s, room, copied) == Complete
    ensures forall m :: 0 <= m <= |s| && Over(j, s, m) && (forall i :: 0 <= i < m ==> !Over(j, s, i)) ==>
              var d := |EncodeAll(j.Passed(s[..m]).out)|;
              FateOf(j, s, room, copied)
              == if d > room then Overrun
                 else if m < |s| || j.Simple? then if d > |EncodeAll(s)| then Panic else Overtaken
                 else if copied || d < room then Complete else Overrun
  {
    hide EncodeAll, Job.Passed, Over, FirstOver;
    forall m | 0 <= m <= |s| && Over(j, s, m) && forall i :: 0 <= i < m ==> !Over(j, s, i)
      ensures FirstOver(j, s, 0) == m
    {
      FirstIs(j, s, m);
    }
    if forall i :: 0 <= i <= |s| ==> !Over(j, s, i) {
      NeverFirst(j, s);
    }
  }

  /** No character needs the UTF-8 flag. */
  predicate IsAscii(pts: seq<Point>) {
    forall i :: 0 <= i < |pts| ==> pts[i] < 0x80
  }

  /** An encoding that is read without the UTF-8 flag is the string it encodes exactly if that is
      ASCII. */
  lemma {:induction false} ReadAsBytes(pts: seq<Point>)
    ensures IsAscii(pts) <==> |EncodeAll(pts)| == |pts|
    ensures IsAscii(pts) <==> Points(EncodeAll(pts)) == pts
  {
    hide Encode;
    if pts != [] {
      var c, rest := pts[0], pts[1..];
      ReadAsBytes(rest);
      NotShorter(rest);
      AsciiFirst(c, rest);
      assert EncodeAll(pts) == Encode(c) + EncodeAll(rest);
      hide EncodeAll, IsAscii;
      assert pts == [c] + rest;
      if c < 0x80 && IsAscii(rest) {
        EncodeLatin(c);
        BytesFirst(c, EncodeAll(rest), rest);
      }
    }
  }

  lemma AsciiFirst(c: Point, rest: seq<Point>)
    ensures IsAscii([c] + rest) <==> c < 0x80 && IsAscii(rest)
  {
    if IsAscii([c] + rest) {
      assert ([c] + rest)[0] == c;
      forall i | 0 <= i < |rest|
        ensures rest[i] < 0x80
      {
        assert ([c] + rest)[i + 1] == rest[i];
      }
    }
  }

  lemma BytesFirst(c: byte, s: seq<byte>, rest: seq<Point>)
    requires Points(s) == rest
    ensures Points([c] + s) == [c as Point] + rest
  {
  }

  /** How a string is flagged and whether it is what it should be, `out`. The result is UTF-8, or
      written over a string that was not flagged, which stays so. */
  ghost predicate Flagged(sv: Buffer, was: seq<byte>, isUtf8: bool, grows: bool, utf8: bool, out: seq<Point>)
    reads sv, sv.buf
  {
    && (utf8 <==> isUtf8 || grows || exists i :: 0 <= i < |was| && was[i] >= 0x80)
    && sv.Valid() && sv.Contents() == EncodeAll(out)
    && (StandsFor(sv.Contents(), utf8, out) <==> utf8 || IsAscii(out))
  }

  /** Transliterates in place or into a buffer of its own. The memory for the result is taken to be
      there; `utf8` is the flag afterwards. */
  method TransliterateSimple(sv: Buffer, isUtf8: bool, w: Swash, grows: bool, ghost pts: seq<Point>)
      returns (fate: Fate, matches: nat, utf8: bool)
    requires sv.Valid() && StandsFor(sv.Contents(), isUtf8, pts) && 2 * sv.cur < SSIZE_MAX
    requires |EncodeAll(Simple(w).Passed(pts).out)| < SSIZE_MAX
    modifies sv, sv.buf
    ensures fate == CallFate(Simple(w), old(sv.Contents()), isUtf8, old(sv.buf.Length), grows, pts)
    ensures sv.buf == old(sv.buf) || fresh(sv.buf)
    ensures fate.Complete? ==>
              Flagged(sv, old(sv.Contents()), isUtf8, grows, utf8, Simple(w).Passed(pts).out)
    ensures fate.Complete? ==> matches == SimpleCount(Simple(w).Acts(pts))
  {
    hide FateOf, EncodeAll, Job.Passed, Job.Acts, SimpleCount, IsAscii;
    utf8 := isUtf8;
    var src, len, hibit := Source(sv, isUtf8, pts);
    var dst, dend := Target(src, len, grows, pts);
    var d;
    fate, matches, dst, d := SimpleLoop(src, dst, len, grows, dend, w, pts);
    SimpleIgnoresCopy(w, pts, src.Length);
    if fate.Complete? {
      Finish(sv, dst, d, grows || hibit);
      utf8 := isUtf8 || grows || hibit;
      ReadAsBytes(Simple(w).Passed(pts).out);
    }
  }

  lemma SimpleIgnoresCopy(w: Swash, pts: seq<Point>, room: nat)
    ensures FateOf(Simple(w), pts, room, true) == FateOf(Simple(w), pts, room, false)
  {
  }

  method TransliterateComplex(sv: Buffer, isUtf8: bool, w: Swash, del: bool, squash: bool, grows: bool,
                              ghost pts: seq<Point>) returns (fate: Fate, matches: nat, utf8: bool)
    requires sv.Valid() && StandsFor(sv.Contents(), isUtf8, pts) && 2 * sv.cur < SSIZE_MAX
    requires |EncodeAll(Complex(w, del, squash).Passed(pts).out)| < SSIZE_MAX
    modifies sv, sv.buf
    ensures fate == CallFate(Complex(w, del, squash), old(sv.Contents()), isUtf8, old(sv.buf.Length), grows, pts)
    ensures sv.buf == old(sv.buf) || fresh(sv.buf)
    ensures fate.Complete? ==>
              var p := Complex(w, del, squash).Passed(pts);
              Flagged(sv, old(sv.Contents()), isUtf8, grows, utf8, p.out) && matches == p.matches
  {
    hide FateOf;
    utf8 := isUtf8;
    var src, len, hibit := Source(sv, isUtf8, pts);
    var dst, dend := Target(src, len, grows, pts);
    var d;
    fate, matches, dst, d := ComplexLoop(src, dst, len, grows, dend, w, del, squash, pts);
    ComplexNeedsNul(Complex(w, del, squash), pts, src.Length, len);
    if fate.Complete? {
      if grows || hibit || d < dst.Length {
        Finish(sv, dst, d, grows || hibit);
        utf8 := isUtf8 || grows || hibit;
        ReadAsBytes(Complex(w, del, squash).Passed(pts).out);
      } else {
        fate := Overrun;
      }
    }
  }

  /** Where the output is not copied, its NUL must fit too. */
  lemma ComplexNeedsNul(j: Job, pts: seq<Point>, room: nat, len: nat)
    requires j.Complex? && len == |EncodeAll(pts)| < room
    ensures var f := FateOf(j, pts, room, true);
            FateOf(j, pts, room, false)
            == if f == Complete && |EncodeAll(j.Passed(pts).out)| >= room then Overrun else f
  {
    assert pts[..|pts|] == pts;
    assert FirstOver(j, pts, 0) > |pts| ==> !Over(j, pts, |pts|);
  }
}
