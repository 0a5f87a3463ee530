/** What tr/// means on a list of characters, and the branches of doop.c for byte strings. */
module Trans {
  import opened Bits
  import opened Common
  import opened Utf8
  import opened PerlString

  // ----- Tables -----

  /** An OPtrans_map: `entries` has an entry for every character below `size`, at least 256 of them,
      and one more for all others. An entry is the replacement, or -1 for a character that is
      kept, -2 for one that is deleted; only the last entry may be -3, for a character that
      replaces itself. */
  datatype Table = Table(entries: seq<int>) {
    predicate Valid() {
      && |entries| >= 257
      && (forall i :: 0 <= i < |entries| ==> -3 <= entries[i] <= 0xFF)
      && (forall i :: 0 <= i < |entries| - 1 ==> entries[i] != -3)
    }

    function Size(): int { |entries| - 1 }

    function Entry(c: Point): int
      requires Valid()
    {
      entries[if c >= Size() then Size() else c]
    }
  }

  // ----- The meaning of a transliteration -----

  datatype Action = Keep | Delete | Put(ch: Point)

  /** With /c, /d or /s. */
  function ComplexAction(t: Table, c: Point): Action
    requires t.Valid()
  {
    var e := t.Entry(c);
    if e >= 0 then Put(e) else if e == -1 then Keep else if e == -2 then Delete else Put(c)
  }

  /** Without: only characters below 256 are ever replaced, and nothing is deleted. */
  function SimpleAction(t: Table, c: Point): Action
    requires t.Valid()
  {
    if c < 0x100 && t.entries[c] >= 0 then Put(t.entries[c]) else Keep
  }

  function Actions(t: Table, simple: bool, s: seq<Point>): (r: seq<Action>)
    requires t.Valid()
    ensures |r| == |s|
    ensures forall i :: 0 <= i < |s| ==> r[i] == if simple then SimpleAction(t, s[i]) else ComplexAction(t, s[i])
  {
    seq(|s|, i requires 0 <= i < |s| => if simple then SimpleAction(t, s[i]) else ComplexAction(t, s[i]))
  }

  /** `run` is the last output if that was a replacement and the run it began is still on. */
  datatype Progress = Progress(out: seq<Point>, run: Option<Point>, matches: nat)

  const START := Progress([], None, 0)

  /** How a translation goes on. `ends` tells whether a deleted character ends a run. */
  function Step(p: Progress, c: Point, a: Action, squash: bool, ends: bool): Progress {
    match a
    case Keep => Progress(p.out + [c], None, p.matches)
    case Delete => Progress(p.out, if ends then None else p.run, p.matches + 1)
    case Put(ch) =>
      if squash && p.run == Some(ch) then p.(matches := p.matches + 1)
      else Progress(p.out + [ch], Some(ch), p.matches + 1)
  }

  function Translate(s: seq<Point>, acts: seq<Action>, squash: bool, ends: bool): Progress
    requires |acts| == |s|
  {
    if s == [] then START
    else var n := |s| - 1;
         Step(Translate(s[..n], acts[..n], squash, ends), s[n], acts[n], squash, ends)
  }

  // ----- The same, character by character -----

  /** Under squash a replacement is dropped exactly if the last output is a replacement too and
      the same. Deleted characters do not count, unless they end runs. */
  predicate Dropped(acts: seq<Action>, i: nat, ends: bool)
    requires i < |acts|
  {
    acts[i].Put? && LastPut(acts[..i], ends) == Some(acts[i].ch)
  }

  /** The replacement that the output ends in after these actions, if it ends in one. */
  function LastPut(acts: seq<Action>, ends: bool): Option<Point> {
    if acts == [] then None else
    match acts[|acts| - 1]
    case Keep => None
    case Delete => if ends then None else LastPut(acts[..|acts| - 1], ends)
    case Put(ch) => Some(ch)
  }

  /** The outputs of a list of characters, one after the other. */
  function Outputs(s: seq<Point>, acts: seq<Action>, squash: bool, ends: bool): seq<Point>
    requires |acts| == |s|
  {
    if s == [] then [] else
    var n := |s| - 1;
    var before := Outputs(s[..n], acts[..n], squash, ends);
    if acts[n].Delete? || (squash && Dropped(acts, n, ends)) then before
    else before + [if acts[n].Put? then acts[n].ch else s[n]]
  }

  function MatchedCount(acts: seq<Action>): nat {
    if acts == [] then 0 else MatchedCount(acts[..|acts| - 1]) + BoolVal(!acts[|acts| - 1].Keep?)
  }

  function DeletedCount(acts: seq<Action>): nat {
    if acts == [] then 0 else DeletedCount(acts[..|acts| - 1]) + BoolVal(acts[|acts| - 1].Delete?)
  }

  function DroppedCount(acts: seq<Action>, ends: bool): nat {
    if acts == [] then 0
    else DroppedCount(acts[..|acts| - 1], ends) + BoolVal(Dropped(acts, |acts| - 1, ends))
  }

  /** A translation outputs every character that is neither deleted nor squashed, replaced if
      it is mapped, counts every character that is not kept, and shortens the list by what it
      deletes and squashes. */
  lemma {:induction false} TranslateIsListwise(s: seq<Point>, acts: seq<Action>, squash: bool, ends: bool)
    requires |acts| == |s|
    ensures var p := Translate(s, acts, squash, ends);
            && p.out == Outputs(s, acts, squash, ends) && p.run == LastPut(acts, ends)
            && p.matches == MatchedCount(acts)
            && |p.out| == |s| - DeletedCount(acts) - (if squash then DroppedCount(acts, ends) else 0)
  {
    if s != [] {
      TranslateIsListwise(s[..|s| - 1], acts[..|s| - 1], squash, ends);
    }
  }

  // ----- do_trans_simple, do_trans_count and do_trans_complex on byte strings -----

  /** Bytes transliterated as the characters they stand for. */
  function TranslateBytes(t: Table, simple: bool, s: seq<byte>, squash: bool): Progress
    requires t.Valid()
  {
    Translate(Points(s), Actions(t, simple, Points(s)), squash, false)
  }

  lemma ActionsPrefix(t: Table, simple: bool, s: seq<Point>, n: nat)
    requires t.Valid() && n <= |s|
    ensures Actions(t, simple, s)[..n] == Actions(t, simple, s[..n])
  {
  }

  lemma TranslateNext(t: Table, simple: bool, s: seq<byte>, squash: bool, n: nat)
    requires t.Valid() && n < |s|
    ensures TranslateBytes(t, simple, s[..n + 1], squash)
         == Step(TranslateBytes(t, simple, s[..n], squash), s[n],
                 if simple then SimpleAction(t, s[n]) else ComplexAction(t, s[n]), squash, false)
  {
    var a := Points(s[..n + 1]);
    assert a[..n] == Points(s[..n]);
    ActionsPrefix(t, simple, a, n);
  }

  /** The byte branch of do_trans_simple: every character is replaced where it stands. */
  method SimpleBytes(sv: Buffer, t: Table) returns (matches: nat)
    requires sv.Valid() && t.Valid()
    modifies sv.buf
    ensures sv.Valid() && sv.buf == old(sv.buf) && sv.cur == old(sv.cur)
    ensures var p := TranslateBytes(t, true, old(sv.Contents()), false);
            Points(sv.Contents()) == p.out && matches == p.matches
  {
    ghost var s0 := sv.Contents();
    matches := 0;
    var s, send := 0, sv.cur;
    while s < send
      invariant 0 <= s <= send == sv.cur && sv.Valid()
      invariant forall k :: s <= k < send ==> sv.buf[k] == s0[k]
      invariant var p := TranslateBytes(t, true, s0[..s], false);
                Points(sv.buf[..s]) == p.out && matches == p.matches
    {
      TranslateNext(t, true, s0, false, s);
      ghost var before := Points(sv.buf[..s]);
      var ch := t.entries[sv.buf[s]];
      if ch >= 0 {
        matches := matches + 1;
        sv.buf[s] := ch;
      }
      s := s + 1;
      assert Points(sv.buf[..s]) == before + [sv.buf[s - 1]];
    }
    assert s0[..s] == s0;
  }

  /** The byte branch of do_trans_count: the string is only read. */
  method CountBytes(sv: Buffer, t: Table) returns (matches: nat)
    requires sv.Valid() && t.Valid()
    ensures matches == TranslateBytes(t, true, sv.Contents(), false).matches
  {
    ghost var s0 := sv.Contents();
    matches := 0;
    var s := 0;
    while s < sv.cur
      invariant 0 <= s <= sv.cur
      invariant matches == TranslateBytes(t, true, s0[..s], false).matches
    {
      TranslateNext(t, true, s0, false, s);
      if t.entries[sv.buf[s]] >= 0 {
        matches := matches + 1;
      }
      s := s + 1;
    }
    assert s0[..s] == s0;
  }

  /** The byte branch of do_trans_complex: the output overwrites the part of the string that
      has been read. */
  method ComplexBytes(sv: Buffer, t: Table, squash: bool) returns (matches: nat)
    requires sv.Valid() && t.Valid()
    modifies sv, sv.buf
    ensures sv.Valid() && sv.buf == old(sv.buf)
    ensures var p := TranslateBytes(t, false, old(sv.Contents()), squash);
            Points(sv.Contents()) == p.out && matches == p.matches
  {
    var d;
    if squash {
      matches, d := CompactSquashed(sv.buf, sv.cur, t);
    } else {
      matches, d := Compact(sv.buf, sv.cur, t);
    }
    sv.buf[d] := 0;
    sv.cur := d;
  }

  method Compact(buf: array<byte>, send: nat, t: Table) returns (matches: nat, d: nat)
    requires send < buf.Length && t.Valid()
    modifies buf
    ensures d <= send
    ensures var p := TranslateBytes(t, false, old(buf[..send]), false);
            Points(buf[..d]) == p.out && matches == p.matches
  {
    ghost var s0 := buf[..send];
    matches, d := 0, 0;
    var s := 0;
    assert TranslateBytes(t, false, s0[..0], false) == START;
    hide TranslateBytes;
    while s < send
      invariant 0 <= d <= s <= send
      invariant forall k :: s <= k < send ==> buf[k] == s0[k]
      invariant var p := TranslateBytes(t, false, s0[..s], false);
                Points(buf[..d]) == p.out && matches == p.matches
    {
      TranslateNext(t, false, s0, false, s);
      ghost var out := Points(buf[..d]);
      var c := buf[s];
      var ch := t.entries[c];
      if ch >= 0 {
        matches := matches + 1;
        d := Emit(buf, d, ch, out);
      } else if ch == -1 {
        d := Emit(buf, d, c, out);
      } else if ch == -2 {
        matches := matches + 1;
      }
      s := s + 1;
    }
    assert s0[..s] == s0;
  }

  /** `*d++ = ch` */
  method Emit(buf: array<byte>, d: nat, ch: byte, ghost out: seq<Point>) returns (d': nat)
    requires d < buf.Length && Points(buf[..d]) == out
    modifies buf
    ensures d' == d + 1 && Points(buf[..d']) == out + [ch]
    ensures forall k :: 0 <= k < buf.Length ==> buf[k] == if k == d then ch else old(buf[k])
  {
    buf[d] := ch;
    d' := d + 1;
  }

  /** A replacement is written, and stays unless it repeats the one written at `p` just before. */
  method EmitSquashed(buf: array<byte>, d: nat, p: nat, ch: byte, ghost out: seq<Point>) returns (p': nat, d': nat)
    requires d < buf.Length && p != d && Points(buf[..d]) == out
    modifies buf
    ensures forall k :: 0 <= k < buf.Length ==> buf[k] == if k == d then ch else old(buf[k])
    ensures if p == d - 1 && old(buf[p]) == ch then p' == p && d' == d && Points(buf[..d']) == out
            else p' == d && d' == d + 1 && Points(buf[..d']) == out + [ch]
  {
    p', d' := p, d;
    buf[d] := ch;
    if p != d - 1 || buf[p] != buf[d] {
      p' := d;
      d' := d + 1;
    }
    assert Points(buf[..d]) == out;
  }

  /** `p` is where the last replacement was written. */
  method CompactSquashed(buf: array<byte>, send: nat, t: Table) returns (matches: nat, d: nat)
    requires send < buf.Length && t.Valid()
    modifies buf
    ensures d <= send
    ensures var p := TranslateBytes(t, false, old(buf[..send]), true);
            Points(buf[..d]) == p.out && matches == p.matches
  {
    ghost var s0 := buf[..send];
    matches, d := 0, 0;
    var p, s := send, 0;
    assert TranslateBytes(t, false, s0[..0], true) == START;
    hide TranslateBytes;
    while s < send
      invariant 0 <= d <= s <= send && (p == send || 0 <= p < d)
      invariant forall k :: s <= k < send ==> buf[k] == s0[k]
      invariant var q := TranslateBytes(t, false, s0[..s], true);
                && Points(buf[..d]) == q.out && matches == q.matches
                && q.run == if p == d - 1 then Some(buf[p]) else None
    {
      TranslateNext(t, false, s0, true, s);
      ghost var out := Points(buf[..d]);
      var c := buf[s];
      var ch := t.entries[c];
      if ch >= 0 {
        matches := matches + 1;
        p, d := EmitSquashed(buf, d, p, ch, out);
      } else if ch == -1 {
        d := Emit(buf, d, c, out);
      } else if ch == -2 {
        matches := matches + 1;
      }
      s := s + 1;
    }
    assert s0[..s] == s0;
  }
}
