/** The part of S_pmtrans (op.c) that pairs the ranges of a tr/// with characters above 0xFF, and
    finds out whether replacements may need more room than what they replace. */
module TransCompile {
  import opened Bits
  import opened Common
  import opened PerlString
  import opened Utf8
  import opened Trans
  import opened TransUtf8
  import opened TransSwash
  import opened TransInPlace

  /** Above it a range's ends change sign in the cast to I32. */
  const CHAR_MAX: nat := 0x7fff_ffff

  /** A range of characters, as the search and the replacement list hold them. */
  datatype Range = Range(first: nat, last: nat) {
    predicate Valid() {
      first <= last <= CHAR_MAX
    }
  }

  /** A line of the swash: a range that is mapped onto another, or one that is left over when the
      replacement list is used up (XXXX). */
  datatype Line = Mapped(first: nat, last: nat, to: nat) | Rest(first: nat, last: nat) {
    predicate Valid() {
      first <= last <= CHAR_MAX && (Mapped? ==> to + (last - first) <= CHAR_MAX)
    }

    predicate Holds(c: nat) {
      first <= c <= last
    }
  }

  predicate Ranges(t: seq<Range>) {
    forall i :: 0 <= i < |t| ==> t[i].Valid()
  }

  /** How many characters a list has. */
  function Count(t: seq<Range>): nat
    requires Ranges(t)
  {
    if t == [] then 0 else t[0].last - t[0].first + 1 + Count(t[1..])
  }

  /** A list without its first characters, of which the first range has `n`. */
  function Behind(t: seq<Range>, n: nat): (r: seq<Range>)
    requires Ranges(t) && t != [] && 0 < n <= t[0].last - t[0].first + 1
    ensures Ranges(r) && Count(r) == Count(t) - n
  {
    if n == t[0].last - t[0].first + 1 then t[1..]
    else
      var r := [Range(t[0].first + n, t[0].last)] + t[1..];
      assert r[1..] == t[1..];
      r
  }

  /** The shorter of two ranges. */
  function Shared(t: Range, r: Range): (n: nat)
    requires t.Valid() && r.Valid()
    ensures 0 < n <= t.last - t.first + 1 && n <= r.last - r.first + 1
  {
    if t.last - t.first <= r.last - r.first then t.last - t.first + 1 else r.last - r.first + 1
  }

  predicate ValidLines(ls: seq<Line>) {
    forall i :: 0 <= i < |ls| ==> ls[i].Valid()
  }

  /** The lines for a search list and a replacement list. */
  function Lines(t: seq<Range>, r: seq<Range>): (ls: seq<Line>)
    requires Ranges(t) && Ranges(r)
    ensures ValidLines(ls)
    decreases Count(t)
  {
    if t == [] then []
    else if r == [] then [Rest(t[0].first, t[0].last)] + Lines(t[1..], [])
    else
      var n := Shared(t[0], r[0]);
      [Mapped(t[0].first, t[0].first + n - 1, r[0].first)] + Lines(Behind(t, n), Behind(r, n))
  }

  /** The test for growth looks at the first character of a range and at the last replacement. */
  predicate LineGrows(l: Line)
    requires l.Valid()
  {
    l.Mapped? && l.first < l.to && Skip(l.first) < Skip(l.to + (l.last - l.first))
  }

  predicate Grows(ls: seq<Line>)
    requires ValidLines(ls)
  {
    exists i :: 0 <= i < |ls| && LineGrows(ls[i])
  }

  /** The largest replacement, or zero. */
  function Largest(ls: seq<Line>): nat {
    if ls == [] then 0
    else
      var m, l := Largest(ls[..|ls| - 1]), ls[|ls| - 1];
      if l.Mapped? && l.to + (l.last - l.first) > m then l.to + (l.last - l.first) else m
  }

  predicate Leftover(ls: seq<Line>) {
    exists i :: 0 <= i < |ls| && ls[i].Rest?
  }

  /** What is still to be paired of a list: what is left of the range in hand, and the rest. */
  ghost function Pending(t: seq<Range>, i: nat, first: nat, last: nat): seq<Range>
    requires i <= |t|
  {
    (if first <= last then [Range(first, last)] else []) + t[i..]
  }

  const USED_UP: nat := 0xffff_ffff

  /** What is still to come of the replacement list. */
  ghost function Replacements(r: seq<Range>, k: nat, rfirst: nat, rlast: nat): seq<Range>
    requires k <= |r|
  {
    if rfirst == USED_UP then [] else Pending(r, k, rfirst, rlast)
  }

  /** What the loop has found out from the lines it has written. */
  ghost predicate Tells(ls: seq<Line>, grows: bool, max: nat, havefinal: bool) {
    && ValidLines(ls)
    && (grows <==> Grows(ls)) && max == Largest(ls) && (havefinal <==> Leftover(ls))
  }

  lemma TellsNothing()
    ensures Tells([], false, 0, false)
  {
  }

  lemma TellsMapped(ls: seq<Line>, grows: bool, max: nat, havefinal: bool, l: Line)
    requires Tells(ls, grows, max, havefinal) && l.Valid() && l.Mapped?
    ensures var top := l.to + (l.last - l.first);
            Tells(ls + [l], grows || LineGrows(l), if top > max then top else max, havefinal)
  {
    var m := ls + [l];
    assert m[..|ls|] == ls && m[|ls|] == l;
    assert forall i :: 0 <= i < |ls| ==> m[i] == ls[i];
  }

  lemma TellsRest(ls: seq<Line>, grows: bool, max: nat, havefinal: bool, l: Line)
    requires Tells(ls, grows, max, havefinal) && l.Valid() && l.Rest?
    ensures Tells(ls + [l], grows, max, true)
  {
    var m := ls + [l];
    assert m[..|ls|] == ls && m[|ls|] == l;
    assert forall i :: 0 <= i < |ls| ==> m[i] == ls[i];
  }

  /** What is pending of a list, once its first `n` characters are written. */
  lemma PendingBehind(t: seq<Range>, i: nat, first: nat, last: nat, n: nat)
    requires i <= |t| && first <= last && Ranges(Pending(t, i, first, last)) && 0 < n <= last - first + 1
    ensures Pending(t, i, first, last) != [] && Pending(t, i, first, last)[0] == Range(first, last)
    ensures Range(first, last).Valid()
    ensures Behind(Pending(t, i, first, last), n) == Pending(t, i, first + n, last)
    ensures Ranges(Pending(t, i, first + n, last))
  {
  }

  lemma FirstRest(pt: seq<Range>)
    requires Ranges(pt) && pt != []
    ensures Lines(pt, []) == [Rest(pt[0].first, pt[0].last)] + Lines(Behind(pt, pt[0].last - pt[0].first + 1), [])
  {
  }

  lemma FirstMapped(pt: seq<Range>, pr: seq<Range>)
    requires Ranges(pt) && Ranges(pr) && pt != [] && pr != []
    ensures var n := Shared(pt[0], pr[0]);
            Lines(pt, pr)
            == [Mapped(pt[0].first, pt[0].first + n - 1, pr[0].first)] + Lines(Behind(pt, n), Behind(pr, n))
  {
  }

  /** A range is taken up when the one in hand is used up. */
  lemma PendingNext(t: seq<Range>, i: nat, first: nat, last: nat)
    requires i < |t| && first > last
    ensures Pending(t, i + 1, t[i].first, t[i].last)
         == if t[i].first <= t[i].last then Pending(t, i, first, last) else t[i + 1..]
  {
  }

  /** Where the loop stands in both lists. */
  datatype Place = Place(i: nat, tfirst: nat, tlast: nat, k: nat, rfirst: nat, rlast: nat)

  /** The loop's invariant: what is written and what is pending make up the lines asked for. */
  ghost predicate Compiling(t: seq<Range>, r: seq<Range>, p: Place, lines: seq<Line>) {
    && Sound(t, r, p)
    && lines + Lines(Pending(t, p.i, p.tfirst, p.tlast), Replacements(r, p.k, p.rfirst, p.rlast)) == Lines(t, r)
  }

  ghost predicate Sound(t: seq<Range>, r: seq<Range>, p: Place) {
    && Ranges(t) && Ranges(r) && p.i <= |t| && p.k <= |r|
    && Ranges(Pending(t, p.i, p.tfirst, p.tlast)) && Ranges(Replacements(r, p.k, p.rfirst, p.rlast))
    && (if p.rfirst == USED_UP then p.rlast == USED_UP && p.k == |r|
        else p.rlast == if p.k == 0 then 0 else r[p.k - 1].last)
  }

  lemma CompilingStarts(t: seq<Range>, r: seq<Range>)
    requires Ranges(t) && Ranges(r)
    ensures Compiling(t, r, Place(0, 1, 0, 0, 1, 0), [])
  {
    assert Pending(t, 0, 1, 0) == t && Pending(r, 0, 1, 0) == r;
  }

  lemma SearchTakenUp(t: seq<Range>, r: seq<Range>, p: Place, lines: seq<Line>)
    requires Compiling(t, r, p, lines) && p.tfirst > p.tlast && p.i < |t|
    ensures Compiling(t, r, p.(i := p.i + 1, tfirst := t[p.i].first, tlast := t[p.i].last), lines)
    ensures t[p.i].first <= t[p.i].last
  {
    hide Lines, Pending, Ranges, Replacements, Range.Valid;
    RangeAt(t, p.i);
    PendingNext(t, p.i, p.tfirst, p.tlast);
  }

  lemma RangeAt(t: seq<Range>, i: nat)
    requires Ranges(t) && i < |t|
    ensures t[i].first <= t[i].last <= CHAR_MAX
  {
  }

  /** The same of the replacement list. */
  lemma ReplacementsNext(r: seq<Range>, k: nat, first: nat, last: nat)
    requires k <= |r| && first > last && (first == USED_UP ==> k == |r|)
    requires k < |r| ==> r[k].first <= r[k].last <= CHAR_MAX
    ensures if k < |r| then Replacements(r, k + 1, r[k].first, r[k].last) == Replacements(r, k, first, last)
            else Replacements(r, k, USED_UP, USED_UP) == Replacements(r, k, first, last)
  {
    if k < |r| {
      PendingNext(r, k, first, last);
    }
  }

  lemma ReplacementTakenUp(t: seq<Range>, r: seq<Range>, p: Place, lines: seq<Line>)
    requires Compiling(t, r, p, lines) && p.rfirst > p.rlast
    ensures p.k <= |r|
    ensures if p.k < |r| then
              && r[p.k].first <= r[p.k].last <= CHAR_MAX
              && Compiling(t, r, p.(k := p.k + 1, rfirst := r[p.k].first, rlast := r[p.k].last), lines)
            else
              && p.rlast == (if r == [] then 0 else r[|r| - 1].last)
              && Compiling(t, r, p.(rfirst := USED_UP, rlast := USED_UP), lines)
  {
    hide Lines, Pending, Ranges, Replacements, Range.Valid;
    if p.k < |r| {
      RangeAt(r, p.k);
    }
    ReplacementsNext(r, p.k, p.rfirst, p.rlast);
  }

  /** Both lists have a range in hand, unless the replacement list is used up. */
  predicate Ready(p: Place) {
    Range(p.tfirst, p.tlast).Valid() && (p.rfirst == p.rlast == USED_UP || Range(p.rfirst, p.rlast).Valid())
  }

  lemma BothReady(t: seq<Range>, r: seq<Range>, p: Place, lines: seq<Line>)
    requires Compiling(t, r, p, lines) && p.tfirst <= p.tlast && p.rfirst <= p.rlast
    ensures Ready(p)
  {
    assert Pending(t, p.i, p.tfirst, p.tlast)[0] == Range(p.tfirst, p.tlast);
    assert Pending(r, p.k, p.rfirst, p.rlast)[0] == Range(p.rfirst, p.rlast);
  }

  /** The line that is due. */
  function Due(p: Place): (l: Line)
    requires Ready(p)
    ensures l.Valid()
  {
    if p.rfirst == USED_UP then Rest(p.tfirst, p.tlast)
    else Mapped(p.tfirst, p.tfirst + Shared(Range(p.tfirst, p.tlast), Range(p.rfirst, p.rlast)) - 1, p.rfirst)
  }

  /** Where the loop stands behind that line. */
  function Passed(p: Place): Place
    requires Ready(p)
  {
    if p.rfirst == USED_UP then p.(tfirst := p.tlast + 1)
    else
      var n := Shared(Range(p.tfirst, p.tlast), Range(p.rfirst, p.rlast));
      p.(tfirst := p.tfirst + n, rfirst := p.rfirst + n)
  }

  lemma StaysSound(t: seq<Range>, r: seq<Range>, p: Place)
    requires Sound(t, r, p) && Ready(p)
    ensures Sound(t, r, Passed(p))
  {
    hide Pending, Ranges, Behind, Lines;
    PendingBehind(t, p.i, p.tfirst, p.tlast, Due(p).last - p.tfirst + 1);
    if p.rfirst != USED_UP {
      PendingBehind(r, p.k, p.rfirst, p.rlast, Due(p).last - p.tfirst + 1);
    }
  }

  lemma NextLines(t: seq<Range>, r: seq<Range>, p: Place)
    requires Sound(t, r, p) && Ready(p) && Sound(t, r, Passed(p))
    ensures var q := Passed(p);
            Lines(Pending(t, p.i, p.tfirst, p.tlast), Replacements(r, p.k, p.rfirst, p.rlast))
            == [Due(p)] + Lines(Pending(t, q.i, q.tfirst, q.tlast), Replacements(r, q.k, q.rfirst, q.rlast))
  {
    hide Lines, Behind, Pending, Ranges;
    var pt, pr := Pending(t, p.i, p.tfirst, p.tlast), Replacements(r, p.k, p.rfirst, p.rlast);
    PendingBehind(t, p.i, p.tfirst, p.tlast, Due(p).last - p.tfirst + 1);
    if p.rfirst == USED_UP {
      FirstRest(pt);
    } else {
      PendingBehind(r, p.k, p.rfirst, p.rlast, Due(p).last - p.tfirst + 1);
      FirstMapped(pt, pr);
    }
  }

  lemma LineWritten(t: seq<Range>, r: seq<Range>, p: Place, lines: seq<Line>)
    requires Compiling(t, r, p, lines) && Ready(p)
    ensures Compiling(t, r, Passed(p), lines + [Due(p)])
  {
    StaysSound(t, r, p);
    NextLines(t, r, p);
    hide Lines, Pending, Sound, Ready, Due, Passed;
    var q := Passed(p);
    Prepended(lines, Due(p), Lines(Pending(t, q.i, q.tfirst, q.tlast), Replacements(r, q.k, q.rfirst, q.rlast)));
  }

  lemma Prepended(ls: seq<Line>, l: Line, rest: seq<Line>)
    ensures ls + ([l] + rest) == ls + [l] + rest
  {
  }

  lemma AllWritten(t: seq<Range>, r: seq<Range>, p: Place, lines: seq<Line>)
    requires Compiling(t, r, p, lines) && p.tfirst > p.tlast && p.i >= |t|
    ensures lines == Lines(t, r)
  {
    assert Pending(t, p.i, p.tfirst, p.tlast) == [];
  }

  /** The part of a turn that writes a line. */
  method WriteLine(p: Place, lines: seq<Line>, grows: bool, max: nat, ghost havefinal: bool)
      returns (diff: nat, lines': seq<Line>, grows': bool, max': nat)
    requires Ready(p) && Tells(lines, grows, max, havefinal)
    ensures lines' == lines + [Due(p)] && Tells(lines', grows', max', havefinal || p.rfirst == USED_UP)
    ensures Passed(p)
         == p.(tfirst := p.tfirst + diff + 1, rfirst := if p.rfirst == USED_UP then USED_UP else p.rfirst + diff + 1)
  {
    hide Tells;
    grows', max' := grows, max;
    var tdiff, rdiff := p.tlast - p.tfirst, p.rlast - p.rfirst;
    diff := if tdiff <= rdiff then tdiff else rdiff;
    if p.rfirst == USED_UP {
      diff := tdiff;
      TellsRest(lines, grows, max, havefinal, Due(p));
      lines' := lines + [Rest(p.tfirst, p.tfirst + diff)];
    } else {
      TellsMapped(lines, grows, max, havefinal, Due(p));
      lines' := lines + [Mapped(p.tfirst, p.tfirst + diff, p.rfirst)];
      if p.rfirst + diff > max {
        max' := p.rfirst + diff;
      }
      if !grows {
        grows' := p.tfirst < p.rfirst && Skip(p.tfirst) < Skip(p.rfirst + diff);
      }
    }
  }

  /** The loop of S_pmtrans over both lists. */
  method Compile(t: seq<Range>, r: seq<Range>)
      returns (lines: seq<Line>, grows: bool, max: nat, havefinal: bool, final: nat)
    requires Ranges(t) && Ranges(r)
    ensures lines == Lines(t, r)
    ensures grows <==> Grows(lines)
    ensures max == Largest(lines)
    ensures havefinal <==> Leftover(lines)
    ensures havefinal ==> final == (if r == [] then 0 else r[|r| - 1].last)
  {
    lines, grows, max, havefinal, final := [], false, 0, false, 0;
    var p := Place(0, 1, 0, 0, 1, 0);
    CompilingStarts(t, r);
    TellsNothing();
    hide Compiling, Lines, Tells, Pending, Ready, Due, Passed, Ranges, Grows, Largest, Leftover;
    while p.i < |t| || p.tfirst <= p.tlast
      invariant Compiling(t, r, p, lines) && Tells(lines, grows, max, havefinal)
      invariant havefinal <==> p.rfirst == USED_UP
      invariant havefinal ==> p.rlast == USED_UP && final == if r == [] then 0 else r[|r| - 1].last
      decreases |t| - p.i, if p.tfirst <= p.tlast then p.tlast - p.tfirst + 1 else 0
    {
      if p.tfirst > p.tlast {
        SearchTakenUp(t, r, p, lines);
        p := p.(i := p.i + 1, tfirst := t[p.i].first, tlast := t[p.i].last);
      }
      ghost var had := havefinal;
      if p.rfirst > p.rlast {
        ReplacementTakenUp(t, r, p, lines);
        if p.k < |r| {
          p := p.(k := p.k + 1, rfirst := r[p.k].first, rlast := r[p.k].last);
        } else {
          if !havefinal {
            havefinal, final := true, p.rlast;
          }
          p := p.(rfirst := USED_UP, rlast := USED_UP);
        }
      }
      BothReady(t, r, p, lines);
      LineWritten(t, r, p, lines);
      var diff;
      diff, lines, grows, max := WriteLine(p, lines, grows, max, had);
      p := p.(tfirst := p.tfirst + diff + 1, rfirst := if p.rfirst == USED_UP then USED_UP else p.rfirst + diff + 1);
    }
    AllWritten(t, r, p, lines);
    WhatIsTold(lines, grows, max, havefinal);
  }

  lemma WhatIsTold(ls: seq<Line>, grows: bool, max: nat, havefinal: bool)
    requires Tells(ls, grows, max, havefinal)
    ensures ValidLines(ls) && (grows <==> Grows(ls)) && max == Largest(ls) && (havefinal <==> Leftover(ls))
  {
  }

  // ----- What the test for growth is worth -----

  /** What NONE comes to be: one more than the largest replacement, which changes its sign in the
      cast to I32 if that was the largest of all. */
  function NoneOf(ls: seq<Line>): Point
    requires ValidLines(ls)
  {
    LargestBound(ls);
    if Largest(ls) < CHAR_MAX then Largest(ls) + 1 else 0xffff_ffff_8000_0000
  }

  lemma {:induction false} LargestBound(ls: seq<Line>)
    requires ValidLines(ls)
    ensures Largest(ls) <= CHAR_MAX
    ensures forall i :: 0 <= i < |ls| && ls[i].Mapped? ==> ls[i].to + (ls[i].last - ls[i].first) <= Largest(ls)
  {
    if ls != [] {
      LargestBound(ls[..|ls| - 1]);
      forall i | 0 <= i < |ls| && ls[i].Mapped?
        ensures ls[i].to + (ls[i].last - ls[i].first) <= Largest(ls)
      {
        if i < |ls| - 1 {
          assert ls[..|ls| - 1][i] == ls[i];
        }
      }
    }
  }

  /** SWASHNEW drops a line that starts where an earlier one does. */
  predicate IsKept(ls: seq<Line>, i: nat)
    requires i < |ls|
  {
    forall k :: 0 <= k < i ==> ls[k].first != ls[i].first
  }

  predicate MayServe(ls: seq<Line>, c: nat, i: nat) {
    i < |ls| && IsKept(ls, i) && ls[i].Holds(c)
  }

  /** The others are sorted, and S_swatch_get enters them one over the other: of the first `n` lines
      the one that serves a character is the kept one that starts last. */
  function Serving(ls: seq<Line>, c: nat, n: nat): (r: Option<nat>)
    requires n <= |ls|
    ensures r.Some? ==> r.value < |ls|
  {
    if n == 0 then None else
    var before := Serving(ls, c, n - 1);
    if MayServe(ls, c, n - 1) && (before.None? || ls[before.value].first <= ls[n - 1].first)
    then Some(n - 1) else before
  }

  lemma {:induction false} ServingIs(ls: seq<Line>, c: nat, n: nat)
    requires n <= |ls|
    ensures match Serving(ls, c, n)
            case None => forall i :: 0 <= i < n ==> !MayServe(ls, c, i)
            case Some(i) => i < n && MayServe(ls, c, i)
                            && forall k :: 0 <= k < n && MayServe(ls, c, k) ==> ls[k].first <= ls[i].first
  {
    hide MayServe;
    if n > 0 {
      ServingIs(ls, c, n - 1);
    }
  }

  /** What swash_fetch answers for a character. The values are held in 32 bits at most. */
  function Fetched(ls: seq<Line>, c: nat): Point
    requires ValidLines(ls)
  {
    ServingIs(ls, c, |ls|);
    match Serving(ls, c, |ls|)
    case None => NoneOf(ls) % 0x1_0000_0000
    case Some(i) => if ls[i].Mapped? then ls[i].to + (c - ls[i].first) else (NoneOf(ls) + 1) % 0x1_0000_0000
  }

  /** The lookup function that swash_init makes of the lines. FINAL is stored unless characters are to
      be deleted, or the replacement list was empty. */
  ghost predicate Serves(w: Swash, ls: seq<Line>, final: Option<Point>)
    requires ValidLines(ls)
  {
    w.none == NoneOf(ls) && w.final == final && forall c: Point :: w.fetch(c) == Fetched(ls, c)
  }

  /** What is below NONE comes from a line. */
  lemma BelowNone(ls: seq<Line>, c: Point)
    requires ValidLines(ls) && Largest(ls) < CHAR_MAX
    ensures Fetched(ls, c) < NoneOf(ls) ==> MappedBy(ls, c, Fetched(ls, c))
    ensures Fetched(ls, c) <= NoneOf(ls) + 1
  {
    hide Serving, Largest, IsKept;
    LargestBound(ls);
    ServingIs(ls, c, |ls|);
  }

  ghost predicate MappedBy(ls: seq<Line>, c: nat, ch: nat) {
    exists i :: 0 <= i < |ls| && ls[i].Mapped? && ls[i].Holds(c) && ch == ls[i].to + (c - ls[i].first)
  }

  lemma SkipGrows(a: Point, b: Point)
    requires a <= b
    ensures Skip(a) <= Skip(b)
  {
  }

  /** When the flag is on: some run of characters is mapped onto higher ones, of which the last needs
      more bytes than the first that is replaced. A range that is mapped onto itself, or onto lower
      characters, never turns it on. */
  lemma GrowsIs(ls: seq<Line>)
    requires ValidLines(ls)
    ensures Grows(ls) <==>
              exists i :: 0 <= i < |ls| && ls[i].Mapped? && ls[i].first < ls[i].to
                          && Skip(ls[i].first) < Skip(ls[i].to + (ls[i].last - ls[i].first))
    ensures (forall i :: 0 <= i < |ls| && ls[i].Mapped? ==> ls[i].to <= ls[i].first) ==> !Grows(ls)
  {
    hide Skip;
    if i :| 0 <= i < |ls| && ls[i].Mapped? && ls[i].first < ls[i].to
            && Skip(ls[i].first) < Skip(ls[i].to + (ls[i].last - ls[i].first)) {
      assert LineGrows(ls[i]);
    }
  }

  /** The test looks at two characters of a range and speaks for all of them. */
  lemma LineFits(l: Line, c: nat)
    requires l.Valid() && l.Mapped? && l.Holds(c) && !LineGrows(l)
    ensures Skip(l.to + (c - l.first)) <= Skip(c)
  {
    hide Skip;
    if l.first >= l.to {
      SkipGrows(l.to + (c - l.first), c);
    } else {
      SkipGrows(l.to + (c - l.first), l.to + (l.last - l.first));
      SkipGrows(l.first, c);
    }
  }

  /** If the test says that nothing grows, no pair of the lists does. */
  lemma GrowsOffPairsFit(w: Swash, ls: seq<Line>, final: Option<Point>)
    requires ValidLines(ls) && Serves(w, ls, final) && !Grows(ls) && Largest(ls) < CHAR_MAX
    ensures PairsFit(w)
  {
    hide Skip, Fetched, NoneOf;
    forall c: Point | w.fetch(c) < w.none
      ensures Skip(w.fetch(c)) <= Skip(c)
    {
      BelowNone(ls, c);
      assert MappedBy(ls, c, w.fetch(c));
      var i :| 0 <= i < |ls| && ls[i].Mapped? && ls[i].Holds(c) && w.fetch(c) == ls[i].to + (c - ls[i].first);
      LineFits(ls[i], c);
    }
  }

  /** A character that gets more bytes by a pair overtakes the reading at once. */
  lemma PairAtOnce(j: Job, c: Point)
    requires j.w.fetch(c) < j.w.none && j.w.fetch(c) != NO_RUN && Skip(j.w.fetch(c)) > Skip(c)
    ensures Over(j, [c], 1)
  {
    hide Over, Skip, Lead;
    LeadOfOne(j, c);
    OverAtEnd(j, [c]);
  }

  lemma NeverNoRun(ls: seq<Line>, c: Point)
    requires ValidLines(ls)
    ensures Fetched(ls, c) != NO_RUN
  {
    hide Serving, Largest, IsKept;
    LargestBound(ls);
    ServingIs(ls, c, |ls|);
  }

  /** But it does not look at the final replacement, and NONE may overflow. With the flag off every
      string can be transliterated in place, in every block that holds it, exactly if those fit too. */
  lemma GrowsOffExactly(t: seq<Range>, r: seq<Range>, j: Job)
    requires Ranges(t) && Ranges(r) && Serves(j.w, Lines(t, r), j.w.final) && !Grows(Lines(t, r))
    ensures Largest(Lines(t, r)) < CHAR_MAX ==> PairsFit(j.w)
    ensures PairsFit(j.w) && FinalFits(j) <==>
              forall s: seq<Point>, room: nat, copied: bool | room > |EncodeAll(s)| ::
                FateOf(j, s, room, copied) == Complete
  {
    hide FinalFits, EncodeAll, FateOf, Fetched, Lines, Largest, Skip;
    if Largest(Lines(t, r)) < CHAR_MAX {
      GrowsOffPairsFit(j.w, Lines(t, r), j.w.final);
    }
    if PairsFit(j.w) {
      InPlaceExactly(j);
    } else {
      var c: Point :| j.w.fetch(c) < j.w.none && Skip(j.w.fetch(c)) > Skip(c);
      NeverNoRun(Lines(t, r), c);
      PairAtOnce(j, c);
      OverFails(j, [c], 1, |EncodeAll([c][..1] + [0])| + 1, true);
    }
  }

  // ----- Where it fails -----

  /** Where no line has a character in common with another, each serves its own. */
  lemma FetchedOnce(ls: seq<Line>, c: Point)
    requires ValidLines(ls) && forall i, k :: 0 <= i < k < |ls| ==> ls[i].last < ls[k].first || ls[k].last < ls[i].first
    ensures (forall i :: 0 <= i < |ls| ==> !ls[i].Holds(c)) ==> Fetched(ls, c) == NoneOf(ls) % 0x1_0000_0000
    ensures forall i :: 0 <= i < |ls| && ls[i].Holds(c) ==>
              Fetched(ls, c)
              == if ls[i].Mapped? then ls[i].to + (c - ls[i].first) else (NoneOf(ls) + 1) % 0x1_0000_0000
  {
    hide Serving, Largest, NoneOf;
    ServingIs(ls, c, |ls|);
    forall i | 0 <= i < |ls| && ls[i].Holds(c)
      ensures Serving(ls, c, |ls|) == Some(i)
    {
      assert MayServe(ls, c, i);
    }
  }

  /** The lookup function of tr/XY/X/, where the list for Y is used up. */
  function RepeatsLast(x: Point, y: Point): Swash
    requires 0 < x < CHAR_MAX
  {
    Swash((c: Point) => if c == x then x else if c == y then x + 2 else x + 1, x + 1, Some(x))
  }

  lemma CompilesLast(x: Point, y: Point)
    requires 0 < x < CHAR_MAX && y <= CHAR_MAX && y != x
    ensures var t, r := [Range(x, x), Range(y, y)], [Range(x, x)];
            && Ranges(t) && Ranges(r) && Lines(t, r) == [Mapped(x, x, x), Rest(y, y)]
            && !Grows(Lines(t, r)) && Serves(RepeatsLast(x, y), Lines(t, r), Some(x))
  {
    LinesOfLast(x, y);
    hide Lines, Largest, Fetched;
    forall c: Point
      ensures RepeatsLast(x, y).fetch(c) == Fetched([Mapped(x, x, x), Rest(y, y)], c)
    {
      FetchedOfLast(x, y, c);
    }
  }

  lemma LinesOfLast(x: Point, y: Point)
    requires 0 < x < CHAR_MAX && y <= CHAR_MAX
    ensures var t, r := [Range(x, x), Range(y, y)], [Range(x, x)];
            && Ranges(t) && Ranges(r) && Lines(t, r) == [Mapped(x, x, x), Rest(y, y)]
            && NoneOf(Lines(t, r)) == x + 1
  {
    var t, r := [Range(x, x), Range(y, y)], [Range(x, x)];
    assert Behind(t, 1) == [Range(y, y)] && Behind(r, 1) == [];
    assert t[1..] == [Range(y, y)] && [Range(y, y)][1..] == [];
    assert Lines([Range(y, y)], []) == [Rest(y, y)];
    var ls := [Mapped(x, x, x), Rest(y, y)];
    assert ls[..1] == [Mapped(x, x, x)] && ls[..1][..0] == [];
    assert Largest(ls[..1]) == x;
  }

  lemma FetchedOfLast(x: Point, y: Point, c: Point)
    requires 0 < x < CHAR_MAX && y <= CHAR_MAX && y != x
    ensures RepeatsLast(x, y).fetch(c) == Fetched([Mapped(x, x, x), Rest(y, y)], c)
  {
    hide Largest, Fetched, NoneOf, Lines;
    var ls := [Mapped(x, x, x), Rest(y, y)];
    LinesOfLast(x, y);
    FetchedOnce(ls, c);
    if c == x {
      assert ls[0].Holds(c);
    } else if c == y {
      assert ls[1].Holds(c);
    }
  }

  /** tr/\x{100}a/\x{100}/ on "a": the flag is off, and the pass panics. */
  lemma PanicsOnA()
    ensures FateOf(Simple(RepeatsLast(0x100, 0x61)), [0x61], 2, false) == Panic
  {
    var j := Simple(RepeatsLast(0x100, 0x61));
    LeadOfOne(j, 0x61);
    OverAtEnd(j, [0x61]);
    OverAtEnd(j, []);
    assert [0x61][..0] == [] && [0x61][..1] == [0x61];
    assert Lead(j, []) == 0;
    EncodeOne(0x61);
    FirstIs(j, [0x61], 1);
  }

  /** tr/\x{10FFFF}a/\x{10FFFF}/ on fourteen other characters and an "a", in a block of sixteen
      bytes: the replacement is written beyond the block. */
  lemma OverrunsBlock()
    ensures var s := seq<Point>(14, _ => 0x62) + [0x61];
            FateOf(Simple(RepeatsLast(0x10_FFFF, 0x61)), s, 16, false) == Overrun
  {
    var j := Simple(RepeatsLast(0x10_FFFF, 0x61));
    var kept := seq<Point>(14, _ => 0x62);
    var s := kept + [0x61];
    forall k | 0 <= k <= 14
      ensures !Over(j, s, k) && |EncodeAll(s[..k])| == k && Lead(j, s[..k]) == 0
    {
      KeptInPlace(j, s[..k]);
    }
    LeadNext(j, kept, 0x61);
    assert s[..14] == kept && s[..15] == s;
    EncodeSnoc(kept, 0x61);
    OverAtEnd(j, s);
    FirstIs(j, s, 15);
  }

  lemma {:induction false} KeptInPlace(j: Job, s: seq<Point>)
    requires forall k :: 0 <= k < |s| ==> j.Act(s[k]) == Keep && s[k] < 0x80
    ensures |EncodeAll(s)| == |s| && Lead(j, s) == 0
    decreases |s|
  {
    if s != [] {
      var n := |s| - 1;
      KeptInPlace(j, s[..n]);
      LeadNext(j, s[..n], s[n]);
      EncodeSnoc(s[..n], s[n]);
      assert s[..n] + [s[n]] == s;
    }
  }

  /** The lookup function of tr/XZY/XZ/, where the list for Y is used up. */
  function MapsTwo(x: Point, z: Point, y: Point): Swash
    requires x < z < CHAR_MAX
  {
    Swash((c: Point) => if c == x || c == z then c else if c == y then z + 2 else z + 1, z + 1, Some(z))
  }

  lemma LargestSnoc(ls: seq<Line>, l: Line)
    ensures Largest(ls + [l])
         == if l.Mapped? && l.to + (l.last - l.first) > Largest(ls) then l.to + (l.last - l.first) else Largest(ls)
    ensures Largest([]) == 0
  {
    assert (ls + [l])[..|ls|] == ls;
  }

  lemma CompilesTwo(x: Point, z: Point, y: Point)
    requires x < z < CHAR_MAX && y <= CHAR_MAX && y != x && y != z
    ensures var t, r := [Range(x, x), Range(z, z), Range(y, y)], [Range(x, x), Range(z, z)];
            && Ranges(t) && Ranges(r) && Lines(t, r) == [Mapped(x, x, x), Mapped(z, z, z), Rest(y, y)]
            && !Grows(Lines(t, r)) && Serves(MapsTwo(x, z, y), Lines(t, r), Some(z))
  {
    LinesOfTwo(x, z, y);
    LargestOfTwo(x, z, y);
    hide Lines, Largest, Fetched, MapsTwo;
    forall c: Point
      ensures MapsTwo(x, z, y).fetch(c) == Fetched([Mapped(x, x, x), Mapped(z, z, z), Rest(y, y)], c)
    {
      FetchedOfTwo(x, z, y, c);
    }
    MapsTwoHas(x, z, y);
  }

  lemma MapsTwoHas(x: Point, z: Point, y: Point)
    requires x < z < CHAR_MAX
    ensures MapsTwo(x, z, y).none == z + 1 && MapsTwo(x, z, y).final == Some(z)
  {
  }

  lemma FetchedOfTwo(x: Point, z: Point, y: Point, c: Point)
    requires x < z < CHAR_MAX && y <= CHAR_MAX && y != x && y != z
    ensures MapsTwo(x, z, y).fetch(c) == Fetched([Mapped(x, x, x), Mapped(z, z, z), Rest(y, y)], c)
  {
    hide Largest, Fetched;
    var ls := [Mapped(x, x, x), Mapped(z, z, z), Rest(y, y)];
    LargestOfTwo(x, z, y);
    FetchedOnce(ls, c);
    if c == x {
      assert ls[0].Holds(c);
    } else if c == z {
      assert ls[1].Holds(c);
    } else if c == y {
      assert ls[2].Holds(c);
    }
  }

  lemma LinesOfTwo(x: Point, z: Point, y: Point)
    requires x < z < CHAR_MAX && y <= CHAR_MAX
    ensures var t, r := [Range(x, x), Range(z, z), Range(y, y)], [Range(x, x), Range(z, z)];
            && Ranges(t) && Ranges(r) && Lines(t, r) == [Mapped(x, x, x), Mapped(z, z, z), Rest(y, y)]
  {
    var t, r := [Range(x, x), Range(z, z), Range(y, y)], [Range(x, x), Range(z, z)];
    var t1, r1, t2 := [Range(z, z), Range(y, y)], [Range(z, z)], [Range(y, y)];
    assert t2[1..] == [] && Lines(t2, []) == [Rest(y, y)];
    assert t1[1..] == t2 && r1[1..] == [] && Behind(t1, 1) == t2 && Behind(r1, 1) == [];
    FirstMapped(t1, r1);
    assert t[1..] == t1 && r[1..] == r1 && Behind(t, 1) == t1 && Behind(r, 1) == r1;
    FirstMapped(t, r);
    hide Lines, Behind;
    assert [Mapped(z, z, z)] + [Rest(y, y)] == [Mapped(z, z, z), Rest(y, y)];
    assert [Mapped(x, x, x)] + [Mapped(z, z, z), Rest(y, y)] == [Mapped(x, x, x), Mapped(z, z, z), Rest(y, y)];
  }

  lemma LargestOfTwo(x: Point, z: Point, y: Point)
    requires x < z
    ensures Largest([Mapped(x, x, x), Mapped(z, z, z), Rest(y, y)]) == z
  {
    hide Largest;
    var one, two := [Mapped(x, x, x)], [Mapped(x, x, x), Mapped(z, z, z)];
    LargestSnoc([], Mapped(x, x, x));
    LargestSnoc(one, Mapped(z, z, z));
    LargestSnoc(two, Rest(y, y));
    assert [] + [Mapped(x, x, x)] == one && one + [Mapped(z, z, z)] == two;
    assert two + [Rest(y, y)] == [Mapped(x, x, x), Mapped(z, z, z), Rest(y, y)];
  }

  /** tr/b\x{100}a/b\x{100}/s on the bytes "bba": the squashed b makes room for the final
      replacement, and its encoding lies in a string that has no UTF-8 flag. */
  lemma UnflaggedOnBba()
    ensures var j, s := Complex(MapsTwo(0x62, 0x100, 0x61), false, true), [0x62, 0x62, 0x61];
            && !NeedsUpgrade([0x62, 0x62, 0x61], false) && FateOf(j, s, 4, false) == Complete
            && j.Passed(s).out == [0x62, 0x100] && !IsAscii(j.Passed(s).out)
  {
    var j, s := Complex(MapsTwo(0x62, 0x100, 0x61), false, true), [0x62, 0x62, 0x61];
    PassedOnBba();
    LengthsOnBba();
    assert s[..0] == [] && s[..1] == [0x62] && s[..2] == [0x62, 0x62] && s[..3] == s;
    assert !IsAscii([0x62, 0x100]) by {
      assert [0x62, 0x100][1] == 0x100;
    }
    hide EncodeAll, Job.Passed, MapsTwo, IsAscii;
    forall k | 0 <= k <= 3
      ensures !Over(j, s, k)
    {
      assert k == 0 || k == 1 || k == 2 || k == 3;
    }
    hide Over;
    NeverFirst(j, s);
  }

  /** The bytes 62 C4 80 are left, and no flag. */
  method UnflaggedString() returns (sv: Buffer, fate: Fate, matches: nat, utf8: bool)
    ensures fate == Complete && !utf8 && sv.Valid() && sv.Contents() == [0x62, 0xC4, 0x80]
    ensures !StandsFor(sv.Contents(), utf8, [0x62, 0x100])
  {
    UnflaggedOnBba();
    PairIs();
    hide EncodeAll, Job.Passed, MapsTwo, FateOf, IsAscii;
    var bba: seq<byte> := [0x62, 0x62, 0x61];
    sv := new Buffer(bba);
    assert Points(bba) == [0x62, 0x62, 0x61];
    fate, matches, utf8 :=
      TransliterateComplex(sv, false, MapsTwo(0x62, 0x100, 0x61), false, true, false, [0x62, 0x62, 0x61]);
  }

  lemma PairIs()
    ensures EncodeAll([0x62, 0x100]) == [0x62, 0xC4, 0x80]
  {
    EncodeLatin(0x62);
    EncodeCons(0x62, [0x100]);
    EncodeOne(0x62);
    EncodeOne(0x100);
    assert [0x62] + [0x100] == [0x62, 0x100];
    assert High(0x100, 1) == High(4, 0) == 4;
    assert Continuation(0x100, 1) == Continuation(4, 0) + [0x80];
  }

  lemma PassedOnBba()
    ensures var j := Complex(MapsTwo(0x62, 0x100, 0x61), false, true);
            && j.Passed([]).out == [] && j.Passed([0x62]).out == [0x62] && j.Passed([0x62, 0x62]).out == [0x62]
            && j.Passed([0x62, 0x62, 0x61]).out == [0x62, 0x100]
  {
    var j := Complex(MapsTwo(0x62, 0x100, 0x61), false, true);
    assert j.Act(0x62) == Put(0x62) && j.Act(0x61) == Put(0x100);
    hide MapsTwo, Job.Passed, Job.Act;
    SquashedPair(j, 0x62, 0x61, 0x100);
  }

  /** A replacement squashed, and another one behind it. */
  lemma SquashedPair(j: Job, x: Point, y: Point, z: Point)
    requires j.Squashes() && j.Act(x) == Put(x) && j.Act(y) == Put(z) && x != z && x != NO_RUN
    ensures j.Passed([]).out == [] && j.Passed([x]).out == [x] && j.Passed([x, x]).out == [x]
    ensures j.Passed([x, x, y]).out == [x, z]
  {
    assert j.Passed([]) == Pass([], NO_RUN, 0);
    PassedSnoc(j, [], x);
    PassedSnoc(j, [x], x);
    PassedSnoc(j, [x, x], y);
    hide Job.Passed, Job.Act, Job.Squashes;
    assert [] + [x] == [x];
    assert j.Passed([x]) == Pass([x], x, 1);
    assert [x] + [x] == [x, x];
    assert j.Passed([x, x]) == Pass([x], x, 2);
    assert [x, x] + [y] == [x, x, y] && [x] + [z] == [x, z];
  }

  lemma PassedSnoc(j: Job, s: seq<Point>, c: Point)
    ensures j.Passed(s + [c]) == PassStep(j.Passed(s), c, j.Act(c), j.Squashes(), false)
  {
    PassedNext(j, s + [c], |s|);
    assert (s + [c])[..|s|] == s && (s + [c])[..|s| + 1] == s + [c];
  }

  lemma LengthsOnBba()
    ensures |EncodeAll([])| == 0 && |EncodeAll([0x62])| == 1 && |EncodeAll([0x62, 0x62])| == 2
    ensures |EncodeAll([0x62, 0x62, 0x61])| == |EncodeAll([0x62, 0x100])| == 3
  {
    EncodeOne(0x62);
    EncodeSnoc([0x62], 0x62);
    EncodeSnoc([0x62, 0x62], 0x61);
    EncodeSnoc([0x62], 0x100);
    hide Encode;
    assert EncodeAll([]) == [];
    hide EncodeAll;
    assert [0x62] + [0x62] == [0x62, 0x62] && [0x62, 0x62] + [0x61] == [0x62, 0x62, 0x61];
    assert [0x62] + [0x100] == [0x62, 0x100];
  }
}
