/** When a tr/// by a lookup function can do without a buffer of its own. */
module TransInPlace {
  import opened Bits
  import opened Common
  import opened Utf8
  import opened Trans
  import opened TransUtf8
  import opened TransSwash

  /** No replacement of the lists themselves needs more bytes than what it replaces. */
  ghost predicate PairsFit(w: Swash) {
    forall c: Point :: w.fetch(c) < w.none ==> Skip(w.fetch(c)) <= Skip(c)
  }

  /** The characters that get the final replacement, where there is one. */
  predicate GetsFinal(j: Job, c: Point) {
    j.w.fetch(c) == j.w.none + 1 && j.w.final.Some? && (j.Complex? ==> !j.del)
  }

  /** Under squash a final replacement by the value that stands for "no run" is dropped unless
      another replacement has just been written. */
  predicate FinalIsSentinel(j: Job) {
    j.Squashes() && j.w.final == Some(NO_RUN)
  }

  /** No character has a final replacement that needs more bytes. If the final replacement is the
      one that stands for "no run", none needs more than it and the character before save. */
  ghost predicate FinalFits(j: Job) {
    if FinalIsSentinel(j) then
      forall b: Point, c: Point :: GetsFinal(j, c) && Precedes(j, b) ==>
        Skip(j.w.fetch(b)) + Skip(NO_RUN) <= Skip(b) + Skip(c)
    else forall c: Point :: GetsFinal(j, c) ==> Skip(j.w.final.value) <= Skip(c)
  }

  /** A replacement after which the value that stands for "no run" is written. */
  predicate Precedes(j: Job, b: Point) {
    j.w.fetch(b) < j.w.none && j.w.fetch(b) != NO_RUN
  }

  /** By how much the output of a pass is behind its input. */
  function Lead(j: Job, s: seq<Point>): int {
    |EncodeAll(s)| - |EncodeAll(j.Passed(s).out)|
  }

  /** What one character adds to it. */
  function Gain(j: Job, p: Pass, c: Point): int {
    var a := j.Act(c);
    Skip(c) - match a
      case Keep => Skip(c)
      case Delete => 0
      case Put(ch) => if j.Squashes() && ch == p.pch then 0 else Skip(ch)
  }

  lemma LeadNext(j: Job, s: seq<Point>, c: Point)
    ensures Lead(j, s + [c]) == Lead(j, s) + Gain(j, j.Passed(s), c)
    ensures j.Passed(s + [c]) == PassStep(j.Passed(s), c, j.Act(c), j.Squashes(), false)
  {
    var t := s + [c];
    PassedNext(j, t, |s|);
    assert t[..|s|] == s && t[..|s| + 1] == t;
    EncodeSnoc(s, c);
    var p := j.Passed(s);
    var a := j.Act(c);
    match a
    case Keep => EncodeSnoc(p.out, c);
    case Delete =>
    case Put(ch) => EncodeSnoc(p.out, ch);
  }

  /** The output never overtakes the reading, and after a replacement that "no run" may follow it
      is so far behind that it may follow. */
  lemma {:induction false} NeverAhead(j: Job, s: seq<Point>)
    requires PairsFit(j.w) && FinalFits(j)
    ensures Lead(j, s) >= 0
    ensures FinalIsSentinel(j) && j.Passed(s).pch != NO_RUN ==>
              forall c: Point :: GetsFinal(j, c) ==> Lead(j, s) + Skip(c) >= Skip(NO_RUN)
    decreases |s|
  {
    hide Lead, Job.Passed;
    if s == [] {
      NothingPassed(j);
    } else {
      var n := |s| - 1;
      NeverAhead(j, s[..n]);
      LeadNext(j, s[..n], s[n]);
      assert s[..n] + [s[n]] == s;
      assert Precedes(j, s[n]) || !Precedes(j, s[n]);
      assert GetsFinal(j, s[n]) || !GetsFinal(j, s[n]);
    }
  }

  lemma NothingPassed(j: Job)
    ensures Lead(j, []) == 0 && j.Passed([]) == Pass([], NO_RUN, 0)
  {
  }

  lemma LeadOfOne(j: Job, c: Point)
    ensures Lead(j, [c]) == Gain(j, Pass([], NO_RUN, 0), c)
    ensures j.Passed([c]) == PassStep(Pass([], NO_RUN, 0), c, j.Act(c), j.Squashes(), false)
  {
    LeadNext(j, [], c);
    assert [] + [c] == [c];
    assert j.Passed([]) == Pass([], NO_RUN, 0);
  }

  lemma OverAtEnd(j: Job, s: seq<Point>)
    ensures Over(j, s, |s|) <==> Lead(j, s) < 0
  {
    assert s[..|s|] == s;
  }

  /** A replacement that does not fit overtakes the reading at once. */
  lemma AheadAtOnce(j: Job, c: Point)
    requires !FinalIsSentinel(j) && GetsFinal(j, c) && Skip(j.w.final.value) > Skip(c)
    ensures Over(j, [c], 1)
  {
    hide Over, Skip, Lead;
    LeadOfOne(j, c);
    OverAtEnd(j, [c]);
  }

  /** The same where a character must precede it. */
  lemma AheadSecond(j: Job, b: Point, c: Point)
    requires FinalIsSentinel(j) && GetsFinal(j, c) && Precedes(j, b)
    requires Skip(j.w.fetch(b)) + Skip(NO_RUN) > Skip(b) + Skip(c)
    ensures Over(j, [b, c], 2)
  {
    hide Over, Skip, Lead;
    LeadOfOne(j, b);
    LeadNext(j, [b], c);
    OverAtEnd(j, [b] + [c]);
    assert [b] + [c] == [b, c];
  }

  /** Without growth among the pairs of the lists, no string's output ever overtakes its reading
      exactly if the final replacement fits. */
  lemma NeverOverExactly(j: Job)
    requires PairsFit(j.w)
    ensures FinalFits(j) <==> forall s: seq<Point>, i: nat | i <= |s| :: !Over(j, s, i)
  {
    if FinalFits(j) {
      forall s: seq<Point>, i: nat | i <= |s|
        ensures !Over(j, s, i)
      {
        NeverAhead(j, s[..i]);
      }
    } else if FinalIsSentinel(j) {
      var b: Point, c: Point :|
        GetsFinal(j, c) && Precedes(j, b) && Skip(j.w.fetch(b)) + Skip(NO_RUN) > Skip(b) + Skip(c);
      AheadSecond(j, b, c);
    } else {
      var c: Point :| GetsFinal(j, c) && Skip(j.w.final.value) > Skip(c);
      AheadAtOnce(j, c);
    }
  }

  /** A string on which the output overtakes the reading, and a character more, does not end well
      in any block. */
  lemma OverFails(j: Job, s: seq<Point>, i: nat, room: nat, copied: bool)
    requires i <= |s| && Over(j, s, i)
    ensures FateOf(j, s[..i] + [0], room, copied) != Complete
  {
    var t := s[..i] + [0];
    assert t[..i] == s[..i];
    assert Over(j, t, i);
    assert FirstOver(j, t, 0) <= i;
  }

  /** In place every string comes to its end, in every block that holds it, exactly if the final
      replacement fits. */
  lemma InPlaceExactly(j: Job)
    requires PairsFit(j.w)
    ensures FinalFits(j) <==>
              forall s: seq<Point>, room: nat, copied: bool | room > |EncodeAll(s)| ::
                FateOf(j, s, room, copied) == Complete
  {
    NeverOverExactly(j);
    if FinalFits(j) {
      forall s: seq<Point>, room: nat, copied: bool | room > |EncodeAll(s)|
        ensures FateOf(j, s, room, copied) == Complete
      {
        NeverFirst(j, s);
      }
    } else {
      var s: seq<Point>, i: nat :| i <= |s| && Over(j, s, i);
      var t := s[..i] + [0];
      OverFails(j, s, i, |EncodeAll(t)| + 1, true);
    }
  }

  // ----- The UTF-8 flag -----

  /** ASCII stays ASCII if nothing grows, not even by the final replacement. */
  lemma {:induction false} AsciiStays(j: Job, s: seq<Point>)
    requires PairsFit(j.w) && FinalFits(j) && IsAscii(s)
    ensures IsAscii(j.Passed(s).out)
    ensures FinalIsSentinel(j) && j.Passed(s).pch != NO_RUN ==> forall c: Point :: GetsFinal(j, c) ==> c >= 0x80
    decreases |s|
  {
    hide Lead, Job.Passed;
    if s == [] {
      NothingPassed(j);
    } else {
      var n := |s| - 1;
      AsciiStays(j, s[..n]);
      LeadNext(j, s[..n], s[n]);
      assert s[..n] + [s[n]] == s;
      assert Precedes(j, s[n]) || !Precedes(j, s[n]);
      assert GetsFinal(j, s[n]) || !GetsFinal(j, s[n]);
    }
  }

  /** So a string that has no UTF-8 flag, and needs none, needs none afterwards: every call that is
      made in place leaves the string it should. */
  lemma FlagIsRight(j: Job, contents: seq<byte>, isUtf8: bool, pts: seq<Point>)
    requires PairsFit(j.w) && FinalFits(j) && StandsFor(contents, isUtf8, pts)
    ensures isUtf8 || NeedsUpgrade(contents, isUtf8) || IsAscii(j.Passed(pts).out)
  {
    if !isUtf8 && !NeedsUpgrade(contents, isUtf8) {
      AsciiStays(j, pts);
    }
  }
}
