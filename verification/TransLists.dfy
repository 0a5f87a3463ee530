/** What a tr/// with characters above 0xFF does, told from its two lists alone. */
module TransLists {
  import opened Bits
  import opened Common
  import opened Utf8
  import opened Trans
  import opened TransUtf8
  import opened TransLaws
  import opened TransSwash
  import opened TransCompile

  /** The `n`-th character of a list. */
  function CharAt(t: seq<Range>, n: nat): (c: nat)
    requires Ranges(t) && n < Count(t)
    ensures c <= CHAR_MAX
  {
    var len := t[0].last - t[0].first + 1;
    if n < len then t[0].first + n else CharAt(t[1..], n - len)
  }

  predicate IsAt(t: seq<Range>, n: nat, c: nat)
    requires Ranges(t)
  {
    n < Count(t) && CharAt(t, n) == c
  }

  /** A character is in a range of a list. */
  predicate Listed(t: seq<Range>, c: nat) {
    exists i :: 0 <= i < |t| && t[i].first <= c <= t[i].last
  }

  /** No character is in a list twice. */
  ghost predicate Distinct(t: seq<Range>)
    requires Ranges(t)
  {
    forall m: nat, n: nat :: m < n < Count(t) ==> CharAt(t, m) != CharAt(t, n)
  }

  lemma {:induction false} PlaceOf(t: seq<Range>, i: nat, c: nat) returns (n: nat)
    requires Ranges(t) && i < |t| && t[i].first <= c <= t[i].last
    ensures n < Count(t) && CharAt(t, n) == c
  {
    if i == 0 {
      n := c - t[0].first;
    } else {
      n := PlaceOf(t[1..], i - 1, c);
      n := n + (t[0].last - t[0].first + 1);
    }
  }

  lemma {:induction false} RangeOf(t: seq<Range>, n: nat) returns (i: nat)
    requires Ranges(t) && n < Count(t)
    ensures i < |t| && t[i].first <= CharAt(t, n) <= t[i].last
  {
    var len := t[0].last - t[0].first + 1;
    if n < len {
      i := 0;
    } else {
      i := RangeOf(t[1..], n - len);
      i := i + 1;
    }
  }

  lemma ListedIsCharAt(t: seq<Range>, c: nat)
    requires Ranges(t)
    ensures Listed(t, c) <==> exists n: nat :: IsAt(t, n, c)
  {
    hide CharAt, Count, Ranges;
    if i: nat :| i < |t| && t[i].first <= c <= t[i].last {
      var n := PlaceOf(t, i, c);
      assert IsAt(t, n, c);
    }
    if n: nat :| IsAt(t, n, c) {
      var i := RangeOf(t, n);
    }
  }

  // ----- The lines -----

  /** How many characters the first `i` lines have. */
  function Offset(ls: seq<Line>, i: nat): (n: nat)
    requires i <= |ls| && ValidLines(ls)
  {
    if i == 0 then 0 else ls[0].last - ls[0].first + 1 + Offset(ls[1..], i - 1)
  }

  lemma {:induction false} OffsetNext(ls: seq<Line>, i: nat)
    requires i < |ls| && ValidLines(ls)
    ensures Offset(ls, i + 1) == Offset(ls, i) + ls[i].last - ls[i].first + 1
  {
    if i > 0 {
      OffsetNext(ls[1..], i - 1);
    }
  }

  lemma {:induction false} OffsetsRise(ls: seq<Line>, i: nat, k: nat)
    requires i < k <= |ls| && ValidLines(ls)
    ensures Offset(ls, k) >= Offset(ls, i) + ls[i].last - ls[i].first + 1
    decreases k
  {
    OffsetNext(ls, k - 1);
    if i < k - 1 {
      OffsetsRise(ls, i, k - 1);
    }
  }

  lemma CharBehind(t: seq<Range>, k: nat, n: nat)
    requires Ranges(t) && t != [] && 0 < k <= t[0].last - t[0].first + 1 && n < Count(t) - k
    ensures CharAt(Behind(t, k), n) == CharAt(t, n + k)
  {
    if k < t[0].last - t[0].first + 1 {
      assert Behind(t, k)[1..] == t[1..];
    }
  }

  /** The characters of a line are as many of the search list, one after the other, and what they are
      mapped to are those of the replacement list at the same places. */
  predicate Placed(t: seq<Range>, r: seq<Range>, l: Line, n: nat, k: nat)
    requires Ranges(t) && Ranges(r)
  {
    && n + k < Count(t) && CharAt(t, n + k) == l.first + k
    && if l.Mapped? then n + k < Count(r) && CharAt(r, n + k) == l.to + k else n + k >= Count(r)
  }

  ghost predicate AllPlaced(t: seq<Range>, r: seq<Range>, ls: seq<Line>)
    requires Ranges(t) && Ranges(r) && ValidLines(ls)
  {
    forall i: nat, k: nat :: i < |ls| && k <= ls[i].last - ls[i].first ==> Placed(t, r, ls[i], Offset(ls, i), k)
  }

  lemma {:induction false} LinesAllPlaced(t: seq<Range>, r: seq<Range>)
    requires Ranges(t) && Ranges(r)
    ensures AllPlaced(t, r, Lines(t, r))
    decreases Count(t)
  {
    hide AllPlaced, CharAt;
    if t == [] {
      NothingPlaced(t, r);
    } else if r == [] {
      RestBehind(t);
      LinesAllPlaced(t[1..], []);
      hide Lines, Count;
      RestPlaced(t, Lines(t, []));
    } else {
      LinesBehind(t, r);
      LinesAllPlaced(Behind(t, Shared(t[0], r[0])), Behind(r, Shared(t[0], r[0])));
      hide Lines, Count;
      MappedPlaced(t, r, Lines(t, r));
    }
  }

  lemma NothingPlaced(t: seq<Range>, r: seq<Range>)
    requires Ranges(t) && Ranges(r)
    ensures AllPlaced(t, r, [])
  {
  }

  lemma RestPlaced(t: seq<Range>, ls: seq<Line>)
    requires Ranges(t) && t != [] && ValidLines(ls) && ls != [] && ls[0] == Rest(t[0].first, t[0].last)
    requires AllPlaced(t[1..], [], ls[1..])
    ensures AllPlaced(t, [], ls)
  {
    forall i: nat, k: nat | i < |ls| && k <= ls[i].last - ls[i].first
      ensures Placed(t, [], ls[i], Offset(ls, i), k)
    {
      if i > 0 {
        assert Placed(t[1..], [], ls[1..][i - 1], Offset(ls[1..], i - 1), k);
      }
    }
  }

  lemma MappedPlaced(t: seq<Range>, r: seq<Range>, ls: seq<Line>)
    requires Ranges(t) && Ranges(r) && t != [] && r != [] && ValidLines(ls) && ls != []
    requires ls[0] == Mapped(t[0].first, t[0].first + Shared(t[0], r[0]) - 1, r[0].first)
    requires AllPlaced(Behind(t, Shared(t[0], r[0])), Behind(r, Shared(t[0], r[0])), ls[1..])
    ensures AllPlaced(t, r, ls)
  {
    var n := Shared(t[0], r[0]);
    forall i: nat, k: nat | i < |ls| && k <= ls[i].last - ls[i].first
      ensures Placed(t, r, ls[i], Offset(ls, i), k)
    {
      if i > 0 {
        assert Placed(Behind(t, n), Behind(r, n), ls[1..][i - 1], Offset(ls[1..], i - 1), k);
        PlacedBehind(t, r, n, ls[i], Offset(ls[1..], i - 1), k);
      }
    }
  }

  lemma LinesPlaced(t: seq<Range>, r: seq<Range>, i: nat, k: nat)
    requires Ranges(t) && Ranges(r) && i < |Lines(t, r)| && k <= Lines(t, r)[i].last - Lines(t, r)[i].first
    ensures Placed(t, r, Lines(t, r)[i], Offset(Lines(t, r), i), k)
  {
    hide Lines, Placed, Offset;
    LinesAllPlaced(t, r);
  }

  lemma RestBehind(t: seq<Range>)
    requires Ranges(t) && t != []
    ensures Lines(t, []) != [] && Lines(t, [])[1..] == Lines(t[1..], []) && Count(t[1..]) < Count(t)
    ensures Lines(t, [])[0] == Rest(t[0].first, t[0].last)
  {
    FirstRest(t);
  }

  lemma LinesBehind(t: seq<Range>, r: seq<Range>)
    requires Ranges(t) && Ranges(r) && t != [] && r != []
    ensures var n := Shared(t[0], r[0]);
            && Lines(t, r) != [] && Lines(t, r)[1..] == Lines(Behind(t, n), Behind(r, n))
            && Count(Behind(t, n)) == Count(t) - n
            && Lines(t, r)[0] == Mapped(t[0].first, t[0].first + n - 1, r[0].first)
  {
    FirstMapped(t, r);
    hide Lines;
  }

  lemma PlacedBehind(t: seq<Range>, r: seq<Range>, n: nat, l: Line, m: nat, k: nat)
    requires Ranges(t) && Ranges(r) && t != [] && r != [] && n == Shared(t[0], r[0])
    requires Placed(Behind(t, n), Behind(r, n), l, m, k)
    ensures Placed(t, r, l, n + m, k)
  {
    hide CharAt;
    CharBehind(t, n, m + k);
    if l.Mapped? {
      CharBehind(r, n, m + k);
    }
  }

  /** The lines have all characters of the search list. */
  lemma {:induction false} LinesTotal(t: seq<Range>, r: seq<Range>)
    requires Ranges(t) && Ranges(r)
    ensures Offset(Lines(t, r), |Lines(t, r)|) == Count(t)
    decreases Count(t)
  {
    if t != [] {
      if r == [] {
        RestBehind(t);
        LinesTotal(t[1..], []);
      } else {
        LinesBehind(t, r);
        LinesTotal(Behind(t, Shared(t[0], r[0])), Behind(r, Shared(t[0], r[0])));
      }
      hide Lines, Behind;
    }
  }

  /** The line that the `n`-th character is in. */
  function LineAt(ls: seq<Line>, n: nat): (i: nat)
    requires ValidLines(ls) && n < Offset(ls, |ls|)
    ensures i < |ls| && Offset(ls, i) <= n <= Offset(ls, i) + ls[i].last - ls[i].first
  {
    var len := ls[0].last - ls[0].first + 1;
    if n < len then 0 else 1 + LineAt(ls[1..], n - len)
  }

  // ----- What the lookup answers -----

  /** A character that is in no range of the search list is not found in a line. */
  lemma UnlistedHasNoLine(t: seq<Range>, r: seq<Range>, c: nat, i: nat)
    requires Ranges(t) && Ranges(r) && i < |Lines(t, r)| && Lines(t, r)[i].Holds(c)
    ensures Listed(t, c)
  {
    hide Lines, CharAt, Listed;
    var l := Lines(t, r)[i];
    LinesPlaced(t, r, i, c - l.first);
    ListedIsCharAt(t, c);
    assert IsAt(t, Offset(Lines(t, r), i) + (c - l.first), c);
  }

  /** The answer for a character: NONE where it is not listed; and what its place in the list asks for
      where it is, if that is the only one. */
  lemma FetchedListed(t: seq<Range>, r: seq<Range>, n: nat)
    requires Ranges(t) && Ranges(r) && Distinct(t) && n < Count(t)
    ensures Fetched(Lines(t, r), CharAt(t, n))
         == if n < Count(r) then CharAt(r, n) else (NoneOf(Lines(t, r)) + 1) % 0x1_0000_0000
  {
    hide Lines, CharAt, Fetched, NoneOf, Distinct, Offset, Count;
    var ls, c := Lines(t, r), CharAt(t, n);
    LinesTotal(t, r);
    var i := LineAt(ls, n);
    LinesPlaced(t, r, i, n - Offset(ls, i));
    AllApart(t, r);
    FetchedOnce(ls, c);
    assert ls[i].Holds(c);
  }

  lemma AllApart(t: seq<Range>, r: seq<Range>)
    requires Ranges(t) && Ranges(r) && Distinct(t)
    ensures var ls := Lines(t, r);
            forall k, m :: 0 <= k < m < |ls| ==> ls[k].last < ls[m].first || ls[m].last < ls[k].first
  {
    hide Lines, Distinct;
    var ls := Lines(t, r);
    forall k, m | 0 <= k < m < |ls|
      ensures ls[k].last < ls[m].first || ls[m].last < ls[k].first
    {
      LinesApart(t, r, k, m);
    }
  }

  lemma LinesApart(t: seq<Range>, r: seq<Range>, k: nat, m: nat)
    requires Ranges(t) && Ranges(r) && Distinct(t) && k < m < |Lines(t, r)|
    ensures Lines(t, r)[k].last < Lines(t, r)[m].first || Lines(t, r)[m].last < Lines(t, r)[k].first
  {
    hide Lines, CharAt, Offset;
    var ls := Lines(t, r);
    var a, b := ls[k], ls[m];
    if a.last >= b.first && b.last >= a.first {
      var c := if a.first > b.first then a.first else b.first;
      LinesPlaced(t, r, k, c - a.first);
      LinesPlaced(t, r, m, c - b.first);
      OffsetsRise(ls, k, m);
      assert false;
    }
  }

  lemma FetchedUnlisted(t: seq<Range>, r: seq<Range>, c: nat)
    requires Ranges(t) && Ranges(r) && !Listed(t, c)
    ensures Fetched(Lines(t, r), c) == NoneOf(Lines(t, r)) % 0x1_0000_0000
  {
    hide Lines, Serving, IsKept, Listed, NoneOf;
    var ls := Lines(t, r);
    ServingIs(ls, c, |ls|);
    if Serving(ls, c, |ls|).Some? {
      UnlistedHasNoLine(t, r, c, Serving(ls, c, |ls|).value);
    }
  }

  // ----- What is done -----

  /** What becomes of a character that the replacement list has nothing for. */
  function Leftover(c: Point, final: Option<Point>, del: bool, squash: bool): (a: Action)
    ensures a != Keep
  {
    if del then Delete else if final.Some? then Put(final.value) else if squash then Put(c) else Put(0)
  }

  /** What the lists ask for: a character that is not in the search list is kept, and the `n`-th of
      the search list becomes the `n`-th of the replacement list. */
  ghost predicate Asked(t: seq<Range>, r: seq<Range>, j: Job, c: Point, a: Action)
    requires Ranges(t) && Ranges(r)
  {
    if !Listed(t, c) then a == Keep
    else
      exists n: nat :: IsAt(t, n, c)
                       && a == if n < Count(r) then Put(CharAt(r, n))
                               else Leftover(c, j.w.final, j.Complex? && j.del, j.Squashes())
  }

  /** If no character is twice in the search list, and 0x7fffffff is no replacement, each character is
      treated exactly as the lists ask for. */
  lemma TreatedAsAsked(t: seq<Range>, r: seq<Range>, j: Job, c: Point, a: Action)
    requires Ranges(t) && Ranges(r) && Distinct(t) && Serves(j.w, Lines(t, r), j.w.final)
    requires Largest(Lines(t, r)) < CHAR_MAX
    ensures Asked(t, r, j, c, a) <==> a == j.Act(c)
  {
    hide Lines, CharAt, Fetched, Largest;
    ListedIsCharAt(t, c);
    var ls := Lines(t, r);
    LargestBound(ls);
    if Listed(t, c) {
      var n: nat :| IsAt(t, n, c);
      FetchedListed(t, r, n);
      if n < Count(r) {
        RepliesSmall(t, r, n);
      }
      assert forall m: nat :: IsAt(t, m, c) ==> m == n;
    } else {
      FetchedUnlisted(t, r, c);
    }
  }

  /** Replacements are below NONE. */
  lemma RepliesSmall(t: seq<Range>, r: seq<Range>, n: nat)
    requires Ranges(t) && Ranges(r) && n < Count(t) && n < Count(r)
    ensures CharAt(r, n) <= Largest(Lines(t, r))
  {
    hide Lines, CharAt, Largest, Offset;
    var ls := Lines(t, r);
    LinesTotal(t, r);
    LargestBound(ls);
    var i := LineAt(ls, n);
    LinesPlaced(t, r, i, n - Offset(ls, i));
  }

  /** How many characters of a string are listed. */
  function ListedCount(t: seq<Range>, s: seq<Point>): nat {
    if s == [] then 0 else ListedCount(t, s[..|s| - 1]) + BoolVal(Listed(t, s[|s| - 1]))
  }

  lemma {:induction false} CountsListed(t: seq<Range>, r: seq<Range>, j: Job, s: seq<Point>, acts: seq<Action>)
    requires Ranges(t) && Ranges(r) && |acts| == |s| && forall i :: 0 <= i < |s| ==> Asked(t, r, j, s[i], acts[i])
    ensures MatchedCount(acts) == ListedCount(t, s)
    ensures j.Simple? ==> SimpleCount(acts) == ListedCount(t, s)
  {
    hide Listed, CharAt, Count;
    if s != [] {
      CountsListed(t, r, j, s[..|s| - 1], acts[..|s| - 1]);
      assert Asked(t, r, j, s[|s| - 1], acts[|s| - 1]);
    }
  }

  /** What both functions make of a string: the outputs that the lists ask for, one after the other,
      under squash without those that repeat a replacement (deleted characters between them do not
      count), exactly unless the value that stands for "no run" is such an output where no run is on;
      and the count of the listed characters. */
  lemma TransliteratedAsAsked(t: seq<Range>, r: seq<Range>, j: Job, s: seq<Point>, acts: seq<Action>)
    requires Ranges(t) && Ranges(r) && Distinct(t) && Serves(j.w, Lines(t, r), j.w.final)
    requires Largest(Lines(t, r)) < CHAR_MAX
    requires |acts| == |s| && forall i :: 0 <= i < |s| ==> Asked(t, r, j, s[i], acts[i])
    ensures j.Passed(s).out == Outputs(s, acts, j.Squashes(), false)
            <==> !j.Squashes() || forall i :: 0 <= i < |acts| ==> !Collides(acts, i, false)
    ensures j.Passed(s).matches == ListedCount(t, s)
    ensures j.Simple? ==> SimpleCount(j.Acts(s)) == ListedCount(t, s)
  {
    hide Asked, Outputs, Collides, Lines, Largest, Serves, Distinct, Ranges;
    forall i | 0 <= i < |s|
      ensures j.Acts(s)[i] == acts[i]
    {
      TreatedAsAsked(t, r, j, s[i], acts[i]);
    }
    assert j.Acts(s) == acts;
    CountsListed(t, r, j, s, acts);
    PassIsListwise(s, acts, j.Squashes(), false);
    TranslateIsListwise(s, acts, j.Squashes(), false);
  }

  // ----- Where the lists are not followed -----

  /** Whatever is twice in the search list: a character is left alone, or treated as one of its places
      asks for; and it is left alone exactly if every line that has it starts where an earlier one
      does. */
  lemma InAnyList(t: seq<Range>, r: seq<Range>, j: Job, c: Point)
    requires Ranges(t) && Ranges(r) && Serves(j.w, Lines(t, r), j.w.final) && Largest(Lines(t, r)) < CHAR_MAX
    ensures j.Act(c) == Keep || (Listed(t, c) && Asked(t, r, j, c, j.Act(c)))
    ensures j.Act(c) == Keep <==> LeftAlone(Lines(t, r), c)
  {
    hide Lines, CharAt, Largest, Serving, Listed, Count, Asked, Ranges, Leftover, Offset, LeftAlone, Job.Act, Fetched;
    var ls := Lines(t, r);
    ServingIs(ls, c, |ls|);
    NobodyServes(ls, c);
    ActOfLine(ls, j, c);
    if Serving(ls, c, |ls|).Some? {
      var i := Serving(ls, c, |ls|).value;
      assert MayServe(ls, c, i);
      LinesPlaced(t, r, i, c - ls[i].first);
      PlacedIsAsked(t, r, j, ls[i], Offset(ls, i), c, j.Act(c));
    }
  }

  /** Every line that has the character starts where an earlier one does. */
  predicate LeftAlone(ls: seq<Line>, c: nat) {
    forall i :: 0 <= i < |ls| && ls[i].Holds(c) ==> exists k :: 0 <= k < i && ls[k].first == ls[i].first
  }

  lemma NobodyServes(ls: seq<Line>, c: nat)
    ensures LeftAlone(ls, c) <==> forall i :: 0 <= i < |ls| ==> !MayServe(ls, c, i)
  {
    if !LeftAlone(ls, c) {
      var i :| 0 <= i < |ls| && ls[i].Holds(c) && !exists k :: 0 <= k < i && ls[k].first == ls[i].first;
      assert MayServe(ls, c, i);
    }
  }

  lemma ActOfLine(ls: seq<Line>, j: Job, c: Point)
    requires ValidLines(ls) && Serves(j.w, ls, j.w.final) && Largest(ls) < CHAR_MAX
    ensures match Serving(ls, c, |ls|)
            case None => j.Act(c) == Keep
            case Some(i) => ls[i].Holds(c)
                            && j.Act(c) == if ls[i].Mapped? then Put(ls[i].to + (c - ls[i].first))
                                           else Leftover(c, j.w.final, j.Complex? && j.del, j.Squashes())
  {
    hide Serving, Largest, IsKept;
    LargestBound(ls);
    ServingIs(ls, c, |ls|);
  }

  lemma PlacedIsAsked(t: seq<Range>, r: seq<Range>, j: Job, l: Line, n: nat, c: Point, a: Action)
    requires Ranges(t) && Ranges(r) && l.Holds(c) && Placed(t, r, l, n, c - l.first)
    requires a == if l.Mapped? then Put(l.to + (c - l.first))
                  else Leftover(c, j.w.final, j.Complex? && j.del, j.Squashes())
    ensures Listed(t, c) && Asked(t, r, j, c, a)
  {
    hide CharAt, Count, Leftover, Listed, Ranges;
    ListedIsCharAt(t, c);
    var m: nat := n + (c - l.first);
    assert IsAt(t, m, c);
    if l.Mapped? {
      assert m < Count(r) && a == Put(CharAt(r, m));
    } else {
      assert m >= Count(r);
    }
    assert Asked(t, r, j, c, a);
  }

  /** tr/\x{100}\x{100}-\x{102}/\x{200}-\x{203}/ leaves \x{101} alone: the line for the range starts
      where that for the single character does. */
  lemma RepeatedStart(j: Job)
    requires Serves(j.w, [Mapped(0x100, 0x100, 0x200), Mapped(0x100, 0x102, 0x201)], j.w.final)
    ensures var t, r := [Range(0x100, 0x100), Range(0x100, 0x102)], [Range(0x200, 0x203)];
            && Ranges(t) && Ranges(r) && Lines(t, r) == [Mapped(0x100, 0x100, 0x200), Mapped(0x100, 0x102, 0x201)]
            && Count(t) > 2 && CharAt(t, 2) == 0x101 && j.Act(0x101) == Keep
  {
    var t, r := [Range(0x100, 0x100), Range(0x100, 0x102)], [Range(0x200, 0x203)];
    var t', r' := [Range(0x100, 0x102)], [Range(0x201, 0x203)];
    assert t[1..] == t' && r[1..] == [] && t'[1..] == [] && r'[1..] == [];
    assert Behind(t, 1) == t' && Behind(r, 1) == r';
    assert Lines([], []) == [] && Lines(t', r') == [Mapped(0x100, 0x102, 0x201)];
    FirstMapped(t, r);
    assert CharAt(t, 2) == CharAt(t', 1) == 0x101;
    hide Lines, CharAt;
    var ls := [Mapped(0x100, 0x100, 0x200), Mapped(0x100, 0x102, 0x201)];
    assert [Mapped(0x100, 0x100, 0x200)] + [Mapped(0x100, 0x102, 0x201)] == ls;
    LargestOfRepeated();
    assert ls[0].first == ls[1].first;
    InAnyList(t, r, j, 0x101);
  }

  lemma LargestOfRepeated()
    ensures Largest([Mapped(0x100, 0x100, 0x200), Mapped(0x100, 0x102, 0x201)]) == 0x203
  {
    var one, two := [Mapped(0x100, 0x100, 0x200)], [Mapped(0x100, 0x100, 0x200), Mapped(0x100, 0x102, 0x201)];
    LargestSnoc([], Mapped(0x100, 0x100, 0x200));
    LargestSnoc(one, Mapped(0x100, 0x102, 0x201));
    assert [] + one == one && one + [Mapped(0x100, 0x102, 0x201)] == two;
  }

  /** A character that is not listed is kept exactly if NONE does not overflow: with 0x7fffffff among
      the replacements it becomes \x{80000000}. */
  lemma NoneOverflows(t: seq<Range>, r: seq<Range>, j: Job, c: Point)
    requires Ranges(t) && Ranges(r) && Serves(j.w, Lines(t, r), j.w.final) && !Listed(t, c)
    ensures j.Act(c) == if Largest(Lines(t, r)) < 0x7fff_ffff then Keep else Put(0x8000_0000)
  {
    hide Lines, Listed, Fetched, Largest;
    FetchedUnlisted(t, r, c);
    LargestBound(Lines(t, r));
  }

  // ----- The final replacement -----

  /** The replacement list is used up before the search list exactly if that is longer. */
  lemma {:induction false} LeftoverExactly(t: seq<Range>, r: seq<Range>)
    requires Ranges(t) && Ranges(r)
    ensures TransCompile.Leftover(Lines(t, r)) <==> Count(t) > Count(r)
  {
    hide Lines, Offset, CharAt;
    var ls := Lines(t, r);
    LinesTotal(t, r);
    if i :| 0 <= i < |ls| && ls[i].Rest? {
      LinesPlaced(t, r, i, 0);
    }
    if Count(t) > Count(r) {
      var n := Count(t) - 1;
      var i := LineAt(ls, n);
      LinesPlaced(t, r, i, n - Offset(ls, i));
    }
  }

  /** FINAL is the last character of the replacement list. */
  lemma {:induction false} LastIsFinal(r: seq<Range>)
    requires Ranges(r) && r != []
    ensures Count(r) > 0 && CharAt(r, Count(r) - 1) == r[|r| - 1].last
  {
    if |r| > 1 {
      LastIsFinal(r[1..]);
    } else {
      assert r[1..] == [];
    }
  }
}
