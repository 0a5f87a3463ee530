/** Amortised cost of filling an array from either end. */
module PerlArrayCost {
  import opened Bits
  import opened Common
  import opened PerlArraySpec
  import opened PerlArrayRoom
  import opened PerlArrayLaws
  import opened PerlArray

  /** The storage after `n` single pushes onto an empty array. */
  function PushTimes(n: nat): (r: Room)
    requires n <= SSIZE_MAX
    ensures r.Valid() && r.offset == 0 && r.moved == 0 && r.fill == n - 1
  {
    if n == 0 then NO_ROOM else Pushed(PushTimes(n - 1))
  }

  /** A push copies nothing unless the block is full, and a full block grows to at least 6/5 of
      its size. */
  lemma OnePush(r: Room)
    requires r.Valid() && r.offset == 0 && 2 * (r.fill + 1) <= SSIZE_MAX
    ensures var p := Pushed(r);
            if r.fill < r.Max() then p.cells == r.cells && p.copied == r.copied
            else if r.cells == 0 then p.cells == 2 && p.copied == r.copied
            else 5 * p.cells >= 6 * r.cells && p.copied == r.copied + r.cells && p.cells > r.cells
  {
  }

  /** `n` single pushes copy fewer than 6n cells in reallocations. The bound by the size of the
      block is what carries the induction. */
  lemma {:induction false} PushesAreCheap(n: nat)
    requires 2 * n <= SSIZE_MAX
    ensures CheaplyPushed(PushTimes(n), n)
  {
    hide CheaplyPushed, Pushed, Room.Valid;
    if n == 0 {
      NothingPushed();
    } else {
      PushesAreCheap(n - 1);
      CheapPush(PushTimes(n - 1), n - 1);
    }
  }

  predicate CheaplyPushed(r: Room, n: nat) {
    && r.copied <= 5 * r.cells
    && (if n == 0 then r.cells == 0 else r.cells >= 2 && r.copied < 6 * n)
  }

  lemma NothingPushed()
    ensures CheaplyPushed(NO_ROOM, 0)
  {
  }

  lemma CheapPush(r: Room, n: nat)
    requires r.Valid() && r.offset == 0 && r.fill == n - 1 && 2 * n <= SSIZE_MAX && CheaplyPushed(r, n)
    ensures CheaplyPushed(Pushed(r), n + 1)
  {
    OnePush(r);
    hide Pushed, Extended;
  }

  /** The storage after `n` single unshifts onto an empty array. */
  function UnshiftTimes(n: nat): (r: Room)
    requires 2 * n <= SSIZE_MAX
    ensures r.Valid() && r.fill == n - 1
  {
    if n == 0 then NO_ROOM else Unshifted(UnshiftTimes(n - 1), 1)
  }

  /** An unshift either uses headroom up, or makes as much of it as there are elements and
      moves them once; then a block that has to grow grows to at least 6/5 of its size, and had
      fewer than twice as many cells as there are elements. */
  lemma OneUnshift(r: Room)
    requires r.Valid() && 3 * (r.fill + 1) <= SSIZE_MAX
    ensures var e := r.fill + 1;
            var u := Unshifted(r, 1);
            if r.offset > 0 then u == r.(offset := r.offset - 1, fill := r.fill + 1)
            else && u.moved == r.moved + e && u.offset == (if e > 1 then e - 1 else 0)
                 && if u.cells == r.cells then u.copied == r.copied
                    else 5 * u.cells >= 6 * r.cells && u.copied == r.copied + r.cells && r.cells <= 2 * e
  {
  }

  /** `n` single unshifts move fewer than 2n elements, because what has been moved never
      exceeds the elements and the headroom together, and the headroom stays below the number
      of elements. Reallocations copy fewer than 12n cells besides. */
  lemma {:induction false} UnshiftsAreCheap(n: nat)
    requires 3 * n <= SSIZE_MAX
    ensures CheaplyUnshifted(UnshiftTimes(n), n)
  {
    hide CheaplyUnshifted, Unshifted, Room.Valid;
    if n == 0 {
      NothingUnshifted();
    } else {
      UnshiftsAreCheap(n - 1);
      CheapUnshift(UnshiftTimes(n - 1), n - 1);
    }
  }

  predicate CheaplyUnshifted(r: Room, n: nat) {
    && r.copied <= 5 * r.cells
    && (n == 0 ==> r == NO_ROOM)
    && (n > 0 ==> r.offset < n && r.moved < n + r.offset && r.moved < 2 * n && r.copied < 12 * n)
  }

  lemma NothingUnshifted()
    ensures CheaplyUnshifted(NO_ROOM, 0)
  {
  }

  lemma CheapUnshift(r: Room, n: nat)
    requires r.Valid() && r.fill == n - 1 && 3 * n <= SSIZE_MAX && CheaplyUnshifted(r, n)
    ensures CheaplyUnshifted(Unshifted(r, 1), n + 1)
  {
    OneUnshift(r);
    hide Unshifted, Extended, Room.Valid;
  }

  // ----- How many unshifts there can be -----

  /** The least power of two that is not below `n`. */
  function Ceiling(n: nat): (c: nat)
    ensures c >= n && (n > 0 ==> c < 2 * n)
  {
    if n <= 1 then 1 else 2 * Ceiling((n + 1) / 2)
  }

  lemma {:induction false} CeilingNext(n: nat)
    requires n > 0
    ensures Ceiling(n + 1) == if Ceiling(n) == n then 2 * n else Ceiling(n)
  {
    hide Ceiling;
    var a := n / 2;
    if n == 1 {
      CeilingOfTwo();
    } else if n == 2 * a {
      CeilingDouble(a);
      CeilingNext(a);
    } else {
      CeilingDouble(a);
      CeilingDouble(a + 1);
    }
  }

  lemma CeilingOfTwo()
    ensures Ceiling(1) == 1 && Ceiling(2) == 2
  {
  }

  lemma CeilingDouble(a: nat)
    requires a > 0
    ensures Ceiling(2 * a) == 2 * Ceiling(a) && Ceiling(2 * a + 1) == 2 * Ceiling(a + 1)
  {
  }

  lemma {:induction false} CeilingBelow(n: nat, k: nat)
    requires Ceiling(n) == n < Pow2(k)
    ensures 2 * n <= Pow2(k)
  {
    if n > 1 {
      CeilingBelow(n / 2, k - 1);
    }
  }

  lemma {:induction false} CeilingOfPow2(k: nat)
    ensures Ceiling(Pow2(k)) == Pow2(k)
  {
    if k > 0 {
      CeilingOfPow2(k - 1);
    }
  }

  lemma Pow2Of31()
    ensures Pow2(31) == I32_MAX + 1
  {
    Pow2Of8();
    Pow2Step(8);
    Pow2Step(16);
    Pow2Step(24);
    assert Pow2(32) == 2 * Pow2(31);
  }

  /** The headroom that single unshifts leave fills the elements up to a power of two, and the block
      is not much larger. */
  lemma {:induction false} HeadroomIs(n: nat)
    requires 0 < n && 3 * n <= SSIZE_MAX
    ensures var r := UnshiftTimes(n);
            r.offset == Ceiling(n) - n && 4 * r.cells <= 5 * Ceiling(n) + 8
  {
    hide Unshifted, Room.Valid;
    if n == 1 {
      FirstUnshift();
    } else {
      HeadroomIs(n - 1);
      CeilingNext(n - 1);
      hide Ceiling;
      NextUnshift(UnshiftTimes(n - 1));
    }
  }

  lemma FirstUnshift()
    ensures UnshiftTimes(0) == NO_ROOM
    ensures var r := Unshifted(NO_ROOM, 1); r.offset == 0 && r.cells == 2
  {
  }

  lemma NextUnshift(r: Room)
    requires r.Valid() && r.fill >= 0 && 3 * (r.fill + 1) <= SSIZE_MAX
    ensures var u, e := Unshifted(r, 1), r.fill + 1;
            if r.offset > 0 then u.offset == r.offset - 1 && u.cells == r.cells
            else u.offset == e - 1 && (4 * r.cells <= 5 * e + 8 ==> 4 * u.cells <= 10 * e + 8)
  {
  }

  /** 2 ** 31 unshifts onto an empty array succeed, for the headroom runs out at powers of two only. */
  lemma UnshiftSucceeds(s: State, n: nat)
    requires n <= I32_MAX && |s.elems| == n
    ensures var r := UnshiftTimes(n);
            var o := UnshiftStep(s, Layout(r.offset, r.Max()), 1);
            o.ret == Done && o.state.elems == Nulls(1) + s.elems && o.state.isReal
  {
    if n > 0 {
      HeadroomIs(n);
      Pow2Of31();
      if Ceiling(n) == n {
        CeilingBelow(n, 31);
      }
    }
    hide Ceiling, UnshiftTimes;
  }

  /** The next one croaks. */
  lemma UnshiftRefused(s: State)
    requires |s.elems| == I32_MAX + 1
    ensures var r := UnshiftTimes(I32_MAX + 1);
            UnshiftStep(s, Layout(r.offset, r.Max()), 1).ret == Croak(TooManyElements)
  {
    hide Ceiling, UnshiftTimes, UnshiftStep;
    HeadroomIs(I32_MAX + 1);
    Pow2Of31();
    CeilingOfPow2(31);
    TooFar(s, UnshiftTimes(I32_MAX + 1), I32_MAX + 1);
  }

  lemma TooFar(s: State, r: Room, n: nat)
    requires r.Valid() && r.offset == 0 && |s.elems| == n > 8 && 4 * r.cells <= 5 * n + 8 && 2 * n - 1 > I32_MAX
    ensures UnshiftStep(s, Layout(r.offset, r.Max()), 1).ret == Croak(TooManyElements)
  {
    hide Reified;
  }

  // ----- A queue -----

  /** An element is pushed and one is shifted off. */
  function Turn(r: Room): (t: Room)
    requires r.Valid() && r.fill + 1 <= I32_MAX
    ensures t.Valid() && t.fill == r.fill
  {
    Shifted(Pushed(r))
  }

  /** The same `k` times. */
  function Turns(r: Room, k: nat): (t: Room)
    requires r.Valid() && r.fill + 1 <= I32_MAX
    ensures t.Valid() && t.fill == r.fill
    decreases k
  {
    if k == 0 then r else Turn(Turns(r, k - 1))
  }

  /** A block with `slack` cells more than the queue has elements, the window at its start. */
  predicate Queue(r: Room, n: nat, slack: nat) {
    r.Valid() && r.fill == n - 1 && r.offset == 0 && r.cells == n + slack && slack > 0 && n < I32_MAX
  }

  /** As long as there is room the window wanders through the block; then all elements slide
      back, and nothing grows if the slack is more than the constant ten. */
  lemma OneTurn(r: Room, n: nat, slack: nat, o: nat)
    requires Queue(r, n, slack) && o <= slack
    ensures var t := Turn(r.(offset := o));
            if o < slack then t == r.(offset := o + 1)
            else if slack > 10 then t == r.(offset := 1, moved := r.moved + n)
            else t == r.(offset := 1, moved := r.moved + n, cells := 2 * n + slack, copied := r.copied + r.cells)
  {
  }

  lemma {:induction false} TurnsWithin(r: Room, n: nat, slack: nat, o: nat, k: nat)
    requires Queue(r, n, slack) && o + k <= slack
    ensures Turns(r.(offset := o), k) == r.(offset := o + k)
  {
    if k > 0 {
      TurnsWithin(r, n, slack, o, k - 1);
      OneTurn(r, n, slack, o + k - 1);
    }
  }

  lemma {:induction false} TurnsAdd(r: Room, j: nat, k: nat)
    requires r.Valid() && r.fill + 1 <= I32_MAX
    ensures Turns(r, j + k) == Turns(Turns(r, j), k)
    decreases k
  {
    hide Turn, Room.Valid;
    if k > 0 {
      TurnsAdd(r, j, k - 1);
      assert Turns(r, j + k) == Turn(Turns(r, j + k - 1));
    }
  }

  /** One round through the block moves every element once. */
  lemma OneRound(r: Room, n: nat, slack: nat)
    requires Queue(r, n, slack) && slack > 10
    ensures Turns(r.(offset := 1), slack) == r.(offset := 1, moved := r.moved + n)
  {
    TurnsWithin(r, n, slack, 1, slack - 1);
    OneTurn(r, n, slack, slack);
    hide Turn;
  }

  /** The cost of a queue of `n` elements is not linear in the number of its turns: with a slack
      of more than ten cells the block never grows, and every `slack` turns slide `n` elements. A
      turn costs at most `c` moves on average exactly if the slack is at least `n / c`. */
  lemma QueueCost(r: Room, n: nat, slack: nat, m: nat)
    requires Queue(r, n, slack) && slack > 10
    ensures var t := Turns(r.(offset := 1), m * slack);
            && t.moved == r.moved + m * n && t == r.(offset := 1, moved := t.moved)
            && (m > 0 ==> forall c: nat :: t.moved - r.moved <= c * (m * slack) <==> n <= c * slack)
  {
    Rounds(r, n, slack, m);
    if m > 0 {
      forall c: nat
        ensures m * n <= c * (m * slack) <==> n <= c * slack
      {
        PerTurn(n, slack, m, c);
      }
    }
    hide Turns, Queue, Room.Valid;
    TimesIs(m, slack);
    TimesIs(m, n);
    hide Times;
  }

  function Times(m: nat, x: nat): nat {
    if m == 0 then 0 else Times(m - 1, x) + x
  }

  lemma {:induction false} TimesIs(m: nat, x: nat)
    ensures Times(m, x) == m * x
  {
    if m > 0 {
      TimesIs(m - 1, x);
      assert m * x == (m - 1) * x + x;
    }
  }

  lemma {:induction false} Rounds(r: Room, n: nat, slack: nat, m: nat)
    requires Queue(r, n, slack) && slack > 10
    ensures Turns(r.(offset := 1), Times(m, slack)) == r.(offset := 1, moved := r.moved + Times(m, n))
    decreases m
  {
    hide Turn;
    if m > 0 {
      Rounds(r, n, slack, m - 1);
      hide Turns, Queue;
      MoreRounds(r, n, slack, Times(m - 1, slack), Times(m - 1, n));
    }
  }

  lemma MoreRounds(r: Room, n: nat, slack: nat, turns: nat, moves: nat)
    requires Queue(r, n, slack) && slack > 10
    requires Turns(r.(offset := 1), turns) == r.(offset := 1, moved := r.moved + moves)
    ensures Turns(r.(offset := 1), turns + slack) == r.(offset := 1, moved := r.moved + moves + n)
  {
    hide Turns, Turn;
    OneRound(r.(moved := r.moved + moves), n, slack);
    TurnsAdd(r.(offset := 1), turns, slack);
  }

  lemma PerTurn(n: nat, slack: nat, m: nat, c: nat)
    requires m > 0
    ensures m * n <= c * (m * slack) <==> n <= c * slack
  {
    assert c * (m * slack) == m * (c * slack);
    if n <= c * slack {
      assert m * n <= m * (c * slack);
    } else {
      assert m * (c * slack + 1) <= m * n;
    }
  }

  /** With less slack the block grows at the end of the first round, and has more slack than
      elements from then on: a turn costs less than one move. */
  lemma QueueSettles(r: Room, n: nat, slack: nat)
    requires Queue(r, n, slack) && slack <= 10
    ensures var t := Turns(r, slack + 1);
            && t == r.(offset := 1, moved := r.moved + n, cells := 2 * n + slack, copied := r.copied + r.cells)
            && Queue(t.(offset := 0), n, n + slack)
  {
    assert r.(offset := 0) == r;
    TurnsWithin(r, n, slack, 0, slack);
    OneTurn(r, n, slack, slack);
  }

  // ----- The bounds for the array itself -----

  /** Compared with `s0`, the rest of the program has given up what `cells` holds. */
  ghost predicate GaveUp(s: State, s0: State, cells: seq<Cell>) {
    && |s.refs| == |s0.refs|
    && forall sv: nat :: UNDEF < sv < |s.refs| ==> Outside(s, sv) == Outside(s0, sv) - Held(cells, sv)
  }

  /** The caller has as many references to every SV as `cells` holds. */
  ghost predicate CanGive(s: State, cells: seq<Cell>) {
    && Known(cells, |s.refs|)
    && forall sv: nat :: UNDEF < sv < |s.refs| ==> Outside(s, sv) >= Held(cells, sv)
  }

  lemma GiveOne(s: State, s0: State, l: Layout, vals: seq<Cell>, i: nat)
    requires i < |vals| && s.isReal && Owned(s) && GaveUp(s, s0, vals[..i]) && CanGive(s0, vals)
    ensures CallerOwns(s, Op.Push(vals[i]))
    ensures var o := PushStep(s, l, vals[i]); o.ret.Done? ==> GaveUp(o.state, s0, vals[..i + 1])
    ensures Place(vals[..i], i, vals[i]) == vals[..i + 1]
  {
    MayGive(s, s0, vals, i);
    StepConserves(s, l, Op.Push(vals[i]));
    hide Outside, Owned, Held, CanGive;
    forall sv: nat
      ensures Held(vals[..i + 1], sv) == Held(vals[..i], sv) + One(vals[i], sv)
    {
      HeldMore(vals, i, sv);
    }
  }

  lemma MayGive(s: State, s0: State, vals: seq<Cell>, i: nat)
    requires i < |vals| && GaveUp(s, s0, vals[..i]) && CanGive(s0, vals)
    ensures CallerOwns(s, Op.Push(vals[i]))
  {
    hide Held, Outside;
    if Counted(vals[i]) {
      HeldSplit(vals, i, vals[i].sv);
      assert Outside(s, vals[i].sv) > 0;
    }
  }

  lemma HeldMore(vals: seq<Cell>, i: nat, sv: Sv)
    requires i < |vals|
    ensures Held(vals[..i + 1], sv) == Held(vals[..i], sv) + One(vals[i], sv)
  {
    assert vals[..i + 1][..i] == vals[..i];
  }

  /** The first `i` values have been pushed onto a new array. */
  ghost predicate Filling(av: Array, s0: State, vals: seq<Cell>, i: nat)
    requires i <= |vals| && i <= SSIZE_MAX
    reads av, av.alloc, av.interp
  {
    && av.Valid() && av.isReal && av.Elems() == vals[..i] && av.Storage() == PushTimes(i)
    && GaveUp(av.Abs(), s0, vals[..i])
  }

  method PushOne(av: Array, vals: seq<Cell>, i: nat, ghost s0: State) returns (r: Ret)
    requires i < |vals| <= I32_MAX + 1 && Filling(av, s0, vals, i) && CanGive(s0, vals)
    modifies av, av.interp, av.alloc
    ensures r == Done && Filling(av, s0, vals, i + 1) && (av.alloc == old(av.alloc) || fresh(av.alloc))
  {
    GiveOne(av.Abs(), s0, av.Window(), vals, i);
    hide Held, Outside, Owned, GaveUp, CanGive, Pushed, Place;
    r := av.Push(vals[i]);
  }

  /** Pushes all of `vals` onto a new array; the references the caller has to them go to the
      array. */
  method PushAll(av: Array, vals: seq<Cell>) returns (r: Ret)
    requires av.Valid() && av.isReal && av.Storage() == NO_ROOM && |vals| <= I32_MAX + 1
    requires CanGive(av.Abs(), vals)
    modifies av, av.interp
    ensures av.Valid() && r == Done && av.Elems() == vals && GaveUp(av.Abs(), old(av.Abs()), vals)
    ensures av.copied <= 6 * |vals|
  {
    ghost var s0 := av.Abs();
    r := Done;
    FillingStarts(av, vals);
    hide Filling, CanGive;
    for i := 0 to |vals|
      invariant Filling(av, s0, vals, i) && r == Done
      invariant av.alloc == null || fresh(av.alloc)
    {
      r := PushOne(av, vals, i, s0);
    }
    FillingEnds(av, s0, vals);
  }

  lemma FillingStarts(av: Array, vals: seq<Cell>)
    requires av.Valid() && av.isReal && av.Storage() == NO_ROOM
    ensures Filling(av, av.Abs(), vals, 0) && av.alloc == null
  {
    assert vals[..0] == [];
    GaveNothing(av.Abs());
  }

  lemma FillingEnds(av: Array, s0: State, vals: seq<Cell>)
    requires |vals| <= I32_MAX + 1 && Filling(av, s0, vals, |vals|)
    ensures av.Valid() && av.Elems() == vals && GaveUp(av.Abs(), s0, vals) && av.copied <= 6 * |vals|
  {
    assert vals[..|vals|] == vals;
    PushesAreCheap(|vals|);
    hide GaveUp, PushTimes;
  }

  lemma GaveNothing(s: State)
    ensures GaveUp(s, s, [])
  {
  }

  /** `i` empty elements have been put in front of a new array. */
  ghost predicate Fronting(av: Array, i: nat)
    requires 2 * i <= SSIZE_MAX
    reads av, av.alloc, av.interp
  {
    av.Valid() && av.isReal && av.Elems() == Nulls(i) && av.Storage() == UnshiftTimes(i)
  }

  method UnshiftOne(av: Array, i: nat) returns (r: Ret)
    requires i <= I32_MAX && Fronting(av, i)
    modifies av, av.interp, av.alloc
    ensures r == Done && Fronting(av, i + 1) && (av.alloc == old(av.alloc) || fresh(av.alloc))
  {
    UnshiftSucceeds(av.Abs(), i);
    OneNullMore(i);
    hide Held, Outside, Owned, Unshifted, UnshiftStep, Nulls;
    r := av.Unshift(1);
  }

  lemma OneNullMore(i: nat)
    ensures Nulls(1) + Nulls(i) == Nulls(i + 1)
  {
  }

  /** Puts `n` empty elements in front of a new array, one at a time; more than these are refused. */
  method UnshiftAll(av: Array, n: nat) returns (r: Ret)
    requires av.Valid() && av.isReal && av.Storage() == NO_ROOM && n <= I32_MAX + 1
    modifies av, av.interp
    ensures av.Valid() && r == Done
    ensures av.Elems() == Nulls(n) && av.moved <= 2 * n && av.copied <= 12 * n
  {
    hide Fronting, UnshiftTimes, Held, Outside, Owned;
    r := Done;
    FrontingStarts(av);
    for i := 0 to n
      invariant Fronting(av, i) && r == Done
      invariant av.alloc == null || fresh(av.alloc)
    {
      r := UnshiftOne(av, i);
    }
    FrontingEnds(av, n);
  }

  lemma FrontingStarts(av: Array)
    requires av.Valid() && av.isReal && av.Storage() == NO_ROOM
    ensures Fronting(av, 0) && av.alloc == null
  {
    assert av.Elems() == Nulls(0);
  }

  lemma FrontingEnds(av: Array, n: nat)
    requires n <= I32_MAX + 1 && Fronting(av, n)
    ensures av.Valid() && av.Elems() == Nulls(n) && av.moved <= 2 * n && av.copied <= 12 * n
  {
    UnshiftsAreCheap(n);
    hide UnshiftTimes;
  }
}
