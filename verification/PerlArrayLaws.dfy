/** Laws of the array specification: reference conservation over every run. */
module PerlArrayLaws {
  import opened PerlArraySpec

  // ----- Counting the references in a run of cells -----

  function One(c: Cell, sv: Sv): int {
    if c == Ref(sv) then 1 else 0
  }

  lemma {:induction false} HeldConcat(a: seq<Cell>, b: seq<Cell>, sv: Sv)
    ensures Held(a + b, sv) == Held(a, sv) + Held(b, sv)
  {
    if b == [] {
      assert a + b == a;
    } else {
      var n := |b| - 1;
      assert (a + b)[..|a + b| - 1] == a + b[..n];
      HeldConcat(a, b[..n], sv);
    }
  }

  lemma {:induction false} HeldNulls(n: nat, sv: Sv)
    ensures Held(Nulls(n), sv) == 0
  {
    if n > 0 {
      assert Nulls(n)[..n - 1] == Nulls(n - 1);
      HeldNulls(n - 1, sv);
    }
  }

  /** Taking one cell out of a run. */
  lemma HeldSplit(e: seq<Cell>, k: nat, sv: Sv)
    requires k < |e|
    ensures Held(e, sv) == Held(e[..k], sv) + One(e[k], sv) + Held(e[k + 1..], sv)
  {
    assert e == e[..k + 1] + e[k + 1..];
    HeldConcat(e[..k + 1], e[k + 1..], sv);
    assert e[..k + 1][..k] == e[..k];
  }

  lemma HeldPlace(e: seq<Cell>, k: nat, v: Cell, sv: Sv)
    ensures Held(Place(e, k, v), sv)
         == Held(e, sv) + One(v, sv) - (if k < |e| then One(e[k], sv) else 0)
  {
    var f := Place(e, k, v);
    HeldSplit(f, k, sv);
    if k < |e| {
      HeldSplit(e, k, sv);
      assert f[..k] == e[..k] && f[k + 1..] == e[k + 1..];
    } else {
      assert f[..k] == e + Nulls(k - |e|) && f[k + 1..] == [];
      HeldConcat(e, Nulls(k - |e|), sv);
      HeldNulls(k - |e|, sv);
    }
  }

  lemma HeldResize(e: seq<Cell>, n: nat, sv: Sv)
    ensures Held(Resize(e, n), sv) == Held(e, sv) - (if n < |e| then Held(e[n..], sv) else 0)
  {
    if n < |e| {
      assert e == e[..n] + e[n..];
      HeldConcat(e[..n], e[n..], sv);
    } else {
      assert Resize(e, n) == e + Nulls(n - |e|);
      HeldConcat(e, Nulls(n - |e|), sv);
      HeldNulls(n - |e|, sv);
    }
  }

  lemma {:induction false} TrimIsPrefix(e: seq<Cell>)
    ensures Trim(e) <= e
    ensures forall i :: |Trim(e)| <= i < |e| ==> e[i] == Null
    ensures Trim(e) != [] ==> Trim(e)[|Trim(e)| - 1] != Null
  {
    if e != [] && e[|e| - 1] == Null {
      TrimIsPrefix(e[..|e| - 1]);
    }
  }

  lemma {:induction false} HeldTrim(e: seq<Cell>, sv: Sv)
    ensures Held(Trim(e), sv) == Held(e, sv)
  {
    if e != [] && e[|e| - 1] == Null {
      HeldTrim(e[..|e| - 1], sv);
    }
  }

  lemma HeldRemove(e: seq<Cell>, k: nat, sv: Sv)
    requires k < |e|
    ensures Held(Remove(e, k), sv) == Held(e, sv) - One(e[k], sv)
  {
    if k == |e| - 1 {
      HeldTrim(e[..k], sv);
    } else {
      HeldPlace(e, k, Null, sv);
    }
  }

  /** Bumping a run of cells changes every count by what the run holds of it. */
  lemma {:induction false} BumpAllHeld(refs: seq<int>, cells: seq<Cell>, d: int, sv: Sv)
    requires UNDEF < sv < |refs|
    ensures BumpAll(refs, cells, d)[sv] == refs[sv] + d * Held(cells, sv)
    decreases |cells|
  {
    if cells != [] {
      var n := |cells| - 1;
      BumpAllHeld(Bump(refs, cells[n], d), cells[..n], d, sv);
    }
  }

  // ----- Conservation -----

  /** A caller that stores a value gives up one reference to it, which it must have. */
  ghost predicate CallerOwns(s: State, op: Op) {
    match op
    case Store(_, Ref(sv)) => sv < |s.refs| && (sv != UNDEF ==> Outside(s, sv) > 0)
    case Push(Ref(sv)) => sv < |s.refs| && (sv != UNDEF ==> Outside(s, sv) > 0)
    case _ => true
  }

  /** By how much an operation changes what the rest of the program holds of `sv`, told from
      what the caller passes in and gets back. A failed store hands nothing over; pop and
      shift hand over the reference of an array that owned one; a fetch that croaks loses its
      new value. */
  function HandedOut(s: State, op: Op, ret: Ret, sv: Sv): int {
    match op
    case Store(_, val) => if ret.Slot? then -One(val, sv) else 0
    case Push(val) => if ret.Done? then -One(val, sv) else 0
    case Pop => if s.isReal && s.elems != [] then One(s.elems[|s.elems| - 1], sv) else 0
    case Shift => if s.isReal && s.elems != [] then One(s.elems[0], sv) else 0
    case Fetch(_, _) => if ret.Croak? && sv == |s.refs| then 1 else 0
    case _ => 0
  }

  /** What is held of an SV that does not exist yet is nothing. */
  function OutsideOr0(s: State, sv: Sv): int {
    if sv < |s.refs| then Outside(s, sv) else 0
  }

  lemma ReifiedConserves(s: State, sv: Sv)
    requires UNDEF < sv < |s.refs|
    ensures Outside(Reified(s), sv) == Outside(s, sv)
  {
    BumpAllHeld(s.refs, s.elems, 1, sv);
  }

  lemma ReifiedOwned(s: State)
    requires Owned(s)
    ensures Owned(Reified(s))
  {
    forall sv: nat | UNDEF < sv < |s.refs|
      ensures Outside(Reified(s), sv) == Outside(s, sv)
    {
      ReifiedConserves(s, sv);
    }
  }

  /** The count of an element is at least one as long as the array owns it. */
  lemma ElementIsAlive(s: State, k: nat)
    requires Owned(s) && s.isReal && k < |s.elems| && Counted(s.elems[k])
    ensures s.elems[k].sv < |s.refs| && s.refs[s.elems[k].sv] > 0
  {
    HeldSplit(s.elems, k, s.elems[k].sv);
    assert Outside(s, s.elems[k].sv) >= 0;
  }

  /** Every count covers what the cells hold. */
  ghost predicate Covers(refs: seq<int>, cells: seq<Cell>) {
    && Known(cells, |refs|)
    && forall sv: nat :: UNDEF < sv < |refs| ==> refs[sv] >= Held(cells, sv)
  }

  lemma OwnedCovers(s: State)
    requires Owned(s)
    ensures s.isReal ==> Covers(s.refs, s.elems)
  {
    forall sv: nat | UNDEF < sv < |s.refs| && s.isReal
      ensures s.refs[sv] >= Held(s.elems, sv)
    {
      assert Outside(s, sv) >= 0;
    }
  }

  /** The last cell of a covered run can be released, and the rest stays covered. */
  lemma CoversLast(refs: seq<int>, cells: seq<Cell>)
    requires Covers(refs, cells) && cells != []
    ensures var c := cells[|cells| - 1];
            && (Counted(c) ==> c.sv < |refs| && refs[c.sv] > 0)
            && Covers(Bump(refs, c, -1), cells[..|cells| - 1])
  {
    var c := cells[|cells| - 1];
    if Counted(c) {
      assert refs[c.sv] >= Held(cells, c.sv);
    }
  }

  /** If an element of the owning array is replaced, its count can be released. */
  predicate Replaceable(s: State, k: nat) {
    var t := Reified(s);
    k < |t.elems| && Counted(t.elems[k]) ==> t.elems[k].sv < |t.refs| && t.refs[t.elems[k].sv] > 0
  }

  lemma OwnedIsReplaceable(s: State, k: nat)
    requires Owned(s)
    ensures Replaceable(s, k)
  {
    ReifiedOwned(s);
    if k < |s.elems| && Counted(s.elems[k]) {
      ElementIsAlive(Reified(s), k);
    }
  }

  lemma StoreAtConserves(s: State, l: Layout, k: nat, val: Cell, sv: Sv)
    requires Owned(s) && UNDEF < sv < |s.refs|
    ensures var o := StoreAt(s, l, k, val);
            |o.state.refs| == |s.refs|
            && Outside(o.state, sv) == Outside(s, sv) - (if o.ret.Slot? then One(val, sv) else 0)
  {
    ReifiedConserves(s, sv);
    HeldPlace(s.elems, k, val, sv);
  }

  lemma UnshiftConserves(s: State, l: Layout, num: int, sv: Sv)
    requires UNDEF < sv < |s.refs|
    ensures var o := UnshiftStep(s, l, num);
            |o.state.refs| == |s.refs| && Outside(o.state, sv) == Outside(s, sv)
  {
    if num > 0 {
      ReifiedConserves(s, sv);
      var i := if l.offset > num then num else l.offset;
      HeldConcat(Nulls(num), s.elems, sv);
      HeldNulls(num, sv);
      HeldConcat(Nulls(i), s.elems, sv);
      HeldNulls(i, sv);
    }
  }

  lemma FillConserves(s: State, l: Layout, fill: int, sv: Sv)
    requires Owned(s) && UNDEF < sv < |s.refs|
    ensures var o := FillStep(s, l, fill);
            |o.state.refs| == |s.refs| && Outside(o.state, sv) == Outside(s, sv)
  {
    var n := if fill < 0 then 0 else fill + 1;
    if n > 0 && n - 1 > l.max {
      StoreAtConserves(s, l, n - 1, Null, sv);
    } else {
      HeldResize(s.elems, n, sv);
      if s.isReal && n < |s.elems| {
        BumpAllHeld(s.refs, s.elems[n..], -1, sv);
      }
    }
  }

  lemma DeleteConserves(s: State, key: int, discard: bool, sv: Sv)
    requires Owned(s) && UNDEF < sv < |s.refs|
    ensures var o := DeleteStep(s, key, discard);
            |o.state.refs| == |s.refs| && Outside(o.state, sv) == Outside(s, sv)
  {
    var k := Index(s.elems, key);
    if 0 <= k < |s.elems| {
      ReifiedConserves(s, sv);
      HeldRemove(s.elems, k, sv);
      var c := s.elems[k];
      assert s.tmps + [] == s.tmps;
      assert (s.tmps + [c])[..|s.tmps|] == s.tmps;
    }
  }

  lemma EndsConserve(s: State, sv: Sv)
    requires s.elems != []
    ensures var n := |s.elems| - 1;
            && Held(s.elems[..n], sv) == Held(s.elems, sv) - One(s.elems[n], sv)
            && Held(s.elems[1..], sv) == Held(s.elems, sv) - One(s.elems[0], sv)
  {
    HeldSplit(s.elems, 0, sv);
  }

  lemma EmptyConserves(s: State, sv: Sv)
    requires UNDEF < sv < |s.refs|
    ensures var o := EmptyStep(s);
            |o.state.refs| == |s.refs| && Outside(o.state, sv) == Outside(s, sv)
  {
    BumpAllHeld(s.refs, s.elems, -1, sv);
  }

  lemma {:induction false} HeldAbove(cells: seq<Cell>, n: nat, sv: Sv)
    requires Known(cells, n) && sv >= n
    ensures Held(cells, sv) == 0
  {
    if cells != [] {
      HeldAbove(cells[..|cells| - 1], n, sv);
    }
  }

  lemma NewSvConserves(s: State)
    requires Owned(s)
    ensures Owned(NewSv(s))
    ensures forall sv: nat :: UNDEF < sv <= |s.refs| ==>
              Outside(NewSv(s), sv) == OutsideOr0(s, sv) + (if sv == |s.refs| then 1 else 0)
  {
    HeldAbove(s.elems, |s.refs|, |s.refs|);
    HeldAbove(s.tmps, |s.refs|, |s.refs|);
    forall sv: nat | UNDEF < sv < |s.refs|
      ensures Outside(NewSv(s), sv) == Outside(s, sv)
    {
    }
  }

  lemma FetchConserves(s: State, l: Layout, key: int, lval: bool, sv: Sv)
    requires Owned(s)
    requires UNDEF < sv < |FetchStep(s, l, key, lval).state.refs|
    ensures var o := FetchStep(s, l, key, lval);
            Outside(o.state, sv) == OutsideOr0(s, sv) + (if o.ret.Croak? && sv == |s.refs| then 1 else 0)
  {
    NewSvConserves(s);
    var k := Index(s.elems, key);
    if k >= 0 && FetchStep(s, l, key, lval).state != s {
      StoreAtConserves(NewSv(s), l, k, Ref(|s.refs|), sv);
    }
  }

  ghost predicate KnownState(s: State, n: nat) {
    |s.refs| >= n && Known(s.elems, |s.refs|) && Known(s.tmps, |s.refs|)
  }

  lemma StoreAtKnown(s: State, l: Layout, k: nat, val: Cell)
    requires KnownState(s, 0) && (val.Ref? ==> val.sv < |s.refs|)
    ensures KnownState(StoreAt(s, l, k, val).state, |s.refs|)
  {
  }

  lemma DeleteKnown(s: State, key: int, discard: bool)
    requires KnownState(s, 0)
    ensures KnownState(DeleteStep(s, key, discard).state, |s.refs|)
  {
    var k := Index(s.elems, key);
    if 0 <= k < |s.elems| {
      TrimIsPrefix(s.elems[..k]);
    }
  }

  lemma UnshiftKnown(s: State, l: Layout, num: int)
    requires KnownState(s, 0)
    ensures KnownState(UnshiftStep(s, l, num).state, |s.refs|)
  {
  }

  /** No operation puts an SV that does not exist into the array. */
  lemma StepKnown(s: State, l: Layout, op: Op)
    requires Owned(s) && CallerOwns(s, op)
    ensures KnownState(Step(s, l, op).state, |s.refs|)
  {
    match op
    case Store(key, val) =>
      var k := Index(s.elems, key);
      if k >= 0 { StoreAtKnown(s, l, k, val); }
    case Fetch(key, lval) =>
      var k := Index(s.elems, key);
      if k >= 0 { StoreAtKnown(NewSv(s), l, k, Ref(|s.refs|)); }
    case Push(val) => StoreAtKnown(s, l, |s.elems|, val);
    case Pop =>
    case Shift =>
    case Unshift(num) => UnshiftKnown(s, l, num);
    case Extend(_) =>
    case Fill(fill) => if fill >= 0 { StoreAtKnown(s, l, fill, Null); }
    case Delete(key, discard) => DeleteKnown(s, key, discard);
    case Exists(_) =>
    case Clear =>
    case Undef =>
  }

  lemma {:induction false} UndefStays(refs: seq<int>, cells: seq<Cell>, d: int)
    requires 0 < |refs|
    ensures BumpAll(refs, cells, d)[UNDEF] == refs[UNDEF]
    decreases |cells|
  {
    if cells != [] {
      UndefStays(Bump(refs, cells[|cells| - 1], d), cells[..|cells| - 1], d);
    }
  }

  lemma StoredUndefStays(s: State, l: Layout, k: nat, val: Cell)
    requires 0 < |s.refs|
    ensures var t := StoreAt(s, l, k, val).state; |t.refs| == |s.refs| && t.refs[UNDEF] == s.refs[UNDEF]
  {
    UndefStays(s.refs, s.elems, 1);
    hide BumpAll, Place;
  }

  /** The immortal undef is not counted. */
  lemma UndefIsNotCounted(s: State, l: Layout, op: Op)
    requires 0 < |s.refs|
    ensures |Step(s, l, op).state.refs| > 0 && Step(s, l, op).state.refs[UNDEF] == s.refs[UNDEF]
  {
    hide BumpAll, Bump, StoreAt, Remove, Resize, Nulls;
    UndefStays(s.refs, s.elems, 1);
    UndefStays(s.refs, s.elems, -1);
    match op
    case Store(key, val) =>
      if Index(s.elems, key) >= 0 { StoredUndefStays(s, l, Index(s.elems, key), val); }
    case Fetch(key, lval) =>
      if Index(s.elems, key) >= 0 { StoredUndefStays(NewSv(s), l, Index(s.elems, key), Ref(|s.refs|)); }
    case Push(val) => StoredUndefStays(s, l, |s.elems|, val);
    case Fill(fill) =>
      if fill >= 0 { StoredUndefStays(s, l, fill, Null); }
      var n := if fill < 0 then 0 else fill + 1;
      if n < |s.elems| { UndefStays(s.refs, s.elems[n..], -1); }
    case Delete(key, discard) => DeletedUndefStays(s, key, discard);
    case _ =>
  }

  lemma DeletedUndefStays(s: State, key: int, discard: bool)
    requires 0 < |s.refs|
    ensures var t := DeleteStep(s, key, discard).state; |t.refs| == |s.refs| && t.refs[UNDEF] == s.refs[UNDEF]
  {
    UndefStays(s.refs, s.elems, 1);
    hide BumpAll, Remove;
  }

  /** Reference conservation for one operation: what the count of an SV leaves over, after the
      cells and the mortal stack, is exactly what the rest of the program is told it holds. */
  lemma StepConserves(s: State, l: Layout, op: Op)
    requires Owned(s) && CallerOwns(s, op)
    ensures var o := Step(s, l, op);
            && Owned(o.state) && |o.state.refs| >= |s.refs|
            && forall sv: nat :: UNDEF < sv < |o.state.refs| ==>
                 Outside(o.state, sv) == OutsideOr0(s, sv) + HandedOut(s, op, o.ret, sv)
  {
    var o := Step(s, l, op);
    StepKnown(s, l, op);
    forall sv: nat | UNDEF < sv < |o.state.refs|
      ensures Outside(o.state, sv) == OutsideOr0(s, sv) + HandedOut(s, op, o.ret, sv)
      ensures Outside(o.state, sv) >= 0
    {
      StepConservesOf(s, l, op, sv);
    }
  }

  lemma StepConservesOf(s: State, l: Layout, op: Op, sv: Sv)
    requires Owned(s) && CallerOwns(s, op) && UNDEF < sv < |Step(s, l, op).state.refs|
    ensures var o := Step(s, l, op);
            0 <= Outside(o.state, sv) == OutsideOr0(s, sv) + HandedOut(s, op, o.ret, sv)
  {
    match op
    case Store(key, val) =>
      var k := Index(s.elems, key);
      if k >= 0 { StoreAtConserves(s, l, k, val, sv); }
    case Fetch(key, lval) => FetchConserves(s, l, key, lval, sv);
    case Push(val) => StoreAtConserves(s, l, |s.elems|, val, sv);
    case Pop => if s.elems != [] { EndsConserve(s, sv); }
    case Shift => if s.elems != [] { EndsConserve(s, sv); }
    case Unshift(num) => UnshiftConserves(s, l, num, sv);
    case Extend(_) =>
    case Fill(fill) => FillConserves(s, l, fill, sv);
    case Delete(key, discard) => DeleteConserves(s, key, discard, sv);
    case Exists(_) =>
    case Clear => EmptyConserves(s, sv);
    case Undef => EmptyConserves(s, sv);
  }

  /** An unshift uses the headroom first; what is left needs new room. */
  lemma UnshiftStepSplits(e: seq<Cell>, l: Layout, num: nat, i: nat)
    requires num > 0 && i == if l.offset > num then num else l.offset
    ensures var o := UnshiftStep(State(e, true, [], []), l, num);
            var used := Nulls(i) + e;
            if i == num then o.state.elems == used && o.ret == Done
            else
              var reach := UnshiftReach(used, 0, num - i);
              if reach > l.max + i && reach > I32_MAX
              then o.state.elems == used && o.ret == Croak(TooManyElements)
              else o.state.elems == Nulls(num - i) + used && o.ret == Done
  {
    assert Nulls(num - i) + (Nulls(i) + e) == Nulls(num) + e;
  }

  lemma {:induction false} HeldConsecutive(first: Sv, n: nat, sv: Sv)
    ensures Held(NewCells(first, n), sv) == if first <= sv < first + n then 1 else 0
  {
    if n > 0 {
      var cells := NewCells(first, n);
      assert cells[..n - 1] == NewCells(first, n - 1);
      HeldConsecutive(first, n - 1, sv);
    }
  }

  /** An array made of new SVs owns them all. */
  lemma MadeIsOwned(refs: seq<int>, tmps: seq<Cell>, size: nat)
    requires Owned(State([], true, refs, tmps))
    ensures Owned(State(NewCells(|refs| + 1, size), true, refs + Ones(size + 1), tmps))
  {
    var s := State([], true, refs, tmps);
    var t := State(NewCells(|refs| + 1, size), true, refs + Ones(size + 1), tmps);
    forall sv: nat | UNDEF < sv < |t.refs|
      ensures Outside(t, sv) >= 0
    {
      HeldConsecutive(|refs| + 1, size, sv);
      if sv < |refs| {
        assert Outside(s, sv) >= 0;
      } else {
        HeldAbove(tmps, |refs|, sv);
      }
    }
  }
}
