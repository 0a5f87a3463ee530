/** Whole runs of array operations: agreement with a plain sequence, reference conservation,
    and laws that relate several operations. */
module PerlArrayRuns {
  import opened Common
  import opened PerlArraySpec
  import opened PerlArrayLaws
  import PerlArray

  // ----- The reference: a plain sequence, without storage, ownership or counts -----

  /** `next` is the id the next new SV will get. */
  datatype Plain = Plain(elems: seq<Cell>, next: Sv)

  function PlainStep(p: Plain, op: Op): (Plain, Ret) {
    var e := p.elems;
    match op
    case Store(key, val) =>
      var k := Index(e, key);
      if k < 0 then (p, NullPointer) else (p.(elems := Place(e, k, val)), Slot(k))
    case Fetch(key, lval) =>
      var k := Index(e, key);
      if k < 0 then (p, NullPointer)
      else if k < |e| && e[k] != Null then (p, Slot(k))
      else if lval then (Plain(Place(e, k, Ref(p.next)), p.next + 1), Slot(k))
      else (p, NullPointer)
    case Push(val) => (p.(elems := e + [val]), Done)
    case Pop => if e == [] then (p, Value(UNDEF)) else (p.(elems := e[..|e| - 1]), Value(Or(e[|e| - 1])))
    case Shift => if e == [] then (p, Value(UNDEF)) else (p.(elems := e[1..]), Value(Or(e[0])))
    case Unshift(num) => (p.(elems := Nulls(if num < 0 then 0 else num) + e), Done)
    case Extend(key) => (p, if key < -1 then Croak(NegativeCount) else Done)
    case Fill(fill) => (p.(elems := Resize(e, if fill < 0 then 0 else fill + 1)), Done)
    case Delete(key, discard) =>
      var k := Index(e, key);
      if k < 0 || k >= |e| then (p, NullPointer) else
      (p.(elems := Remove(e, k)), if e[k] == Null || discard then NullPointer else Value(e[k].sv))
    case Exists(key) =>
      var k := Index(e, key);
      (p, Flag(0 <= k < |e| && e[k] != Null))
    case Clear => (p.(elems := []), Done)
    case Undef => (p.(elems := []), Done)
  }

  /** An operation that croaks has done one thing: an unshift has exposed so many empty elements,
      and a fetch has made its new SV. */
  function PlainCroak(p: Plain, op: Op, exposed: nat): (Plain, Ret) {
    (Plain(Nulls(exposed) + p.elems, if op.Fetch? then p.next + 1 else p.next),
     Croak(if op.Extend? && op.key < -1 then NegativeCount else TooManyElements))
  }

  /** A run in which the operations that croak are told with what they have exposed. */
  function PlainRun(p: Plain, ops: seq<Op>, croaks: seq<Option<nat>>): (Plain, seq<Ret>)
    requires |croaks| == |ops|
    decreases |ops|
  {
    if ops == [] then (p, []) else
    var n := |ops| - 1;
    var (q, rets) := PlainRun(p, ops[..n], croaks[..n]);
    var (r, ret) := if croaks[n].Some? then PlainCroak(q, ops[n], croaks[n].value) else PlainStep(q, ops[n]);
    (r, rets + [ret])
  }

  function View(s: State): Plain {
    Plain(s.elems, |s.refs|)
  }

  /** Storage, ownership and counts are invisible: unless it croaks, an operation does to an
      array what it does to a plain sequence, wherever the window is in its block, however
      large the block is, and whether or not the array owns its elements yet. */
  lemma StepIsPlain(s: State, l: Layout, op: Op)
    requires |s.elems| <= l.max + 1
    ensures var o := Step(s, l, op);
            !o.ret.Croak? ==> (View(o.state), o.ret) == PlainStep(View(s), op)
  {
    hide BumpAll, Bump, Place, Nulls, Resize;
    match op
    case Fill(fill) =>
      if fill >= 0 { FillIsPlace(s.elems, fill); }
    case Push(val) => PlaceAtEnd(s.elems, val);
    case Unshift(num) => NothingInFront(s.elems);
    case _ =>
  }

  lemma PlaceAtEnd(e: seq<Cell>, val: Cell)
    ensures Place(e, |e|, val) == e + [val]
  {
  }

  lemma NothingInFront(e: seq<Cell>)
    ensures Nulls(0) + e == e
  {
  }

  lemma FillIsPlace(e: seq<Cell>, fill: nat)
    ensures fill >= |e| ==> Place(e, fill, Null) == Resize(e, fill + 1)
  {
  }

  /** Only an operation that asks for an index past I32_MAX croaks, and an av_extend below -1. */
  lemma CroakNeedsHugeIndex(s: State, l: Layout, op: Op)
    requires Step(s, l, op).ret.Croak? && |s.elems| <= l.max + 1
    ensures match op
            case Store(key, _) => key > I32_MAX
            case Fetch(key, lval) => key > I32_MAX && lval
            case Push(_) => |s.elems| > I32_MAX
            case Unshift(num) => num > 0 && 2 * (|s.elems| + num) > I32_MAX
            case Extend(key) => key > I32_MAX || key < -1
            case Fill(fill) => fill > I32_MAX
            case _ => false
  {
  }

  /** How many empty elements an operation exposes before it may croak: an unshift all of the
      headroom it can use. */
  function Exposed(l: Layout, op: Op): nat {
    if op.Unshift? && op.num > 0 then if l.offset < op.num then l.offset else op.num else 0
  }

  /** An operation that croaks leaves the elements as they were exactly if it has no headroom to
      expose, and nothing else shows of it but the SV of a fetch. */
  lemma CroakExposes(s: State, l: Layout, op: Op)
    requires Step(s, l, op).ret.Croak?
    ensures var o := Step(s, l, op);
            && (View(o.state), o.ret) == PlainCroak(View(s), op, Exposed(l, op))
            && (o.state.elems == s.elems <==> Exposed(l, op) == 0)
  {
    hide BumpAll, Bump, Place, Nulls, Resize;
    NothingInFront(s.elems);
    assert |Nulls(Exposed(l, op)) + s.elems| == Exposed(l, op) + |s.elems|;
  }

  /** With five cells of headroom an unshift that is refused makes an empty array one of five
      elements. */
  lemma RefusedUnshift()
    ensures var o := UnshiftStep(State([], true, [1], []), Layout(5, 3), I32_MAX + 10);
            o.ret == Croak(TooManyElements) && o.state.elems == Nulls(5)
  {
    assert Nulls(5) + [] == Nulls(5);
  }

  // ----- Runs -----

  /** A run: every step is what the operation does in some layout of the storage, and every
      caller owns what it stores. */
  ghost predicate IsRun(states: seq<State>, layouts: seq<Layout>, ops: seq<Op>, rets: seq<Ret>) {
    && |states| == |ops| + 1 && |layouts| == |rets| == |ops|
    && Owned(states[0])
    && forall i :: 0 <= i < |ops| ==>
         && |states[i].elems| <= layouts[i].max + 1 && CallerOwns(states[i], ops[i])
         && Outcome(states[i + 1], rets[i]) == Step(states[i], layouts[i], ops[i])
  }

  /** Which operations of a run croak, and what they have exposed by then. */
  function Croaks(layouts: seq<Layout>, ops: seq<Op>, rets: seq<Ret>): (r: seq<Option<nat>>)
    requires |layouts| == |ops| == |rets|
    ensures |r| == |ops|
    ensures forall i :: 0 <= i < |ops| ==>
              r[i] == if rets[i].Croak? then Some(Exposed(layouts[i], ops[i])) else None
  {
    seq<Option<nat>>(|ops|, i requires 0 <= i < |ops| =>
      if rets[i].Croak? then Some(Exposed(layouts[i], ops[i])) else None)
  }

  /** Every run agrees with the same run on a plain sequence, results included, also beyond
      operations that croak and are caught. */
  lemma {:induction false} RunIsPlain(states: seq<State>, layouts: seq<Layout>, ops: seq<Op>, rets: seq<Ret>)
    requires IsRun(states, layouts, ops, rets)
    ensures (View(states[|ops|]), rets) == PlainRun(View(states[0]), ops, Croaks(layouts, ops, rets))
    decreases |ops|
  {
    hide Step, PlainStep, PlainCroak, Exposed;
    if ops != [] {
      var n := |ops| - 1;
      RunIsPlain(states[..n + 1], layouts[..n], ops[..n], rets[..n]);
      assert Outcome(states[n + 1], rets[n]) == Step(states[n], layouts[n], ops[n]);
      if rets[n].Croak? {
        CroakExposes(states[n], layouts[n], ops[n]);
      } else {
        StepIsPlain(states[n], layouts[n], ops[n]);
      }
      assert rets == rets[..n] + [rets[n]];
      assert Croaks(layouts, ops, rets)[..n] == Croaks(layouts[..n], ops[..n], rets[..n]);
    }
  }

  /** The callers own what they store, whatever the layouts of the storage come to be. */
  ghost predicate CanRun(s: State, ops: seq<Op>)
    decreases |ops|
  {
    ops == []
    || (CallerOwns(s, ops[0])
        && forall l: Layout :: |s.elems| <= l.max + 1 ==> CanRun(Step(s, l, ops[0]).state, ops[1..]))
  }

  /** A run of operations on an array. What the array holds in the end, and all results, are those of
      the plain sequence. */
  method Perform(av: PerlArray.Array, ops: seq<Op>)
      returns (rets: seq<Ret>, ghost states: seq<State>, ghost layouts: seq<Layout>)
    requires av.Valid() && CanRun(av.Abs(), ops)
    modifies av, av.interp, av.alloc
    ensures av.Valid() && IsRun(states, layouts, ops, rets)
    ensures states[0] == old(av.Abs()) && states[|ops|] == av.Abs()
    ensures (View(av.Abs()), rets) == PlainRun(View(old(av.Abs())), ops, Croaks(layouts, ops, rets))
  {
    rets, states, layouts := [], [av.Abs()], [];
    var i := 0;
    Begun(av.Abs(), ops);
    hide CanRun, CallerOwns, Step, IsRun, Owned;
    while i < |ops|
      invariant i <= |ops| && av.Valid() && (av.alloc == null || av.alloc == old(av.alloc) || fresh(av.alloc))
      invariant |states| == i + 1 && |layouts| == |rets| == i && states[0] == old(av.Abs()) && states[i] == av.Abs()
      invariant IsRun(states, layouts, ops[..i], rets) && CanRun(av.Abs(), ops[i..])
    {
      ghost var s, l := av.Abs(), av.Window();
      MayGoOn(s, ops, i);
      var r := av.Exec(ops[i]);
      RunGoesOn(states, layouts, ops, rets, i, av.Abs(), l, r);
      rets, states, layouts := rets + [r], states + [av.Abs()], layouts + [l];
      i := i + 1;
    }
    assert ops[..i] == ops;
    RunIsPlain(states, layouts, ops, rets);
  }

  lemma Begun(s: State, ops: seq<Op>)
    requires Owned(s)
    ensures IsRun([s], [], ops[..0], []) && ops[0..] == ops
  {
  }

  lemma MayGoOn(s: State, ops: seq<Op>, i: nat)
    requires i < |ops| && CanRun(s, ops[i..])
    ensures CallerOwns(s, ops[i])
  {
  }

  lemma RunGoesOn(states: seq<State>, layouts: seq<Layout>, ops: seq<Op>, rets: seq<Ret>, i: nat, t: State, l: Layout,
                  r: Ret)
    requires i < |ops| && |states| == i + 1 && IsRun(states, layouts, ops[..i], rets)
    requires CanRun(states[i], ops[i..]) && |states[i].elems| <= l.max + 1
    requires Outcome(t, r) == Step(states[i], l, ops[i])
    ensures IsRun(states + [t], layouts + [l], ops[..i + 1], rets + [r]) && CanRun(t, ops[i + 1..])
  {
    hide Step;
    assert ops[i..][0] == ops[i] && ops[i..][1..] == ops[i + 1..];
    var us, ls, os, rs := states + [t], layouts + [l], ops[..i + 1], rets + [r];
    forall k | 0 <= k < |os|
      ensures && |us[k].elems| <= ls[k].max + 1 && CallerOwns(us[k], os[k])
              && Outcome(us[k + 1], rs[k]) == Step(us[k], ls[k], os[k])
    {
      if k < i {
        assert os[k] == ops[..i][k] && us[k] == states[k] && ls[k] == layouts[k] && rs[k] == rets[k];
        assert us[k + 1] == states[k + 1];
        assert CallerOwns(states[k], ops[..i][k]);
      }
    }
  }

  /** What a run hands out of `sv` to the rest of the program, less what it takes over. */
  function HandedOutBy(states: seq<State>, ops: seq<Op>, rets: seq<Ret>, sv: Sv): int
    requires |states| == |ops| + 1 && |rets| == |ops|
    decreases |ops|
  {
    if ops == [] then 0 else
    var n := |ops| - 1;
    HandedOutBy(states[..n + 1], ops[..n], rets[..n], sv) + HandedOut(states[n], ops[n], rets[n], sv)
  }

  /** Reference conservation over a whole run, croaking operations included: the count of
      every SV other than the immortal undef is what the rest of the program held at the start
      and was handed since, plus the cells of an owning array and of the mortal stack that
      hold it; so nothing an owning array holds is ever freed. */
  lemma {:induction false} RunConserves(states: seq<State>, layouts: seq<Layout>, ops: seq<Op>, rets: seq<Ret>, sv: Sv)
    requires IsRun(states, layouts, ops, rets) && sv != UNDEF
    ensures Owned(states[|ops|])
    ensures var t := states[|ops|];
            sv < |t.refs| ==>
              && t.refs[sv] == OutsideOr0(states[0], sv) + HandedOutBy(states, ops, rets, sv)
                               + (if t.isReal then Held(t.elems, sv) else 0) + Held(t.tmps, sv)
              && t.refs[sv] >= (if t.isReal then Held(t.elems, sv) else 0)
    ensures sv >= |states[|ops|].refs| ==> HandedOutBy(states, ops, rets, sv) == 0
    ensures |states[|ops|].refs| >= |states[0].refs|
    decreases |ops|
  {
    if ops != [] {
      var n := |ops| - 1;
      RunConserves(states[..n + 1], layouts[..n], ops[..n], rets[..n], sv);
      StepConserves(states[n], layouts[n], ops[n]);
      NothingUnknownHandedOut(states[n], layouts[n], ops[n], sv);
    }
    if sv < |states[|ops|].refs| {
      assert Outside(states[|ops|], sv) >= 0;
    }
  }

  lemma NothingUnknownHandedOut(s: State, l: Layout, op: Op, sv: Sv)
    requires Owned(s) && CallerOwns(s, op)
    ensures sv >= |Step(s, l, op).state.refs| ==> HandedOut(s, op, Step(s, l, op).ret, sv) == 0
  {
    StepConserves(s, l, op);
  }

  // ----- Operations that undo each other -----

  /** pop takes back what push put there, and the array is as it was, counts included. */
  lemma PushThenPop(s: State, l: Layout, val: Cell)
    requires Owned(s) && s.isReal && PushStep(s, l, val).ret.Done?
    ensures PopStep(PushStep(s, l, val).state) == Outcome(s, Value(Or(val)))
  {
    assert Place(s.elems, |s.elems|, val)[..|s.elems|] == s.elems;
  }

  function Shifts(s: State, n: nat): State
    decreases n
  {
    if n == 0 then s else Shifts(ShiftStep(s).state, n - 1)
  }

  /** Shifting as many elements as were unshifted gives the array back. */
  lemma UnshiftThenShift(s: State, l: Layout, num: nat)
    requires s.isReal && UnshiftStep(s, l, num).ret.Done?
    ensures Shifts(UnshiftStep(s, l, num).state, num) == s
  {
    assert Nulls(0) + s.elems == s.elems;
    ShiftsDropNulls(s, num);
  }

  lemma {:induction false} ShiftsDropNulls(s: State, n: nat)
    ensures Shifts(s.(elems := Nulls(n) + s.elems), n) == s
  {
    if n == 0 {
      assert Nulls(0) + s.elems == s.elems;
    } else {
      assert (Nulls(n) + s.elems)[1..] == Nulls(n - 1) + s.elems;
      ShiftsDropNulls(s, n - 1);
    }
  }

  // ----- Single operations, element by element -----

  /** A store that does not croak puts its value at exactly the index asked for, from the end if
      that is negative, in an array as long as it was or as that index requires; every other
      element stays, and a gap is empty. Before the start of the array nothing is done. */
  lemma StoreLands(s: State, l: Layout, key: int, val: Cell)
    ensures var o, n := StoreStep(s, l, key, val), |s.elems|;
            var k, e := if key < 0 then n + key else key, o.state.elems;
            if k < 0 then o == Outcome(s, NullPointer)
            else if k > l.max && k > I32_MAX then o.ret == Croak(TooManyElements) && e == s.elems && o.state.isReal
            else
              && o.ret == Slot(k) && o.state.isReal && o.state.tmps == s.tmps
              && |e| == (if n > k then n else k + 1) && e[k] == val
              && forall i :: 0 <= i < |e| && i != k ==> e[i] == if i < n then s.elems[i] else Null
  {
    hide BumpAll, Bump;
  }

  /** A fetch finds the element at the index asked for, from the end if that is negative. Where
      there is none a fetch for a store makes a new SV there, as a store would put it there. */
  lemma FetchFinds(s: State, l: Layout, key: int, lval: bool)
    ensures var o, n := FetchStep(s, l, key, lval), |s.elems|;
            var k, e := if key < 0 then n + key else key, o.state.elems;
            if 0 <= k < n && s.elems[k] != Null then o == Outcome(s, Slot(k))
            else if k < 0 || !lval then o == Outcome(s, NullPointer)
            else if k > l.max && k > I32_MAX then
              o.ret == Croak(TooManyElements) && e == s.elems && |o.state.refs| == |s.refs| + 1
            else
              && o.ret == Slot(k) && o.state.isReal && o.state.tmps == s.tmps && |o.state.refs| == |s.refs| + 1
              && |e| == (if n > k then n else k + 1) && e[k] == Ref(|s.refs|)
              && forall i :: 0 <= i < |e| && i != k ==> e[i] == if i < n then s.elems[i] else Null
  {
    hide BumpAll, Bump;
  }

  /** pop and shift take the last and the first element off, and yield undef for an empty one or
      where there is none; nothing else changes. */
  lemma EndsTaken(s: State)
    ensures var p, q, n := PopStep(s), ShiftStep(s), |s.elems|;
            && p.state == s.(elems := p.state.elems) && q.state == s.(elems := q.state.elems)
            && |p.state.elems| == |q.state.elems| == (if n == 0 then 0 else n - 1)
            && (forall i :: 0 <= i < n - 1 ==> p.state.elems[i] == s.elems[i] && q.state.elems[i] == s.elems[i + 1])
            && p.ret == Value(if n > 0 && s.elems[n - 1].Ref? then s.elems[n - 1].sv else UNDEF)
            && q.ret == Value(if n > 0 && s.elems[0].Ref? then s.elems[0].sv else UNDEF)
  {
  }

  /** A push adds its value behind the last element; av_extend changes nothing. */
  lemma PushedBehind(s: State, l: Layout, val: Cell, key: int)
    ensures var o, n := PushStep(s, l, val), |s.elems|;
            if n > l.max && n > I32_MAX then o.ret == Croak(TooManyElements) && o.state.elems == s.elems
            else o.ret == Done && o.state.isReal && o.state.elems == s.elems + [val] && o.state.tmps == s.tmps
    ensures ExtendStep(s, l, key)
         == Outcome(s, if key < -1 then Croak(NegativeCount)
                       else if key > l.max && key > I32_MAX then Croak(TooManyElements) else Done)
  {
    StoreLands(s, l, |s.elems|, val);
    PlaceAtEnd(s.elems, val);
    hide Reified, Replaced;
  }

  /** An unshift puts so many empty elements in front. What croaks is the headroom asked for: as
      much as there would be elements, less the new ones. */
  lemma UnshiftShows(s: State, l: Layout, num: int)
    ensures var o, n := UnshiftStep(s, l, num), |s.elems|;
            var e, h := o.state.elems, if l.offset < num then l.offset else num;
            if num <= 0 then o == Outcome(s, Done)
            else
              var top := n + h - 1;
              var croaks := h < num && n + num - 1 + (if top > 0 then top else 0) > l.max + h
                            && n + num - 1 + (if top > 0 then top else 0) > I32_MAX;
              && o.ret == (if croaks then Croak(TooManyElements) else Done) && o.state.isReal && o.state.tmps == s.tmps
              && |e| == n + (if croaks then h else num)
              && forall i :: 0 <= i < |e| ==> e[i] == if i < |e| - n then Null else s.elems[i - (|e| - n)]
  {
    hide BumpAll;
  }

  /** av_fill makes the array that long: what is cut off is gone, and what is added is empty. */
  lemma FillMakes(s: State, l: Layout, fill: int)
    requires |s.elems| <= l.max + 1
    ensures var o, n := FillStep(s, l, fill), |s.elems|;
            var e, m := o.state.elems, if fill < 0 then 0 else fill + 1;
            if fill > l.max && fill > I32_MAX then o.ret == Croak(TooManyElements) && e == s.elems
            else
              && o.ret == Done && |e| == m && o.state.tmps == s.tmps && (o.state.isReal <==> s.isReal || fill > l.max)
              && forall i :: 0 <= i < m ==> e[i] == if i < n then s.elems[i] else Null
  {
    hide BumpAll, Bump;
    StoreLands(s, l, if fill < 0 then 0 else fill, Null);
  }

  /** A delete takes exactly the element asked for out, from the end if the index is negative: it
      leaves an empty one, or none if it was the last, and then no empty ones before it either. It
      yields the element, as a mortal, unless that is to be discarded. */
  lemma DeleteTakes(s: State, key: int, discard: bool)
    ensures var o, n := DeleteStep(s, key, discard), |s.elems|;
            var k, e := if key < 0 then n + key else key, o.state.elems;
            if k < 0 || k >= n then o == Outcome(s, NullPointer)
            else
              && o.ret == (if s.elems[k] == Null || discard then NullPointer else Value(s.elems[k].sv))
              && o.state.tmps
                 == (if s.elems[k].Ref? && s.elems[k].sv != UNDEF && !discard then s.tmps + [s.elems[k]] else s.tmps)
              && o.state.isReal && |e| <= n && (forall i :: 0 <= i < |e| && i != k ==> e[i] == s.elems[i])
              && (k < n - 1 ==> |e| == n && e[k] == Null)
              && (k == n - 1 ==> |e| < n && (forall i :: |e| <= i < k ==> s.elems[i] == Null))
              && (k == n - 1 && e != [] ==> e[|e| - 1] != Null)
  {
    hide BumpAll, Bump;
    if key < |s.elems| && key + |s.elems| >= 0 {
      TrimIsPrefix(s.elems[..if key < 0 then |s.elems| + key else key]);
    }
  }

  /** An element exists if its index, from the end if that is negative, is in the array and its
      cell is not empty. av_clear and av_undef leave no element. */
  lemma ExistsAndEmpties(s: State, key: int)
    ensures var k := if key < 0 then |s.elems| + key else key;
            ExistsStep(s, key) == Outcome(s, Flag(0 <= k < |s.elems| && s.elems[k] != Null))
    ensures var o := EmptyStep(s);
            o.ret == Done && o.state.elems == [] && o.state.isReal == s.isReal && o.state.tmps == s.tmps
  {
  }

  /** A stored value is found at its index, counted from either end; every other element stays,
      and a gap the store leaves open does not exist. */
  lemma StoreThenFetch(s: State, l: Layout, l': Layout, key: int, val: Cell, other: nat)
    requires val != Null && StoreStep(s, l, key, val).ret.Slot?
    ensures var o := StoreStep(s, l, key, val);
            var k := o.ret.key;
            var e := o.state.elems;
            && k < |e| && e[k] == val
            && FetchStep(o.state, l', k, false) == Outcome(o.state, Slot(k))
            && FetchStep(o.state, l', k - |e|, false) == Outcome(o.state, Slot(k))
            && (other < |e| && other != k ==>
                 ExistsStep(o.state, other).ret == Flag(other < |s.elems| && s.elems[other] != Null))
  {
  }

  /** A deleted element does not exist any more, no other element changes, and the array ends
      in an element that exists if the last one was deleted. */
  lemma DeleteThenExists(s: State, k: nat, discard: bool, other: nat)
    requires k < |s.elems| && other != k
    ensures var t := DeleteStep(s, k, discard).state;
            && ExistsStep(t, k).ret == Flag(false)
            && ExistsStep(t, other).ret == ExistsStep(s, other).ret
            && (k == |s.elems| - 1 && t.elems != [] ==> t.elems[|t.elems| - 1] != Null)
  {
    hide BumpAll, Bump;
    TrimIsPrefix(s.elems[..k]);
  }

  /** av_fill(av, -1) is av_clear, as its documentation says. */
  lemma FillNothingIsClear(s: State, l: Layout)
    requires l.max >= -1
    ensures FillStep(s, l, -1) == EmptyStep(s)
  {
    assert s.elems[0..] == s.elems;
    assert s.elems == [] ==> BumpAll(s.refs, s.elems, -1) == s.refs;
  }
}
