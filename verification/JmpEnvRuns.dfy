/** The jump environments of cop.h as values: where JMPENV_JUMP goes, and what a run of pushes,
    pops and jumps leaves behind. */
module JmpEnvRuns {

  /** One JMPENV: its address, what its setjmp returned last, and what it has saved. */
  datatype Frame = Frame(id: nat, ret: int, mustcatch: bool, magic: nat)

  /** The environments from PL_start_env up to PL_top_env, and PL_delaymagic. */
  datatype State = State(frames: seq<Frame>, delaymagic: nat) {
    predicate Valid() {
      frames != []
    }

    function Top(): Frame
      requires Valid()
    {
      frames[|frames| - 1]
    }

    function Below(): seq<Frame>
      requires Valid()
    {
      frames[..|frames| - 1]
    }
  }

  /** JMPENV_BOOTSTRAP */
  function Bootstrap(id: nat, magic: nat): (s: State)
    ensures s.Valid()
  {
    State([Frame(id, -1, true, 0)], magic)
  }

  /** What JMPENV_PUSH does each time its setjmp returns: first with zero, and then with the
      value of every jump that ends there. */
  function Landed(below: seq<Frame>, id: nat, v: int, magic: nat): (s: State)
    ensures s.Valid()
  {
    State(below + [Frame(id, v, false, magic)], magic)
  }

  /** What setjmp returns for a jump with `v`: never zero. */
  function Thrown(v: int): (r: int)
    ensures r != 0
  {
    if v == 0 then 1 else v
  }

  /** What the code between JMPENV_BOOTSTRAP and the end does to the environments. */
  datatype Event = Push(id: nat) | Pop | Jump(v: int) | CatchSet(on: bool) | Magic(d: nat) {
    function Rise(): int {
      if Push? then 1 else if Pop? then -1 else 0
    }
  }

  datatype Outcome = Going(state: State) | Exit(status: int)

  /** `statusExit` is STATUS_EXIT, the program's own exit status. */
  function Step(s: State, e: Event, statusExit: int): (r: Outcome)
    requires s.Valid() && (e.Pop? ==> |s.frames| > 1)
    ensures r.Going? ==> r.state.Valid()
  {
    match e
    case Push(id) => Going(Landed(s.frames, id, 0, s.delaymagic))
    case Pop => Going(State(s.Below(), s.Top().magic))
    case Jump(v) =>
      if |s.frames| > 1 then Going(Landed(s.Below(), s.Top().id, Thrown(v), s.delaymagic))
      else Exit(if v == 2 then statusExit else 1)
    case CatchSet(on) => Going(s.(frames := s.Below() + [s.Top().(mustcatch := on)]))
    case Magic(d) => Going(s.(delaymagic := d))
  }

  /** How many of the environments that were there before are popped at some time. */
  function Dip(es: seq<Event>): nat {
    if es == [] then 0
    else
      var d := Dip(es[1..]) - es[0].Rise();
      if d > 0 then d else 0
  }

  function Height(es: seq<Event>): int {
    if es == [] then 0 else es[0].Rise() + Height(es[1..])
  }

  /** Every environment that is pushed is popped before the run ends, and no other is. */
  predicate Nested(es: seq<Event>) {
    Dip(es) == 0 && Height(es) == 0
  }

  function Run(s: State, es: seq<Event>, statusExit: int): (r: Outcome)
    requires s.Valid() && Dip(es) < |s.frames|
    ensures r.Going? ==> r.state.Valid()
    decreases |es|
  {
    if es == [] then Going(s)
    else
      var r := Step(s, es[0], statusExit);
      if r.Exit? then r else Run(r.state, es[1..], statusExit)
  }

  /** The pushes of a run that no later pop answers, counted by the bracket rule alone. */
  function Live(es: seq<Event>): seq<nat> {
    if es == [] then []
    else (if es[0].Push? && Dip(es[1..]) == 0 then [es[0].id] else []) + Live(es[1..])
  }

  function Ids(fs: seq<Frame>): (r: seq<nat>)
    ensures |r| == |fs| && forall i :: 0 <= i < |fs| ==> r[i] == fs[i].id
  {
    seq(|fs|, i requires 0 <= i < |fs| => fs[i].id)
  }

  lemma StepIds(s: State, e: Event, x: int)
    requires s.Valid() && (e.Pop? ==> |s.frames| > 1) && Step(s, e, x).Going?
    ensures var r := Step(s, e, x).state;
            && |r.frames| == |s.frames| + e.Rise()
            && (e.Push? ==> Ids(r.frames) == Ids(s.frames) + [e.id] && r.frames[..|s.frames|] == s.frames)
            && (e.Pop? ==> Ids(r.frames) == Ids(s.frames)[..|s.frames| - 1] && r.frames == s.Below())
            && (!e.Push? && !e.Pop? ==> Ids(r.frames) == Ids(s.frames) && r.Below() == s.Below())
  {
  }

  /** One event of a run that dips by `d` environments afterwards. */
  lemma BracketRule(ids: seq<nat>, e: Event, d: nat, live: seq<nat>)
    requires d < |ids| + e.Rise() && (e.Pop? ==> ids != [])
    ensures var after := if e.Push? then ids + [e.id] else if e.Pop? then ids[..|ids| - 1] else ids;
            var dip := if d > e.Rise() then d - e.Rise() else 0;
            after[..|after| - d] + live == ids[..|ids| - dip] + ((if e.Push? && d == 0 then [e.id] else []) + live)
  {
    if e.Push? && d == 0 {
      assert (ids + [e.id])[..|ids| + 1] == ids + [e.id];
      assert ids[..|ids|] == ids;
      assert ids + ([e.id] + live) == ids + [e.id] + live;
    } else {
      assert [] + live == live;
    }
  }

  /** The chain of environments is what the bracket rule says: the old ones that were not
      popped, and above them the new ones that are still live. */
  lemma {:induction false} ChainIsLive(s: State, es: seq<Event>, x: int)
    requires s.Valid() && Dip(es) < |s.frames| && Run(s, es, x).Going?
    ensures Ids(Run(s, es, x).state.frames) == Ids(s.frames)[..|s.frames| - Dip(es)] + Live(es)
    decreases |es|
  {
    if es != [] {
      var r := Step(s, es[0], x).state;
      ChainIsLive(r, es[1..], x);
      StepIds(s, es[0], x);
      assert Run(s, es, x) == Run(r, es[1..], x);
      assert Live(es) == (if es[0].Push? && Dip(es[1..]) == 0 then [es[0].id] else []) + Live(es[1..]);
      BracketRule(Ids(s.frames), es[0], Dip(es[1..]), Live(es[1..]));
      hide *;
    }
  }

  /** No environment below the ones a run works with is touched in any way. */
  lemma {:induction false} BelowUntouched(s: State, es: seq<Event>, x: int)
    requires s.Valid() && Dip(es) < |s.frames| && Run(s, es, x).Going?
    ensures |Run(s, es, x).state.frames| == |s.frames| + Height(es) >= |s.frames| - Dip(es)
    ensures forall i :: 0 <= i < |s.frames| - Dip(es) - 1 ==> Run(s, es, x).state.frames[i] == s.frames[i]
    decreases |es|
  {
    if es != [] {
      BelowUntouched(Step(s, es[0], x).state, es[1..], x);
    }
  }

  /** A jump takes place when, of the environments that were there before, the one on top is
      the one that `h` environments are above at the start. */
  predicate JumpsAt(es: seq<Event>, h: int) {
    es != [] && ((es[0].Jump? && h == 0) || JumpsAt(es[1..], h + es[0].Rise()))
  }

  /** A run ends the program in exactly the case that a jump finds nothing but PL_start_env. */
  lemma {:induction false} ExitsExactly(s: State, es: seq<Event>, x: int)
    requires s.Valid() && Dip(es) < |s.frames|
    ensures Run(s, es, x).Exit? <==> JumpsAt(es, |s.frames| - 1)
    decreases |es|
  {
    if es != [] {
      var r := Step(s, es[0], x);
      if r.Going? {
        ExitsExactly(r.state, es[1..], x);
      }
    }
  }

  lemma {:induction false} NoJumpBelow(es: seq<Event>, h: int)
    requires Dip(es) < h
    ensures !JumpsAt(es, h)
  {
    if es != [] {
      NoJumpBelow(es[1..], h + es[0].Rise());
    }
  }

  /** A jump that finds only the bootstrap environment ends the program with STATUS_EXIT if it is
      by 2, and else with 1. */
  lemma JumpExits(s: State, es: seq<Event>, v: int, x: int)
    requires s.Valid() && Dip(es) < |s.frames| && Run(s, es, x).Going?
    ensures var r := Step(Run(s, es, x).state, Jump(v), x);
            r.Exit? <==> |Run(s, es, x).state.frames| == 1
    ensures var r := Step(Run(s, es, x).state, Jump(v), x);
            r.Exit? ==> r.status == if v == 2 then x else 1
  {
  }

  /** What the other events do. */
  lemma OtherEvents(s: State, id: nat, on: bool, d: nat, x: int)
    requires s.Valid()
    ensures Step(s, Push(id), x) == Going(State(s.frames + [Frame(id, 0, false, s.delaymagic)], s.delaymagic))
    ensures Step(s, Magic(d), x) == Going(State(s.frames, d))
    ensures |s.frames| > 1 ==>
              Step(s, Pop, x) == Going(State(s.frames[..|s.frames| - 1], s.frames[|s.frames| - 1].magic))
    ensures var r := Step(s, CatchSet(on), x).state;
            && |r.frames| == |s.frames| && r.delaymagic == s.delaymagic
            && (forall i :: 0 <= i < |s.frames| - 1 ==> r.frames[i] == s.frames[i])
            && r.frames[|s.frames| - 1] == s.frames[|s.frames| - 1].(mustcatch := on)
  {
  }

  /** Every jump of every run goes to the environment that was pushed last among those not yet
      popped, however its setjmp has returned before, and everything below stays. */
  lemma JumpLands(s: State, es: seq<Event>, v: int, x: int)
    requires s.Valid() && Dip(es) < |s.frames| && Run(s, es, x).Going?
    requires |Run(s, es, x).state.frames| > 1
    ensures var t := Run(s, es, x).state;
            var r := Step(t, Jump(v), x);
            && r.Going? && r.state.Below() == t.Below()
            && r.state.Top() == Frame(t.Top().id, if v == 0 then 1 else v, false, t.delaymagic)
            && r.state.delaymagic == t.delaymagic
            && t.Top().id
               == (if Live(es) == [] then s.frames[|s.frames| - Dip(es) - 1].id else Live(es)[|Live(es)| - 1])
  {
    ChainIsLive(s, es, x);
    var ids := Ids(s.frames)[..|s.frames| - Dip(es)];
    assert Ids(Run(s, es, x).state.frames)[|Run(s, es, x).state.frames| - 1] == (ids + Live(es))[|ids + Live(es)| - 1];
  }

  lemma {:induction false} DipConcat(a: seq<Event>, b: seq<Event>)
    ensures Height(a + b) == Height(a) + Height(b)
    ensures Dip(a + b) == if Dip(b) - Height(a) > Dip(a) then Dip(b) - Height(a) else Dip(a)
    ensures Dip(a) + Height(a) >= 0
  {
    if a == [] {
      assert a + b == b;
    } else {
      assert (a + b)[0] == a[0] && (a + b)[1..] == a[1..] + b;
      DipConcat(a[1..], b);
    }
  }

  lemma {:induction false} RunConcat(s: State, a: seq<Event>, b: seq<Event>, x: int)
    requires s.Valid() && Dip(a) < |s.frames| && Dip(a + b) < |s.frames| && Run(s, a, x).Going?
    ensures |Run(s, a, x).state.frames| > Dip(b)
    ensures Run(s, a + b, x) == Run(Run(s, a, x).state, b, x)
    decreases |a|
  {
    if a == [] {
      assert a + b == b;
    } else {
      assert (a + b)[0] == a[0] && (a + b)[1..] == a[1..] + b;
      RunConcat(Step(s, a[0], x).state, a[1..], b, x);
    }
  }

  /** JMPENV_PUSH, a nested run with any number of jumps, and JMPENV_POP: the environments are
      exactly as they were, PL_top_env among them. */
  lemma {:induction false} NestedRestores(s: State, id: nat, es: seq<Event>, x: int)
    requires s.Valid() && Nested(es)
    ensures Dip([Push(id)] + es + [Pop]) == 0
    ensures var p := Landed(s.frames, id, 0, s.delaymagic);
            var r := Run(s, [Push(id)] + es + [Pop], x);
            && r.Going? && r.state.frames == s.frames
            && Run(p, es, x).Going? && r.state.delaymagic == Run(p, es, x).state.Top().magic
            && Run(p, es, x).state.Top().id == id && Run(p, es, x).state.Below() == s.frames
  {
    var p := Landed(s.frames, id, 0, s.delaymagic);
    var call := [Push(id)] + es + [Pop];
    DipConcat(es, [Pop]);
    assert call[0] == Push(id) && call[1..] == es + [Pop];
    assert [Pop][1..] == [];
    NoJumpBelow(es, |p.frames| - 1);
    ExitsExactly(p, es, x);
    BelowUntouched(p, es, x);
    RunConcat(p, es, [Pop], x);
    ChainIsLive(p, es, x);
  }

  // ----- PL_delaymagic -----

  /** The value of PL_delaymagic that an environment has saved changes only where a jump ends
      in that environment. */
  lemma {:induction false} SavedMagicStays(s: State, es: seq<Event>, h: nat, x: int)
    requires s.Valid() && Dip(es) <= h && h + 1 < |s.frames| && !JumpsAt(es, h)
    ensures Run(s, es, x).Going? && |Run(s, es, x).state.frames| >= |s.frames| - h
    ensures Run(s, es, x).state.frames[|s.frames| - 1 - h].magic == s.frames[|s.frames| - 1 - h].magic
    decreases |es|
  {
    if es != [] {
      var r := Step(s, es[0], x).state;
      SavedMagicStays(r, es[1..], h + es[0].Rise(), x);
    }
  }

  /** JMPENV_POP restores PL_delaymagic if no jump ended in the environment. */
  lemma MagicRestored(s: State, id: nat, es: seq<Event>, x: int)
    requires s.Valid() && Nested(es) && !JumpsAt(es, 0)
    ensures Dip([Push(id)] + es + [Pop]) == 0
    ensures Run(s, [Push(id)] + es + [Pop], x) == Going(s)
  {
    NestedRestores(s, id, es, x);
    SavedMagicStays(Landed(s.frames, id, 0, s.delaymagic), es, 0, x);
  }

  /** If a jump ended there, PL_delaymagic becomes what it was when the last of them was thrown,
      so that it is restored exactly if that was the value at the push. */
  lemma {:induction false} MagicAfterJump(s: State, id: nat, a: seq<Event>, v: int, b: seq<Event>, x: int)
    requires s.Valid() && Nested(a) && Nested(b) && !JumpsAt(b, 0)
    ensures Nested(a + [Jump(v)] + b) && Dip([Push(id)] + (a + [Jump(v)] + b) + [Pop]) == 0
    ensures var p := Landed(s.frames, id, 0, s.delaymagic);
            var r := Run(s, [Push(id)] + (a + [Jump(v)] + b) + [Pop], x);
            && Run(p, a, x).Going? && r == Going(State(s.frames, Run(p, a, x).state.delaymagic))
            && (r.state.delaymagic == s.delaymagic <==> Run(p, a, x).state.delaymagic == s.delaymagic)
  {
    var p := Landed(s.frames, id, 0, s.delaymagic);
    var tail := [Jump(v)] + b;
    assert tail[0] == Jump(v) && tail[1..] == b;
    assert a + [Jump(v)] + b == a + tail;
    DipConcat(a, tail);
    NestedRestores(s, id, a, x);
    NestedRestores(s, id, a + tail, x);
    RunConcat(p, a, tail, x);
    var q := Run(p, a, x).state;
    SavedMagicStays(Step(q, Jump(v), x).state, b, 0, x);
  }

  /** A value that was set before the jump survives the pop. */
  lemma MagicLost()
    ensures Run(Bootstrap(0, 0), [Push(1), Magic(7), Jump(3), Pop], 0) == Going(Bootstrap(0, 7))
  {
    var s := Bootstrap(0, 0);
    assert Magic(7).Rise() == 0;
    MagicAfterJump(s, 1, [Magic(7)], 3, [], 0);
    assert [Push(1)] + ([Magic(7)] + [Jump(3)] + []) + [Pop] == [Push(1), Magic(7), Jump(3), Pop];
    var p := Landed(s.frames, 1, 0, 0);
    assert Run(p, [Magic(7)], 0) == Run(p.(delaymagic := 7), [Magic(7)][1..], 0);
  }
}
