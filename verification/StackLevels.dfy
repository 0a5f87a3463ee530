/** The runlevel stacks of cop.h as values: what PUSHSTACKi, POPSTACK and POPSTACK_TO do to the
    levels, and what whole runs of them do. */
module StackLevels {

  datatype Cell = Uninit | Undef | Sv(id: nat)

  /** One stackinfo: its type, its context index, and the cells and the fill index of its
      argument stack. */
  datatype Level = Level(kind: int, cxix: int, cells: seq<Cell>, fill: int)

  /** The chain of stackinfos in order, the place of PL_curstackinfo in it, and the stack
      pointer as an index into the current stack. The fill index of the current level is out of
      date: the stack pointer stands for it. */
  datatype State = State(levels: seq<Level>, at: nat, sp: nat) {
    predicate Valid() {
      && at < |levels|
      && sp < |levels[at].cells|
      && (forall k :: 0 <= k < |levels| && k != at ==> 0 <= levels[k].fill < |levels[k].cells|)
      && (forall k :: 0 <= k < |levels| ==> levels[k].cxix >= -1)
    }
  }

  const STACK_ITEMS := 32
  const PERLSI_UNDEF := 0
  const PERLSI_MAIN := 1

  /** new_stackinfo: a stack that holds one undef, and room for more. */
  function NewLevel(items: nat): (l: Level)
    ensures 0 <= l.fill < |l.cells| && l.cxix == -1
  {
    Level(PERLSI_UNDEF, -1, [Undef] + seq(if items > 2 then items - 1 else 1, _ => Uninit), 0)
  }

  /** SWITCHSTACK to the stack of level `t`, which becomes current. */
  function Moved(s: State, t: nat): (r: State)
    requires s.Valid() && t < |s.levels| && t != s.at
    ensures r.Valid()
  {
    State(s.levels[s.at := s.levels[s.at].(fill := s.sp)], t, s.levels[t].fill)
  }

  /** The level above is given its type and emptied. */
  function Prepared(s: State, kind: int): (r: State)
    requires s.Valid() && s.at + 1 < |s.levels|
    ensures r.Valid()
  {
    s.(levels := s.levels[s.at + 1 := s.levels[s.at + 1].(kind := kind, cxix := -1, fill := 0)])
  }

  /** A new level on top of the chain. */
  function Grown(s: State): (r: State)
    requires s.Valid()
    ensures r.Valid()
  {
    s.(levels := s.levels + [NewLevel(STACK_ITEMS)])
  }

  /** PUSHSTACKi: the level above, a new one if there is none yet. */
  function Pushed(s: State, kind: int): (r: State)
    requires s.Valid()
    ensures r.Valid() && r.at == s.at + 1
  {
    var chain := if s.at + 1 < |s.levels| then s else Grown(s);
    Moved(Prepared(chain, kind), s.at + 1)
  }

  /** POPSTACK on a level that has one below it. */
  function Popped(s: State): (r: State)
    requires s.Valid() && s.at > 0
    ensures r.Valid() && r.at == s.at - 1
  {
    Moved(s, s.at - 1)
  }

  /** dounwind(-1): no context is left on the current level. */
  function Unwound(s: State): (r: State)
    requires s.Valid()
    ensures r.Valid()
  {
    s.(levels := s.levels[s.at := s.levels[s.at].(cxix := -1)])
  }

  /** POPSTACK_TO the stack of level `t`. */
  function UnwoundTo(s: State, t: nat): (r: State)
    requires s.Valid() && t <= s.at
    ensures r.Valid() && r.at == t
    decreases s.at
  {
    if s.at == t then s else UnwoundTo(Popped(Unwound(s)), t)
  }

  /** One more level of unwinding. */
  lemma {:induction false} UnwoundStep(s: State, t: nat)
    requires s.Valid() && 0 < t <= s.at
    ensures UnwoundTo(s, t - 1) == Popped(Unwound(UnwoundTo(s, t)))
    decreases s.at
  {
    if t < s.at {
      UnwoundStep(Popped(Unwound(s)), t);
    }
  }

  // ----- Runs -----

  /** What happens at a runlevel: a level is entered or left, or the code that runs there does
      whatever it likes to its own argument stack and contexts. */
  datatype Event = Push(kind: int) | Pop | Work(cells: seq<Cell>, sp: nat, cxix: int) {
    predicate Valid() {
      Work? ==> sp < |cells| && cxix >= -1
    }

    function Rise(): int {
      if Push? then 1 else if Pop? then -1 else 0
    }
  }

  datatype Outcome = Outcome(state: State, croaked: bool)

  function Step(s: State, e: Event): (r: Outcome)
    requires s.Valid() && e.Valid()
    ensures r.state.Valid()
  {
    match e
    case Push(kind) => Outcome(Pushed(s, kind), false)
    case Pop => if s.at == 0 then Outcome(s, true) else Outcome(Popped(s), false)
    case Work(cells, sp, cxix) =>
      Outcome(s.(levels := s.levels[s.at := s.levels[s.at].(cells := cells, cxix := cxix)], sp := sp), false)
  }

  predicate ValidEvents(es: seq<Event>) {
    forall k :: 0 <= k < |es| ==> es[k].Valid()
  }

  /** The croak of POPSTACK ends a run. */
  function Run(s: State, es: seq<Event>): (r: Outcome)
    requires s.Valid() && ValidEvents(es)
    ensures r.state.Valid()
    decreases |es|
  {
    if es == [] then Outcome(s, false)
    else
      var r := Step(s, es[0]);
      if r.croaked then r else Run(r.state, es[1..])
  }

  function Height(es: seq<Event>): int {
    if es == [] then 0 else es[0].Rise() + Height(es[1..])
  }

  /** The run, begun `h` levels up, never goes below the level counted as zero. */
  predicate Stays(es: seq<Event>, h: int) {
    h >= 0 && (es == [] || Stays(es[1..], h + es[0].Rise()))
  }

  /** How far the run rises above the level it begins on. */
  function Peak(es: seq<Event>): nat {
    if es == [] then 0 else Max(es[0].Rise() + Peak(es[1..]), 0)
  }

  predicate Balanced(es: seq<Event>) {
    Stays(es, 0) && Height(es) == 0
  }

  function Max(a: int, b: int): int {
    if a >= b then a else b
  }

  /** POPSTACK croaks in exactly the runs that leave more levels than they have. */
  lemma {:induction false} CroaksExactly(s: State, es: seq<Event>)
    requires s.Valid() && ValidEvents(es)
    ensures Run(s, es).croaked <==> !Stays(es, s.at)
    decreases |es|
  {
    if es != [] {
      var r := Step(s, es[0]);
      if !r.croaked {
        CroaksExactly(r.state, es[1..]);
      } else {
        assert !Stays(es[1..], s.at - 1);
      }
    }
  }

  /** A run that stays above level `s.at - h` leaves every level below that one alone. */
  lemma {:induction false} RunKeeps(s: State, es: seq<Event>, h: nat)
    requires s.Valid() && ValidEvents(es) && h <= s.at && Stays(es, h)
    ensures !Run(s, es).croaked && Run(s, es).state.at == s.at + Height(es) >= s.at - h
    ensures forall k :: 0 <= k < s.at - h ==> Run(s, es).state.levels[k] == s.levels[k]
    decreases |es|
  {
    if es != [] {
      var r := Step(s, es[0]).state;
      RunKeeps(r, es[1..], h + es[0].Rise());
    }
  }

  lemma StepLength(s: State, e: Event)
    requires s.Valid() && e.Valid() && (e.Pop? ==> s.at > 0)
    ensures var r := Step(s, e);
            && !r.croaked && r.state.at == s.at + e.Rise()
            && s.at < |s.levels| && |r.state.levels| == Max(|s.levels|, r.state.at + 1)
  {
  }

  /** The first step of a run that does not go below the bottom. */
  lemma RunUnfolds(s: State, es: seq<Event>)
    requires s.Valid() && ValidEvents(es) && es != [] && Stays(es, s.at)
    ensures ValidEvents(es[1..])
    ensures var r := Step(s, es[0]).state;
            && Stays(es[1..], r.at) && Run(s, es) == Run(r, es[1..]) && r.at == s.at + es[0].Rise()
            && s.at < |s.levels| && |r.levels| == Max(|s.levels|, r.at + 1)
  {
    hide Step, State.Valid, Max, Event.Rise, Run;
    StaysAbove(es, s.at);
    StepLength(s, es[0]);
    RunBegins(s, es);
  }

  lemma StaysAbove(es: seq<Event>, h: int)
    requires es != [] && Stays(es, h)
    ensures Stays(es[1..], h + es[0].Rise()) && (es[0].Pop? ==> h > 0)
  {
  }

  lemma RunBegins(s: State, es: seq<Event>)
    requires s.Valid() && ValidEvents(es) && es != []
    ensures ValidEvents(es[1..])
    ensures var r := Step(s, es[0]); Run(s, es) == if r.croaked then r else Run(r.state, es[1..])
  {
    hide Step, State.Valid, Event.Valid;
  }

  /** Levels are allocated as they are first entered and never freed: the chain is as long as
      the deepest level so far makes it. */
  lemma {:induction false} RunLength(s: State, es: seq<Event>)
    requires s.Valid() && ValidEvents(es) && Stays(es, s.at)
    ensures |Run(s, es).state.levels| == Max(|s.levels|, s.at + Peak(es) + 1)
    decreases |es|
  {
    hide Run, Stays, Step, State.Valid, Max, Event.Rise;
    if es == [] {
      LevelExists(s);
    } else {
      RunUnfolds(s, es);
      RunLength(Step(s, es[0]).state, es[1..]);
      MaxOfThree(|s.levels|, s.at, es[0].Rise(), Peak(es[1..]));
    }
  }

  lemma LevelExists(s: State)
    requires s.Valid()
    ensures |Run(s, []).state.levels| == Max(|s.levels|, s.at + Peak([]) + 1)
  {
  }

  lemma MaxOfThree(levels: int, at: int, rise: int, peak: nat)
    requires at < levels
    ensures Max(levels, at + Max(rise + peak, 0) + 1) == Max(Max(levels, at + rise + 1), at + rise + peak + 1)
  {
  }

  lemma {:induction false} StaysHigher(es: seq<Event>, g: int, h: int)
    requires Stays(es, g) && g <= h
    ensures Stays(es, h)
  {
    if es != [] {
      StaysHigher(es[1..], g + es[0].Rise(), h + es[0].Rise());
    }
  }

  lemma {:induction false} RunConcat(s: State, a: seq<Event>, b: seq<Event>)
    requires s.Valid() && ValidEvents(a) && ValidEvents(b) && ValidEvents(a + b) && !Run(s, a).croaked
    ensures Run(s, a + b) == Run(Run(s, a).state, b)
    decreases |a|
  {
    if a == [] {
      assert a + b == b;
    } else {
      assert (a + b)[0] == a[0] && (a + b)[1..] == a[1..] + b;
      RunConcat(Step(s, a[0]).state, a[1..], b);
    }
  }

  /** What a push does to the levels. */
  ghost predicate Entered(q: State, r: State, kind: int) {
    var n := q.at + 1;
    && n <= |q.levels| && r.at == n < |r.levels| && r.sp == 0
    && (if n < |q.levels| then |r.levels| == |q.levels| && r.levels[n] == Level(kind, -1, q.levels[n].cells, 0)
        else
          && |r.levels| == n + 1 && r.levels[n] == Level(kind, -1, r.levels[n].cells, 0)
          && |r.levels[n].cells| == 32 && r.levels[n].cells[0] == Undef)
    && r.levels[q.at] == Level(q.levels[q.at].kind, q.levels[q.at].cxix, q.levels[q.at].cells, q.sp)
    && forall k :: 0 <= k < |q.levels| && k != q.at && k != n ==> r.levels[k] == q.levels[k]
  }

  lemma PushEnters(s: State, kind: int)
    requires s.Valid()
    ensures Entered(s, Pushed(s, kind), kind)
  {
  }

  /** Whatever was run before, a level is entered empty: without contexts, with the type asked for
      and the stack pointer at the bottom of its stack, which keeps its cells if it has been used
      before. The level below keeps the stack pointer, and no other level changes. */
  lemma LevelEntered(s: State, es: seq<Event>, kind: int)
    requires s.Valid() && ValidEvents(es) && !Run(s, es).croaked
    ensures ValidEvents(es + [Push(kind)]) && !Run(s, es + [Push(kind)]).croaked
    ensures Entered(Run(s, es).state, Run(s, es + [Push(kind)]).state, kind)
  {
    hide Run, Pushed, Entered, State.Valid;
    PushIsValid(es, kind);
    RunConcat(s, es, [Push(kind)]);
    RunPush(Run(s, es).state, kind);
    PushEnters(Run(s, es).state, kind);
  }

  lemma PushIsValid(es: seq<Event>, kind: int)
    requires ValidEvents(es)
    ensures ValidEvents(es + [Push(kind)]) && ValidEvents([Push(kind)])
  {
  }

  lemma RunPush(s: State, kind: int)
    requires s.Valid()
    ensures Run(s, [Push(kind)]) == Outcome(Pushed(s, kind), false)
  {
    assert [Push(kind)][1..] == [];
  }

  /** And one that is left keeps its stack pointer; the stack pointer is then that of the level
      below. What a level's own code does changes nothing but that level. */
  lemma LevelLeft(s: State, cells: seq<Cell>, sp: nat, cxix: int)
    requires s.Valid() && Work(cells, sp, cxix).Valid()
    ensures var r := Step(s, Pop);
            if s.at == 0 then r == Outcome(s, true)
            else
              && !r.croaked && r.state.at == s.at - 1 && r.state.sp == s.levels[s.at - 1].fill
              && |r.state.levels| == |s.levels|
              && r.state.levels[s.at]
                 == Level(s.levels[s.at].kind, s.levels[s.at].cxix, s.levels[s.at].cells, s.sp)
              && forall k :: 0 <= k < |s.levels| && k != s.at ==> r.state.levels[k] == s.levels[k]
    ensures var r := Step(s, Work(cells, sp, cxix));
            && !r.croaked && r.state.at == s.at && r.state.sp == sp && |r.state.levels| == |s.levels|
            && r.state.levels[s.at] == Level(s.levels[s.at].kind, cxix, cells, s.levels[s.at].fill)
            && forall k :: 0 <= k < |s.levels| && k != s.at ==> r.state.levels[k] == s.levels[k]
  {
  }

  /** What a level's own code sees of the stacks: the levels below, and its own. */
  predicate SameAt(s: State, r: State)
    requires s.Valid() && r.Valid()
  {
    && r.at == s.at
    && r.sp == s.sp
    && r.levels[s.at] == s.levels[s.at].(fill := s.sp)
    && (forall k :: 0 <= k < s.at ==> r.levels[k] == s.levels[k])
  }

  /** What lies between a push and a pop is of no matter to the caller. */
  lemma AfterCall(s: State, kind: int, q: State)
    requires s.Valid() && q.Valid() && q.at == s.at + 1
    requires forall k :: 0 <= k <= s.at ==> q.levels[k] == Pushed(s, kind).levels[k]
    ensures SameAt(s, Popped(q)) && |Popped(q).levels| == |q.levels|
    ensures |Pushed(s, kind).levels| == Max(|s.levels|, s.at + 2)
  {
  }

  lemma EnterRun(s: State, kind: int, es: seq<Event>)
    requires s.Valid() && ValidEvents(es)
    ensures ValidEvents([Push(kind)] + es)
    ensures Run(s, [Push(kind)] + es) == Run(Pushed(s, kind), es)
  {
    assert ([Push(kind)] + es)[1..] == es;
  }

  lemma RunPop(s: State)
    requires s.Valid() && s.at > 0
    ensures Run(s, [Pop]) == Outcome(Popped(s), false)
  {
    assert [Pop][1..] == [];
  }

  /** A call that enters a level, runs to its end there, and leaves it: the caller finds its
      stack, its stack pointer and its contexts as they were, and a level has been allocated
      only where none had been before. */
  lemma {:induction false} CallRestores(s: State, kind: int, es: seq<Event>)
    requires s.Valid() && ValidEvents(es) && Balanced(es)
    ensures ValidEvents([Push(kind)] + es + [Pop])
    ensures var r := Run(s, [Push(kind)] + es + [Pop]);
            !r.croaked && SameAt(s, r.state) && |r.state.levels| == Max(|s.levels|, s.at + Peak(es) + 2)
  {
    hide Run, Pushed, Popped, State.Valid, SameAt;
    var p := Pushed(s, kind);
    EnterRun(s, kind, es + [Pop]);
    RunKeeps(p, es, 0);
    StaysHigher(es, 0, p.at);
    RunLength(p, es);
    RunConcat(p, es, [Pop]);
    var q := Run(p, es).state;
    RunPop(q);
    AfterCall(s, kind, q);
    assert [Push(kind)] + es + [Pop] == [Push(kind)] + (es + [Pop]);
  }

  /** POPSTACK_TO in closed form. */
  lemma {:induction false} UnwoundToIs(s: State, t: nat)
    requires s.Valid() && t < s.at
    ensures var r := UnwoundTo(s, t);
            && r.at == t && r.sp == s.levels[t].fill && |r.levels| == |s.levels|
            && (forall k :: 0 <= k <= t || s.at < k < |s.levels| ==> r.levels[k] == s.levels[k])
            && (forall k :: t < k <= s.at ==>
                  r.levels[k] == s.levels[k].(cxix := -1, fill := if k == s.at then s.sp else s.levels[k].fill))
    decreases s.at
  {
    var q := Popped(Unwound(s));
    if q.at > t {
      UnwoundToIs(q, t);
    }
  }

  /** A call that is abandoned at any depth: unwinding to the caller's stack gives the caller
      what a call that ends by itself gives it. */
  lemma {:induction false} UnwindingRestores(s: State, kind: int, es: seq<Event>)
    requires s.Valid() && ValidEvents(es) && Stays(es, 0)
    ensures ValidEvents([Push(kind)] + es)
    ensures var r := Run(s, [Push(kind)] + es);
            !r.croaked && r.state.at > s.at && SameAt(s, UnwoundTo(r.state, s.at))
  {
    var p := Pushed(s, kind);
    EnterRun(s, kind, es);
    RunKeeps(p, es, 0);
    UnwoundToIs(Run(p, es).state, s.at);
    hide Run, UnwoundTo;
  }
}
