/** The chain of stackinfos of cop.h in memory: linked both ways, never freed before the end,
    and reused by the levels that are entered later. */
module StackInfo {
  import opened StackLevels

  /** The argument stack of one level: AvARRAY with its AvMAX + 1 cells, and AvFILLp. */
  class ArgStack {
    var cells: seq<Cell>
    var fill: int
    ghost const place: nat

    constructor (items: nat, ghost place: nat)
      ensures this.place == place
      ensures cells == NewLevel(items).cells && fill == NewLevel(items).fill
    {
      cells := NewLevel(items).cells;
      fill := 0;
      this.place := place;
    }
  }

  class PerlSI {
    const stack: ArgStack
    var prev: PerlSI?
    var next: PerlSI?
    var kind: int
    var cxix: int
    /** Where in the chain this stackinfo is: it never moves. */
    ghost const place: nat

    /** new_stackinfo */
    constructor (items: nat, ghost place: nat)
      ensures this.place == stack.place == place
      ensures fresh(stack) && prev == null && next == null
      ensures kind == NewLevel(items).kind == PERLSI_UNDEF && cxix == NewLevel(items).cxix == -1
      ensures stack.cells == NewLevel(items).cells && stack.fill == NewLevel(items).fill == 0
      ensures |stack.cells| == (if items > 1 then items else 2) && stack.cells[0] == Undef
    {
      stack := new ArgStack(items, place);
      this.place := place;
      prev, next, kind, cxix := null, null, PERLSI_UNDEF, -1;
    }

    predicate Has(l: Level)
      reads this`kind, this`cxix, stack
    {
      kind == l.kind && cxix == l.cxix && stack.cells == l.cells && stack.fill == l.fill
    }
  }

  class Interpreter {
    var curstackinfo: PerlSI
    var curstack: ArgStack
    /** PL_stack_sp - PL_stack_base and PL_stack_max - PL_stack_base */
    var sp: nat
    var max: int

    ghost var chain: seq<PerlSI>
    ghost var levels: seq<Level>
    ghost var at: nat

    ghost function Place(i: int): PerlSI?
      reads this`chain
    {
      if 0 <= i < |chain| then chain[i] else null
    }

    /** The chain is linked both ways and ends on both sides. */
    ghost predicate Linked()
      reads this`chain, chain`prev, chain`next
    {
      && (forall i {:trigger chain[i].prev} :: 0 <= i < |chain| ==> chain[i].prev == Place(i - 1))
      && (forall i {:trigger chain[i].next} :: 0 <= i < |chain| ==> chain[i].next == Place(i + 1))
    }

    /** Its levels share nothing. */
    ghost predicate Separate()
      reads this`chain
    {
      forall i :: 0 <= i < |chain| ==> chain[i].place == chain[i].stack.place == i
    }

    ghost function Stacks(): set<ArgStack>
      reads this`chain
    {
      set si | si in chain :: si.stack
    }

    ghost function Abs(): State
      reads this
    {
      State(levels, at, sp)
    }

    /** `levels` is what lies in the chain. */
    ghost predicate Holds()
      reads this`chain, this`levels, chain`kind, chain`cxix, Stacks()
    {
      |levels| == |chain| && forall i :: 0 <= i < |chain| ==> chain[i].Has(levels[i])
    }

    /** The registers belong to the level that is current. */
    ghost predicate Valid()
      reads this, chain, Stacks()
    {
      && Linked() && Separate() && Holds() && Abs().Valid()
      && at < |chain| && curstackinfo == chain[at] && curstack == curstackinfo.stack && max == |levels[at].cells| - 1
    }

    /** init_stacks */
    constructor ()
      ensures Valid() && fresh(chain) && fresh(Stacks())
      ensures Abs() == State([NewLevel(128).(kind := PERLSI_MAIN)], 0, 0)
      ensures curstackinfo.kind == 1 && curstackinfo.cxix == -1 && sp == 0 && max == 127 && curstack.cells[0] == Undef
    {
      var si := new PerlSI(128, 0);
      si.kind := PERLSI_MAIN;
      curstackinfo, curstack := si, si.stack;
      sp, max := 0, |si.stack.cells| - 1;
      chain, levels, at := [si], [NewLevel(128).(kind := PERLSI_MAIN)], 0;
    }

    /** SWITCHSTACK to the stack of another level, which becomes current. */
    method SwitchStack(to: PerlSI)
      requires Valid() && to in chain && to != curstackinfo
      modifies this`sp, this`max, this`curstack, this`curstackinfo, this`levels, this`at, curstack`fill
      ensures Valid() && Abs() == Moved(old(Abs()), to.place)
      ensures curstackinfo == to && sp == to.stack.fill && old(curstack).fill == old(sp)
    {
      hide Linked;
      levels := levels[at := levels[at].(fill := sp)];
      at := to.place;
      curstack.fill := sp;
      sp := to.stack.fill;
      max := |to.stack.cells| - 1;
      curstack := to.stack;
      curstackinfo := to;
      assert Holds();
    }

    /** `next` is linked behind the last stackinfo. */
    method Link(next: PerlSI)
      requires Linked() && Separate() && at < |chain| && curstackinfo == chain[at] && curstackinfo.next == null
      requires next.place == next.stack.place == |chain| && next.next == null
      modifies next`prev, curstackinfo`next, this`chain
      ensures Linked() && Separate() && chain == old(chain) + [next]
    {
      assert at + 1 == |chain|;
      next.prev := curstackinfo;
      curstackinfo.next := next;
      chain := chain + [next];
    }

    /** The part of PUSHSTACKi that makes a level where there is none. */
    method AddLevel() returns (next: PerlSI)
      requires Valid() && curstackinfo.next == null
      modifies curstackinfo`next, this`chain, this`levels
      ensures Valid() && chain == old(chain) + [next] && fresh(next) && fresh(next.stack)
      ensures Abs() == Grown(old(Abs()))
    {
      hide Linked, Separate;
      next := new PerlSI(STACK_ITEMS, |chain|);
      Link(next);
      levels := levels + [NewLevel(STACK_ITEMS)];
      assert Holds();
    }

    /** The part of PUSHSTACKi that prepares the level above. */
    method Prepare(next: PerlSI, kind: int)
      requires Valid() && at + 1 < |chain| && next == chain[at + 1]
      modifies this`levels, next`kind, next`cxix, next.stack`fill
      ensures Valid() && Abs() == Prepared(old(Abs()), kind)
      ensures next.kind == kind && next.cxix == -1 && next.stack.fill == 0
    {
      hide Linked;
      levels := levels[at + 1 := levels[at + 1].(kind := kind, cxix := -1, fill := 0)];
      next.kind := kind;
      next.cxix := -1;
      next.stack.fill := 0;
      assert Holds();
    }

    /** The level above: the one that is there, or a new one. */
    method LevelAbove() returns (next: PerlSI)
      requires Valid()
      modifies curstackinfo`next, this`chain, this`levels
      ensures Valid() && at + 1 < |chain| && next == chain[at + 1]
      ensures Abs() == if at + 1 < |old(levels)| then old(Abs()) else Grown(old(Abs()))
      ensures |old(levels)| == |old(chain)|
      ensures if at + 1 < |old(levels)| then chain == old(chain)
              else chain == old(chain) + [next] && fresh(next) && fresh(next.stack)
    {
      NextIsPlace();
      hide Linked, Separate, Holds, State.Valid;
      var above := curstackinfo.next;
      if above == null {
        next := AddLevel();
      } else {
        next := above;
      }
    }

    /** PUSHSTACKi: a level above is taken as it is if there is one, and allocated if not. */
    method Push(kind: int)
      requires Valid()
      modifies this, chain, Stacks()
      ensures Valid() && Abs() == Pushed(old(Abs()), kind)
      ensures curstackinfo.kind == kind && curstackinfo.cxix == -1 && sp == curstack.fill == 0
      ensures old(chain) <= chain && fresh(set si | si in chain[|old(chain)|..])
      ensures fresh(set si | si in chain[|old(chain)|..] :: si.stack)
      ensures |chain| > |old(chain)| <==> at == |old(chain)|
    {
      hide Linked, Separate, Holds, State.Valid;
      var next := LevelAbove();
      Prepare(next, kind);
      PlaceOf(at);
      PlaceOf(at + 1);
      SwitchStack(next);
    }

    lemma NextIsPlace()
      requires Valid()
      ensures curstackinfo.next == Place(at + 1) && |levels| == |chain|
    {
      assert chain[at].next == Place(at + 1);
    }

    lemma PlaceOf(i: nat)
      requires Valid() && i < |chain|
      ensures chain[i].place == i
    {
    }

    /** POPSTACK: nothing is freed. */
    method Pop() returns (croaked: bool)
      requires Valid()
      modifies this, chain, Stacks()
      ensures Valid() && chain == old(chain)
      ensures Outcome(Abs(), croaked) == Step(old(Abs()), Event.Pop)
    {
      var prev := curstackinfo.prev;
      if prev == null {
        return true;
      }
      SwitchStack(prev);
      croaked := false;
    }

    /** dounwind(-1) */
    method UnwindContexts()
      requires Valid()
      modifies curstackinfo`cxix, this`levels
      ensures Valid() && Abs() == Unwound(old(Abs())) && curstackinfo.cxix == -1
    {
      hide Linked;
      while curstackinfo.cxix > -1
        invariant Valid()
        invariant Abs() == old(Abs()).(levels := old(levels)[at := old(levels)[at].(cxix := curstackinfo.cxix)])
      {
        levels := levels[at := levels[at].(cxix := levels[at].cxix - 1)];
        curstackinfo.cxix := curstackinfo.cxix - 1;
        assert Holds();
      }
    }

    /** POPSTACK_TO: it ends at the stack asked for if a level at or below this one has it, and
        croaks on the lowest level if none has. */
    method PopTo(target: ArgStack) returns (croaked: bool)
      requires Valid()
      modifies this, chain, Stacks()
      ensures Valid() && chain == old(chain) && at <= old(at)
      ensures croaked <==> forall k :: 0 <= k <= old(at) ==> chain[k].stack != target
      ensures !croaked ==> curstack == target && Abs() == UnwoundTo(old(Abs()), at)
      ensures croaked ==> Abs() == Unwound(UnwoundTo(old(Abs()), 0))
    {
      hide Linked, Separate, Holds, State.Valid;
      ghost var was := Abs();
      while curstack != target
        invariant Valid() && chain == old(chain) && at <= was.at < |chain| && Abs() == UnwoundTo(was, at)
        invariant forall k :: at < k <= was.at ==> chain[k].stack != target
        decreases at
      {
        if at > 0 {
          UnwoundStep(was, at);
        }
        UnwindContexts();
        croaked := Pop();
        if croaked {
          return;
        }
      }
      croaked := false;
    }

    /** What the code of the current level does to its stack and its contexts. */
    method Work(cells: seq<Cell>, sp: nat, cxix: int)
      requires Valid() && Event.Work(cells, sp, cxix).Valid()
      modifies this`sp, this`max, this`levels, curstackinfo`cxix, curstack`cells
      ensures Valid() && Outcome(Abs(), false) == Step(old(Abs()), Event.Work(cells, sp, cxix))
    {
      hide Linked;
      levels := levels[at := levels[at].(cells := cells, cxix := cxix)];
      curstack.cells := cells;
      curstackinfo.cxix := cxix;
      this.sp, max := sp, |cells| - 1;
      assert Holds();
    }

    method Perform(e: Event) returns (croaked: bool)
      requires Valid() && e.Valid()
      modifies this, chain, Stacks()
      ensures Valid() && Outcome(Abs(), croaked) == Step(old(Abs()), e)
      ensures old(chain) <= chain && fresh(set si | si in chain[|old(chain)|..])
      ensures fresh(set si | si in chain[|old(chain)|..] :: si.stack)
    {
      croaked := false;
      match e
      case Push(kind) => Push(kind);
      case Pop => croaked := Pop();
      case Work(cells, sp, cxix) => Work(cells, sp, cxix);
    }

    /** A run of events, up to its croak if it has one. */
    method Exec(es: seq<Event>) returns (croaked: bool)
      requires Valid() && ValidEvents(es)
      modifies this, chain, Stacks()
      ensures Valid() && Outcome(Abs(), croaked) == Run(old(Abs()), es)
      ensures old(chain) <= chain
    {
      hide Linked, Separate, Holds, State.Valid, Step;
      ghost var was := Abs();
      var i := 0;
      croaked := false;
      while i < |es|
        invariant i <= |es| && Valid() && !croaked && Run(was, es) == Run(Abs(), es[i..])
        invariant old(chain) <= chain && fresh(set si | si in chain[|old(chain)|..])
        invariant fresh(set si | si in chain[|old(chain)|..] :: si.stack)
      {
        assert es[i..][0] == es[i] && es[i..][1..] == es[i + 1..];
        croaked := Perform(es[i]);
        if croaked {
          return;
        }
        i := i + 1;
      }
    }
  }
}
