/** The chain of jump environments of cop.h in memory. */
module JmpEnv {
  import opened JmpEnvRuns

  /** struct jmpenv, an automatic variable of the function that pushes it. */
  class JMPENV {
    const id: nat
    var prev: JMPENV?
    var ret: int
    var mustcatch: bool
    var magic: nat
    ghost var place: nat

    constructor (id: nat)
      ensures this.id == id
    {
      this.id := id;
    }

    predicate Has(f: Frame)
      reads this`ret, this`mustcatch, this`magic
    {
      id == f.id && ret == f.ret && mustcatch == f.mustcatch && magic == f.magic
    }
  }

  class Interpreter {
    const startEnv: JMPENV
    var topEnv: JMPENV
    var delaymagic: nat

    ghost var chain: seq<JMPENV>
    ghost var frames: seq<Frame>

    ghost function Place(i: int): JMPENV?
      reads this`chain
    {
      if 0 <= i < |chain| then chain[i] else null
    }

    /** The chain leads down to PL_start_env, which alone has no predecessor. */
    ghost predicate Linked()
      reads this`chain, chain`prev, chain`place
    {
      && chain != [] && chain[0] == startEnv
      && (forall i :: 0 <= i < |chain| ==> chain[i].place == i)
      && (forall i {:trigger chain[i].prev} :: 0 <= i < |chain| ==> chain[i].prev == Place(i - 1))
    }

    ghost predicate Holds(n: nat)
      requires n <= |chain|
      reads this`chain, this`frames, chain`ret, chain`mustcatch, chain`magic
    {
      |frames| == |chain| && forall i :: 0 <= i < n ==> chain[i].Has(frames[i])
    }

    /** The chain begins at PL_top_env. */
    ghost predicate Valid()
      reads this, chain
      ensures Valid() ==> Abs().Valid()
    {
      Linked() && Holds(|chain|) && topEnv == chain[|chain| - 1]
    }

    ghost function Abs(): State
      reads this
    {
      State(frames, delaymagic)
    }

    /** JMPENV_BOOTSTRAP */
    constructor (start: JMPENV, magic: nat)
      modifies start
      ensures Valid() && startEnv == start && chain == [start] && Abs() == Bootstrap(start.id, magic)
      ensures topEnv == start && start.prev == null && start.ret == -1 && start.mustcatch && start.magic == 0
      ensures delaymagic == magic
    {
      startEnv, topEnv, delaymagic := start, start, magic;
      chain, frames := [start], Bootstrap(start.id, magic).frames;
      new;
      start.prev, start.ret, start.mustcatch, start.magic, start.place := null, -1, true, 0, 0;
    }

    /** The part of JMPENV_PUSH behind its setjmp, which `env` reaches once when it is pushed
        and once more for each jump that ends there. */
    method Return(env: JMPENV, v: int) returns (r: int)
      requires Linked() && env == chain[|chain| - 1] && Holds(|chain| - 1)
      modifies this`topEnv, this`frames, env`ret, env`mustcatch, env`magic
      ensures Valid() && topEnv == env && r == env.ret == v && !env.mustcatch && env.magic == delaymagic
      ensures Abs() == Landed(old(frames)[..|chain| - 1], env.id, v, delaymagic)
    {
      assert forall i :: 0 <= i < |chain| - 1 ==> chain[i] != env;
      hide Linked;
      env.ret := v;
      topEnv := env;
      env.mustcatch := false;
      env.magic := delaymagic;
      r := env.ret;
      frames := frames[..|chain| - 1] + [Frame(env.id, v, false, delaymagic)];
      assert Holds(|chain|);
    }

    /** JMPENV_PUSH, its first time through: `curEnv` is not in use. */
    method Push(curEnv: JMPENV) returns (r: int)
      requires Valid() && curEnv !in chain
      modifies this`topEnv, this`frames, this`chain, curEnv
      ensures Valid() && chain == old(chain) + [curEnv] && topEnv == curEnv && curEnv.prev == old(topEnv)
      ensures r == curEnv.ret == 0 && !curEnv.mustcatch && curEnv.magic == delaymagic
      ensures Going(Abs()) == Step(old(Abs()), Event.Push(curEnv.id), 0)
    {
      curEnv.prev := topEnv;
      curEnv.place := |chain|;
      chain := chain + [curEnv];
      frames := frames + [Frame(curEnv.id, 0, false, 0)];
      r := Return(curEnv, 0);
    }

    /** JMPENV_POP by the function that has pushed `curEnv`. */
    method Pop(curEnv: JMPENV)
      requires Valid() && |chain| > 1 && curEnv == topEnv
      modifies this`topEnv, this`delaymagic, this`frames, this`chain
      ensures Valid() && chain == old(chain)[..|old(chain)| - 1]
      ensures topEnv == curEnv.prev && delaymagic == curEnv.magic
      ensures Going(Abs()) == Step(old(Abs()), Event.Pop, 0)
    {
      delaymagic := curEnv.magic;
      topEnv := curEnv.prev;
      chain, frames := chain[..|chain| - 1], frames[..|frames| - 1];
    }

    /** JMPENV_JUMP: the environment whose setjmp returns, and with what; or the status with
        which the program ends. */
    method Jump(v: int, statusExit: int) returns (env: JMPENV?, r: int)
      requires Valid()
      modifies this`topEnv, this`frames, topEnv`ret, topEnv`mustcatch, topEnv`magic
      ensures Valid() && chain == old(chain) && topEnv == old(topEnv)
      ensures env == null <==> topEnv == startEnv
      ensures if env == null then r == if v == 2 then statusExit else 1
              else env == topEnv && r == env.ret == (if v == 0 then 1 else v) && !env.mustcatch
                   && env.magic == delaymagic
      ensures (if env == null then Outcome.Exit(r) else Going(Abs())) == Step(old(Abs()), Event.Jump(v), statusExit)
      ensures env == null ==> Abs() == old(Abs())
    {
      if topEnv.prev != null {
        env := topEnv;
        r := Return(topEnv, Thrown(v));
      } else if v == 2 {
        env, r := null, statusExit;
      } else {
        env, r := null, 1;
      }
    }

    /** CATCH_SET */
    method CatchSet(on: bool)
      requires Valid()
      modifies this`frames, topEnv`mustcatch
      ensures Valid() && topEnv.mustcatch == on && Going(Abs()) == Step(old(Abs()), Event.CatchSet(on), 0)
    {
      topEnv.mustcatch := on;
      frames := Abs().Below() + [Abs().Top().(mustcatch := on)];
    }

    /** One event; the status if the program has ended. */
    method Perform(e: Event, statusExit: int) returns (ended: bool, status: int)
      requires Valid() && (e.Pop? ==> |frames| > 1)
      modifies this, chain
      ensures ended || Valid()
      ensures (if ended then Outcome.Exit(status) else Going(Abs())) == Step(old(Abs()), e, statusExit)
      ensures fresh(set env | env in chain && env !in old(chain))
    {
      ended, status := false, 0;
      match e {
        case Push(id) =>
          var curEnv := new JMPENV(id);
          var ret := Push(curEnv);
        case Pop => Pop(topEnv);
        case Jump(v) =>
          var env, ret := Jump(v, statusExit);
          ended, status := env == null, ret;
        case CatchSet(on) => CatchSet(on);
        case Magic(d) =>
          delaymagic := d;
          assert Holds(|chain|);
      }
    }

    /** A run of events, up to the end of the program if that comes first. */
    method Exec(es: seq<Event>, statusExit: int) returns (ended: bool, status: int)
      requires Valid() && Dip(es) < |frames|
      modifies this, chain
      ensures (if ended then Outcome.Exit(status) else Going(Abs())) == Run(old(Abs()), es, statusExit)
      ensures ended || Valid()
    {
      hide Linked, Holds;
      ghost var was := Abs();
      var i := 0;
      ended, status := false, 0;
      while i < |es|
        invariant i <= |es| && Valid() && !ended && Dip(es[i..]) < |frames|
        invariant Run(was, es, statusExit) == Run(Abs(), es[i..], statusExit)
        invariant fresh(set env | env in chain && env !in old(chain))
      {
        assert es[i..][0] == es[i] && es[i..][1..] == es[i + 1..];
        if Step(Abs(), es[i], statusExit).Going? {
          StepIds(Abs(), es[i], statusExit);
        }
        ended, status := Perform(es[i], statusExit);
        if ended {
          return;
        }
        i := i + 1;
      }
    }
  }
}
