/** The close-on-exec strategies of doio.c: at its first success a call site finds out whether
    the kernel honours the flag given to an open, and acts on it from then on. */
module Cloexec {

  type Fd = nat

  datatype Strategy = Experiment | AtOpen | AfterOpen

  datatype Errno = EINVAL | ENOSYS | OtherError

  /** What the kernel makes of one system call. A successful call yields one descriptor, or two
      for a pipe; `honoured` tells which of them it marked close-on-exec. */
  datatype Attempt = Opened(fds: seq<Fd>, honoured: seq<bool>) | Failed(errno: Errno) {
    predicate Valid() {
      Opened? ==> (|fds| == 1 || (|fds| == 2 && fds[0] != fds[1])) && |honoured| == |fds|
    }

    predicate Unsupported() {
      Failed? && (errno == EINVAL || errno == ENOSYS)
    }
  }

  /** How the kernel answers one use of a call site: the open that asks for close-on-exec, the
      open that does not, and whether F_GETFD works on the first descriptor. */
  datatype Answers = Answers(flagged: Attempt, plain: Attempt, readable: bool) {
    predicate Valid() {
      && flagged.Valid() && plain.Valid()
      && (plain.Opened? ==> forall i :: 0 <= i < |plain.honoured| ==> !plain.honoured[i])
    }
  }

  /** The kernel refuses the flag, with one of the two errors that mean it does not know it. */
  predicate Rejects(k: Answers) {
    k.flagged == Failed(EINVAL) || k.flagged == Failed(ENOSYS)
  }

  // ----- What one use does -----

  /** The experiment shows the flag on the first descriptor. */
  predicate Shows(k: Answers)
    requires k.Valid()
  {
    k.flagged.Opened? && k.readable && k.flagged.honoured[0]
  }

  function NextStrategy(s: Strategy, k: Answers): Strategy
    requires k.Valid()
  {
    if s != Experiment then s
    else if k.flagged.Opened? then if Shows(k) then AtOpen else AfterOpen
    else if !k.flagged.Unsupported() || k.plain.Unsupported() then Experiment
    else AfterOpen
  }

  /** The open whose result is returned. */
  function Answer(s: Strategy, k: Answers): Attempt {
    if s == AfterOpen || (s == Experiment && k.flagged.Unsupported()) then k.plain else k.flagged
  }

  /** Which of the descriptors returned are close-on-exec. */
  function Marked(s: Strategy, k: Answers): (r: seq<bool>)
    requires k.Valid() && Answer(s, k).Opened?
    ensures |r| == |Answer(s, k).fds|
  {
    if NextStrategy(s, k) == AtOpen then Answer(s, k).honoured else seq(|Answer(s, k).fds|, _ => true)
  }

  /** Which system call sites there are: each has a strategy of its own. */
  datatype Site = Dup | Dup2 | Open | Open3 | Mkstemp | Pipe | Socket | Accept | Socketpair

  class Process {
    var strategy: map<Site, Strategy>
    /** The descriptors that have been opened, and whether they are close-on-exec. */
    var cloexec: map<Fd, bool>

    ghost predicate Valid()
      reads this
    {
      forall site: Site :: site in strategy
    }

    constructor ()
      ensures Valid() && cloexec == map[]
      ensures forall site :: site in strategy ==> strategy[site] == Experiment
    {
      strategy := map[Dup := Experiment, Dup2 := Experiment, Open := Experiment, Open3 := Experiment,
                      Mkstemp := Experiment, Pipe := Experiment, Socket := Experiment,
                      Accept := Experiment, Socketpair := Experiment];
      cloexec := map[];
      new;
      forall site: Site
        ensures site in strategy
      {
        match site
        case Dup => case Dup2 => case Open => case Open3 => case Mkstemp =>
        case Pipe => case Socket => case Accept => case Socketpair =>
      }
    }

    /** The descriptors of a system call that succeeded. */
    method Take(a: Attempt)
      requires a.Valid() && a.Opened?
      modifies this`cloexec
      ensures forall i :: 0 <= i < |a.fds| ==> a.fds[i] in cloexec && cloexec[a.fds[i]] == a.honoured[i]
      ensures forall fd :: fd !in a.fds ==>
                (fd in cloexec <==> fd in old(cloexec)) && (fd in cloexec ==> cloexec[fd] == old(cloexec)[fd])
    {
      cloexec := cloexec[a.fds[0] := a.honoured[0]];
      if |a.fds| == 2 {
        cloexec := cloexec[a.fds[1] := a.honoured[1]];
      }
    }

    /** setfd_cloexec of every descriptor. */
    method Mark(fds: seq<Fd>)
      requires |fds| == 1 || |fds| == 2
      modifies this`cloexec
      ensures forall fd <- fds :: fd in cloexec && cloexec[fd]
      ensures forall fd :: fd !in fds ==>
                (fd in cloexec <==> fd in old(cloexec)) && (fd in cloexec ==> cloexec[fd] == old(cloexec)[fd])
    {
      cloexec := cloexec[fds[0] := true];
      if |fds| == 2 {
        cloexec := cloexec[fds[1] := true];
      }
    }

    /** DO_GENOPEN_EXPERIMENTING_CLOEXEC */
    method GenOpen(site: Site, k: Answers) returns (res: Attempt)
      requires Valid() && k.Valid()
      modifies this
      ensures Valid() && res == Answer(old(strategy)[site], k)
      ensures strategy == old(strategy)[site := NextStrategy(old(strategy)[site], k)]
      ensures res.Opened? ==>
                && (forall i :: 0 <= i < |res.fds| ==>
                      res.fds[i] in cloexec && cloexec[res.fds[i]] == Marked(old(strategy)[site], k)[i])
                && (forall fd :: fd !in res.fds ==>
                      (fd in cloexec <==> fd in old(cloexec)) && (fd in cloexec ==> cloexec[fd] == old(cloexec)[fd]))
      ensures res.Failed? ==> cloexec == old(cloexec)
      ensures match old(strategy)[site]
              case Experiment => res == if Rejects(k) then k.plain else k.flagged
              case AtOpen => res == k.flagged && strategy == old(strategy)
              case AfterOpen => res == k.plain && strategy == old(strategy)
      ensures res.Opened? ==> strategy[site] != Experiment
    {
      match strategy[site]
      case Experiment =>
        res := k.flagged;
        if res.Opened? {
          Take(res);
          if k.readable && cloexec[res.fds[0]] {
            strategy := strategy[site := AtOpen];
          } else {
            strategy := strategy[site := AfterOpen];
            Mark(res.fds);
          }
        } else if res.errno == EINVAL || res.errno == ENOSYS {
          res := k.plain;
          if res.Opened? {
            Take(res);
            strategy := strategy[site := AfterOpen];
            Mark(res.fds);
          } else if !(res.errno == EINVAL || res.errno == ENOSYS) {
            strategy := strategy[site := AfterOpen];
          }
        }
      case AtOpen =>
        res := k.flagged;
        if res.Opened? {
          Take(res);
        }
      case AfterOpen =>
        res := k.plain;
        if res.Opened? {
          Take(res);
          Mark(res.fds);
        }
    }
  }

  // ----- Runs -----

  datatype Use = Use(site: Site, answers: Answers)

  /** A kernel that always honours the flag, or never does. */
  predicate Uniform(k: Answers, honours: bool)
    requires k.Valid()
  {
    k.flagged.Opened? ==> forall i :: 0 <= i < |k.flagged.honoured| ==> k.flagged.honoured[i] == honours
  }

  predicate AllUniform(run: seq<Use>, honours: bool)
    requires forall u <- run :: u.answers.Valid()
  {
    forall u <- run :: Uniform(u.answers, honours)
  }

  /** The strategy of a site after a run. */
  function StrategyAfter(run: seq<Use>, site: Site): Strategy
    requires forall u <- run :: u.answers.Valid()
  {
    if run == [] then Experiment else
    var u, s := run[|run| - 1], StrategyAfter(run[..|run| - 1], site);
    if u.site == site then NextStrategy(s, u.answers) else s
  }

  /** Exactly which descriptors are returned without being close-on-exec, whatever the kernel
      does: those whose flag the kernel ignores where the site relies on it, now or from this
      use on. */
  lemma UnmarkedExactly(s: Strategy, k: Answers, i: nat)
    requires k.Valid() && Answer(s, k).Opened? && i < |Answer(s, k).fds|
    ensures !Marked(s, k)[i] <==>
              && k.flagged.Opened? && i < |k.flagged.fds| && !k.flagged.honoured[i]
              && (s == AtOpen || (s == Experiment && Shows(k)))
  {
  }

  /** A site that has settled never changes its mind. */
  lemma {:induction false} SettledForGood(run: seq<Use>, more: seq<Use>, site: Site)
    requires forall u <- run + more :: u.answers.Valid()
    requires StrategyAfter(run, site) != Experiment
    ensures StrategyAfter(run + more, site) == StrategyAfter(run, site)
    decreases |more|
  {
    if more == [] {
      assert run + more == run;
    } else {
      var n := |more| - 1;
      assert (run + more)[..|run + more| - 1] == run + more[..n];
      SettledForGood(run, more[..n], site);
    }
  }

  /** Under a kernel that never honours the flag no site comes to rely on it. */
  lemma {:induction false} NeverRelied(run: seq<Use>, site: Site)
    requires forall u <- run :: u.answers.Valid() && Uniform(u.answers, false)
    ensures StrategyAfter(run, site) != AtOpen
  {
    if run != [] {
      NeverRelied(run[..|run| - 1], site);
    }
  }

  /** Under a uniform kernel every descriptor of every use in any run is close-on-exec, both
      ends of a pipe included. */
  lemma EveryDescriptorIsMarked(run: seq<Use>, honours: bool, n: nat, i: nat)
    requires (forall u <- run :: u.answers.Valid()) && AllUniform(run, honours)
    requires n < |run| && Answer(StrategyAfter(run[..n], run[n].site), run[n].answers).Opened?
    requires i < |Answer(StrategyAfter(run[..n], run[n].site), run[n].answers).fds|
    ensures Marked(StrategyAfter(run[..n], run[n].site), run[n].answers)[i]
  {
    var s, k := StrategyAfter(run[..n], run[n].site), run[n].answers;
    UnmarkedExactly(s, k, i);
    if !honours {
      NeverRelied(run[..n], run[n].site);
    }
  }

  /** What the `n`-th use of a run returns. */
  function Returned(run: seq<Use>, n: nat): Attempt
    requires n < |run| && forall u <- run :: u.answers.Valid()
  {
    Answer(StrategyAfter(run[..n], run[n].site), run[n].answers)
  }

  /** Under a kernel that never knows the flag every use returns what its open without the flag
      yields, so it fails only if that one fails. */
  lemma RejectedIsPlain(run: seq<Use>, n: nat)
    requires n < |run| && forall u <- run :: u.answers.Valid() && Rejects(u.answers)
    ensures Returned(run, n) == run[n].answers.plain
    ensures StrategyAfter(run[..n], run[n].site) != AtOpen
  {
    NotAtOpen(run[..n], run[n].site);
  }

  lemma {:induction false} NotAtOpen(run: seq<Use>, site: Site)
    requires forall u <- run :: u.answers.Valid() && Rejects(u.answers)
    ensures StrategyAfter(run, site) != AtOpen
  {
    if run != [] {
      NotAtOpen(run[..|run| - 1], site);
    }
  }

  /** In general a use that experiments fails exactly if the open with the flag fails for another
      reason, or both opens fail; a site that relies on the flag makes the one open, and a site that
      does not the other. */
  lemma FailsExactly(run: seq<Use>, n: nat)
    requires n < |run| && forall u <- run :: u.answers.Valid()
    ensures var s, k := StrategyAfter(run[..n], run[n].site), run[n].answers;
            Returned(run, n).Failed? <==>
              match s
              case Experiment => k.flagged.Failed? && (k.flagged.errno == OtherError || k.plain.Failed?)
              case AtOpen => k.flagged.Failed?
              case AfterOpen => k.plain.Failed?
  {
  }

  /** From its first success on a site does not experiment any more: it relies on the flag exactly
      if that was seen on the first descriptor of the open with the flag. Before it, only an open
      without the flag that fails for a third reason ends the experiment. */
  lemma SuccessSettles(run: seq<Use>, n: nat)
    requires n < |run| && forall u <- run :: u.answers.Valid()
    requires StrategyAfter(run[..n], run[n].site) == Experiment
    ensures var k := run[n].answers;
            StrategyAfter(run[..n + 1], run[n].site)
            == if Returned(run, n).Opened? then
                 if k.flagged.Opened? && k.readable && k.flagged.honoured[0] then AtOpen else AfterOpen
               else if Rejects(k) && k.plain.errno == OtherError then AfterOpen else Experiment
    ensures Returned(run, n).Opened? ==>
              StrategyAfter(run, run[n].site) == StrategyAfter(run[..n + 1], run[n].site) != Experiment
  {
    hide StrategyAfter;
    StrategyNext(run, n);
    if Returned(run, n).Opened? {
      SettledForGood(run[..n + 1], run[n + 1..], run[n].site);
      assert run[..n + 1] + run[n + 1..] == run;
    }
  }

  lemma StrategyNext(run: seq<Use>, n: nat)
    requires n < |run| && forall u <- run :: u.answers.Valid()
    ensures StrategyAfter(run[..n + 1], run[n].site)
         == NextStrategy(StrategyAfter(run[..n], run[n].site), run[n].answers)
  {
    hide NextStrategy;
    assert run[..n + 1][..n] == run[..n];
  }

  /** A use of a site leaves all other sites alone. */
  lemma OtherSites(run: seq<Use>, u: Use, site: Site)
    requires (forall u <- run :: u.answers.Valid()) && u.answers.Valid() && u.site != site
    requires forall u <- run + [u] :: u.answers.Valid()
    ensures StrategyAfter(run + [u], site) == StrategyAfter(run, site)
  {
    assert (run + [u])[..|run|] == run;
  }

  /** A process that runs. Under a uniform kernel everything it opened is close-on-exec at the end;
      under a kernel that does not know the flag every use has returned what the open without it
      yields; and in any case each use has returned what it should. */
  method Run(run: seq<Use>) returns (p: Process, results: seq<Attempt>)
    requires forall u <- run :: u.answers.Valid()
    ensures p.Valid() && forall site: Site :: p.strategy[site] == StrategyAfter(run, site)
    ensures |results| == |run| && forall n :: 0 <= n < |run| ==> results[n] == Returned(run, n)
    ensures forall honours :: AllUniform(run, honours) ==> forall fd <- p.cloexec :: p.cloexec[fd]
    ensures (forall u <- run :: Rejects(u.answers)) ==>
              forall n :: 0 <= n < |run| ==> results[n] == run[n].answers.plain
  {
    p := new Process();
    results := [];
    assert run[..0] == [];
    for n := 0 to |run|
      invariant p.Valid() && fresh(p)
      invariant forall site: Site :: p.strategy[site] == StrategyAfter(run[..n], site)
      invariant |results| == n && forall m :: 0 <= m < n ==> results[m] == Returned(run, m)
      invariant forall honours :: AllUniform(run, honours) ==> forall fd <- p.cloexec :: p.cloexec[fd]
    {
      ghost var s := p.strategy[run[n].site];
      var res := p.GenOpen(run[n].site, run[n].answers);
      results := results + [res];
      assert run[..n + 1][..n] == run[..n];
      if res.Opened? {
        forall i, honours | 0 <= i < |res.fds| && AllUniform(run, honours)
          ensures Marked(s, run[n].answers)[i]
        {
          EveryDescriptorIsMarked(run, honours, n, i);
        }
      }
    }
    assert run[..|run|] == run;
    forall n | 0 <= n < |run| && forall u <- run :: Rejects(u.answers)
      ensures results[n] == run[n].answers.plain
    {
      RejectedIsPlain(run, n);
    }
  }

  /** A kernel that changes its mind is not protected against: the first open settles the site,
      the second relies on it. */
  lemma InconsistentKernel()
    ensures var good := Answers(Opened([3], [true]), Failed(OtherError), true);
            var bad := Answers(Opened([4], [false]), Failed(OtherError), true);
            var run := [Use(Open, good), Use(Open, bad)];
            && (forall u <- run :: u.answers.Valid())
            && StrategyAfter(run[..1], Open) == AtOpen && !Marked(AtOpen, bad)[0]
  {
    var good := Answers(Opened([3], [true]), Failed(OtherError), true);
    var run := [Use(Open, good)];
    assert run[..0] == [];
    assert StrategyAfter(run, Open) == AtOpen;
    assert [Use(Open, good), Use(Open, Answers(Opened([4], [false]), Failed(OtherError), true))][..1] == run;
  }
}
