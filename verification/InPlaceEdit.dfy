/** The end of an in-place edit in doio.c: the work file takes the place of the original, which
    is kept under a backup name if one was asked for. Any system call may fail, and forked
    children that have inherited the handle may close it at any time. */
module InPlaceEdit {
  import opened Common

  type Name = string
  type Inode = nat
  type Contents = seq<int>

  /** How a system call turns out if the file system has no objection of its own. */
  datatype Reply = Ok | Fails(supported: bool)

  /** One edit: the names, the complete contents before and after, and the process it is up to. */
  datatype Edit = Edit(orig: Name, back: Option<Name>, temp: Name, was: Contents, now: Contents, pid: nat) {
    predicate Valid() {
      orig != temp && (back.Some? ==> back.value != orig && back.value != temp)
    }
  }

  /** A process that holds the handle of the work file: what it has printed and not flushed, how
      its close turns out, and how much a close that fails has written. */
  datatype Process = Process(pid: nat, pending: Contents, close: Reply, partial: nat) {
    function Written(): Contents {
      if close.Ok? || partial > |pending| then pending else pending[..partial]
    }
  }

  /** What processes write that close the handle one after the other. */
  function Bytes(ps: seq<Process>): Contents {
    if ps == [] then [] else ps[0].Written() + Bytes(ps[1..])
  }

  function AllBytes(batches: seq<seq<Process>>): Contents {
    if batches == [] then [] else Bytes(batches[0]) + AllBytes(batches[1..])
  }

  // ----- The file system -----

  type Names = map<Name, Inode>
  type Data = map<Inode, Contents>
  type View = map<Name, Contents>

  /** What can be seen under each name. */
  ghost function Seen(names: Names, data: Data): View {
    map n | n in names && names[n] in data :: data[names[n]]
  }

  class FileSystem {
    var names: Names
    var data: Data
    /** The schedule: which children close the handle before the next system call of the process
        that the edit is up to. */
    var waiting: seq<seq<Process>>
    /** What children have written to the work file. */
    ghost var stray: Contents
    /** What could be seen after each system call. */
    ghost var history: seq<View>

    ghost function Now(): View
      reads this`names, this`data
    {
      Seen(names, data)
    }

    /** link(): fails if there is no such file, or the new name exists. */
    method Link(from: Name, to: Name, reply: Reply) returns (r: Reply)
      modifies this`names, this`history
      ensures history == old(history) + [Now()]
      ensures r == if reply.Ok? && (from !in old(names) || to in old(names)) then Fails(true) else reply
      ensures names == if r.Ok? then old(names)[to := old(names)[from]] else old(names)
    {
      r := if reply.Ok? && (from !in names || to in names) then Fails(true) else reply;
      if r.Ok? {
        names := names[to := names[from]];
      }
      history := history + [Now()];
    }

    /** rename(): atomic; it does nothing if both names are the same file already. */
    method Rename(from: Name, to: Name, reply: Reply) returns (r: Reply)
      requires from != to
      modifies this`names, this`history
      ensures history == old(history) + [Now()]
      ensures r == if reply.Ok? && from !in old(names) then Fails(true) else reply
      ensures names == if r.Fails? || (to in old(names) && old(names)[to] == old(names)[from]) then old(names)
                       else old(names)[to := old(names)[from]] - {from}
    {
      r := if reply.Ok? && from !in names then Fails(true) else reply;
      if r.Ok? && !(to in names && names[to] == names[from]) {
        names := names[to := names[from]] - {from};
      }
      history := history + [Now()];
    }

    method Unlink(name: Name, reply: Reply) returns (r: Reply)
      modifies this`names, this`history
      ensures history == old(history) + [Now()]
      ensures r == if reply.Ok? && name !in old(names) then Fails(true) else reply
      ensures names == if r.Ok? then old(names) - {name} else old(names)
    {
      r := if reply.Ok? && name !in names then Fails(true) else reply;
      if r.Ok? {
        names := names - {name};
      }
      history := history + [Now()];
    }

    /** write() at the end of what has been written: all processes share the file's offset. */
    method Write(file: Inode, bytes: Contents, ghost byChild: bool)
      requires file in data
      modifies this`data, this`history, this`stray
      ensures history == old(history) + [Now()]
      ensures data == old(data)[file := old(data)[file] + bytes]
      ensures stray == if byChild then old(stray) + bytes else old(stray)
    {
      data := data[file := data[file] + bytes];
      history := history + [Now()];
      if byChild {
        stray := stray + bytes;
      }
    }
  }

  // ----- Safety -----

  ghost predicate Has(v: View, n: Name, c: Contents) {
    n in v && v[n] == c
  }

  ghost predicate OldKept(v: View, e: Edit) {
    Has(v, e.orig, e.was) || (e.back.Some? && Has(v, e.back.value, e.was))
  }

  ghost predicate NewInPlace(v: View, e: Edit) {
    Has(v, e.orig, e.now) && (e.back.Some? ==> Has(v, e.back.value, e.was))
  }

  /** Whatever happens next, nothing is lost. */
  ghost predicate Safe(v: View, e: Edit) {
    OldKept(v, e) || NewInPlace(v, e)
  }

  ghost predicate SafeSince(views: seq<View>, n: nat, e: Edit) {
    forall i :: n <= i < |views| ==> Safe(views[i], e)
  }

  /** The work file holds `own`, and what children have written somewhere between. */
  ghost predicate Holds(data: Data, stray: Contents, work: Inode, own: Contents) {
    && work in data && |data[work]| == |own| + |stray|
    && (stray == [] ==> data[work] == own)
  }

  /** The work file is the original now, and the old one is the backup if that was asked for. */
  ghost predicate Finished(names: Names, data: Data, e: Edit, work: Inode) {
    && e.orig in names && names[e.orig] == work && e.temp !in names
    && (e.back.Some? ==>
          e.back.value in names && names[e.back.value] != work && Has(Seen(names, data), e.back.value, e.was))
  }

  /** The work file has no name but its own, if that, and the old contents have a name. */
  ghost predicate Unfinished(names: Names, data: Data, e: Edit, work: Inode) {
    && (forall n :: n in names && n != e.temp ==> names[n] != work)
    && OldKept(Seen(names, data), e)
  }

  /** Every process that waits is a child. */
  ghost predicate Children(batches: seq<seq<Process>>, e: Edit) {
    forall i, k :: 0 <= i < |batches| && 0 <= k < |batches[i]| ==> batches[i][k].pid != e.pid
  }

  ghost predicate OtherNames(m0: Names, m: Names, e: Edit) {
    forall n :: n != e.orig && n != e.temp && e.back != Some(n) ==>
      (n in m <==> n in m0) && (n in m ==> m[n] == m0[n])
  }

  ghost predicate OtherData(d0: Data, d: Data, work: Inode) {
    forall f :: f != work ==> (f in d <==> f in d0) && (f in d ==> d[f] == d0[f])
  }

  /** Nothing but the three names of the edit and the contents of the work file has changed. */
  twostate predicate OthersKept(fs: FileSystem, e: Edit, work: Inode)
    reads fs
  {
    OtherNames(old(fs.names), fs.names, e) && OtherData(old(fs.data), fs.data, work)
  }

  /** Besides, the views are those before and more, and what children have yet to write is what
      they had, less what they have written. */
  twostate predicate Went(fs: FileSystem, e: Edit, work: Inode)
    reads fs
  {
    && OthersKept(fs, e, work) && old(fs.history) <= fs.history
    && fs.stray + AllBytes(fs.waiting) == old(fs.stray + AllBytes(fs.waiting))
  }

  // ----- The invariant -----

  /** Unless the edit is finished without a backup and a child has written to the work file, all
      that could be seen is safe. */
  ghost predicate Fine(history: seq<View>, stray: Contents, e: Edit, n: nat, done: bool) {
    !done || e.back.Some? || stray == [] ==> SafeSince(history, n, e)
  }

  /** The edit has not been committed, or it has. */
  ghost predicate Phase(names: Names, data: Data, e: Edit, work: Inode, own: Contents, done: bool) {
    if done then Finished(names, data, e, work) && own == e.now else Unfinished(names, data, e, work)
  }

  /** What holds between any two system calls, from the `n`-th on. */
  ghost predicate Going(fs: FileSystem, e: Edit, work: Inode, own: Contents, n: nat, done: bool)
    reads fs
  {
    && e.Valid() && Children(fs.waiting, e) && Holds(fs.data, fs.stray, work, own)
    && Phase(fs.names, fs.data, e, work, own, done) && Fine(fs.history, fs.stray, e, n, done)
  }

  /** The process that the edit is up to has not begun to commit it. */
  ghost predicate Editing(fs: FileSystem, e: Edit, work: Inode)
    reads fs
  {
    e.temp in fs.names && fs.names[e.temp] == work && Has(fs.Now(), e.orig, e.was)
  }

  /** A write to the work file leaves all other files as they are. */
  lemma WriteKeeps(names: Names, data: Data, e: Edit, work: Inode, own: Contents, done: bool, bytes: Contents)
    requires e.Valid() && Phase(names, data, e, work, own, done) && work in data
    ensures var d := data[work := data[work] + bytes];
            && Phase(names, d, e, work, own, done)
            && (Has(Seen(names, data), e.orig, e.was) && !done ==> Has(Seen(names, d), e.orig, e.was))
  {
  }

  /** In either phase nothing is lost, unless a child has spoilt the only copy. */
  lemma PhaseIsSafe(names: Names, data: Data, stray: Contents, e: Edit, work: Inode, own: Contents, done: bool)
    requires Phase(names, data, e, work, own, done) && Holds(data, stray, work, own)
    ensures !done || e.back.Some? || stray == [] ==> Safe(Seen(names, data), e)
  {
  }

  /** One more view. */
  lemma FineNext(history: seq<View>, was: Contents, stray: Contents, e: Edit, n: nat, before: bool, done: bool, v: View)
    requires Fine(history, was, e, n, before) && (before ==> done) && (stray == [] ==> was == [])
    requires !done || e.back.Some? || stray == [] ==> Safe(v, e)
    ensures Fine(history + [v], stray, e, n, done)
  {
    hide Safe;
  }

  // ----- What the calls do to the names -----

  lemma Linked(names: Names, data: Data, e: Edit, work: Inode, to: Name)
    requires e.Valid() && Unfinished(names, data, e, work) && e.back == Some(to) && to !in names
    requires e.orig in names && Has(Seen(names, data), e.orig, e.was)
    ensures var m := names[to := names[e.orig]];
            Unfinished(m, data, e, work) && Has(Seen(m, data), e.orig, e.was) && Has(Seen(m, data), to, e.was)
  {
  }

  lemma RenamedBack(names: Names, data: Data, e: Edit, work: Inode, to: Name)
    requires e.Valid() && Unfinished(names, data, e, work) && e.back == Some(to)
    requires e.orig in names && Has(Seen(names, data), e.orig, e.was)
    ensures var m := if to in names && names[to] == names[e.orig] then names else names[to := names[e.orig]] - {e.orig};
            Unfinished(m, data, e, work) && Has(Seen(m, data), to, e.was)
  {
  }

  lemma RenamedOver(names: Names, data: Data, e: Edit, work: Inode)
    requires e.Valid() && Unfinished(names, data, e, work) && e.temp in names && names[e.temp] == work
    requires e.back.Some? ==> Has(Seen(names, data), e.back.value, e.was)
    ensures !(e.orig in names && names[e.orig] == names[e.temp])
    ensures Finished(names[e.orig := names[e.temp]] - {e.temp}, data, e, work)
  {
  }

  lemma Unlinked(names: Names, data: Data, e: Edit, work: Inode)
    requires e.Valid() && Unfinished(names, data, e, work)
    ensures Unfinished(names - {e.temp}, data, e, work)
  {
    hide Has;
    assert Has(Seen(names - {e.temp}, data), e.orig, e.was) == Has(Seen(names, data), e.orig, e.was) by {
      SeenWithout(names, data, e.temp, e.orig, e.was);
    }
    if e.back.Some? {
      SeenWithout(names, data, e.temp, e.back.value, e.was);
    }
  }

  lemma SeenWithout(names: Names, data: Data, gone: Name, n: Name, c: Contents)
    requires n != gone
    ensures Has(Seen(names - {gone}, data), n, c) == Has(Seen(names, data), n, c)
  {
  }

  // ----- The commit -----

  /** How every system call of one commit turns out, but the close. */
  datatype Replies = Replies(linkat: Reply, link: Reply, renameatBack: Reply, renameBack: Reply,
                             renameat: Reply, rename: Reply, unlinkat: Reply, unlink: Reply)

  datatype Outcome = Success | Failure | Croaked

  /** Whether a call relative to a directory takes effect, or the plain call in its place if the
      former is not supported. `legal` tells whether the file system has no objection. */
  predicate Works(at: Reply, plain: Reply, legal: bool) {
    if at.Ok? then legal else !at.supported && plain.Ok? && legal
  }

  /** The original gets the backup name, linked or else renamed. */
  predicate BackupWorks(names: Names, e: Edit, k: Replies) {
    && e.back.Some?
    && (Works(k.linkat, k.link, e.orig in names && e.back.value !in names)
        || Works(k.renameatBack, k.renameBack, e.orig in names))
  }

  /** Every call that the commit depends on takes effect. */
  predicate Succeeds(names: Names, e: Edit, close: Reply, k: Replies) {
    close.Ok? && (e.back.Some? ==> BackupWorks(names, e, k)) && Works(k.renameat, k.rename, true)
  }

  /** The work file can be removed: by the plain call of the label abort_inplace, or else by the
      call relative to the directory. */
  predicate Removes(abort: bool, k: Replies) {
    if abort then k.unlink.Ok? else Works(k.unlinkat, k.unlink, true)
  }

  /** When a commit succeeds, told from the replies alone: the handle is closed; the work file is
      renamed by the call relative to the directory, or by the plain one where the former is not
      supported; and if a backup was asked for, the original can be linked to a name that is free, or
      be renamed to it, by either kind of call. */
  lemma SucceedsExactly(names: Names, e: Edit, close: Reply, k: Replies)
    ensures Succeeds(names, e, close, k) <==>
              && close == Ok
              && (k.renameat == Ok || (k.renameat == Fails(false) && k.rename == Ok))
              && (e.back == None
                  || (e.orig in names
                      && ((e.back.value !in names && (k.linkat == Ok || (k.linkat == Fails(false) && k.link == Ok)))
                          || k.renameatBack == Ok || (k.renameatBack == Fails(false) && k.renameBack == Ok))))
    ensures Removes(true, k) <==> k.unlink == Ok
    ensures Removes(false, k) <==> k.unlinkat == Ok || (k.unlinkat == Fails(false) && k.unlink == Ok)
  {
  }

  /** What a close writes: everything that was pending if it succeeds, and otherwise so many elements
      of it as it came to. */
  lemma WrittenIs(p: Process)
    ensures p.Written() <= p.pending
    ensures |p.Written()| == if p.close == Ok || p.partial > |p.pending| then |p.pending| else p.partial
  {
  }

  /** argvout_final, as every process runs it that closes the handle: only the one that the edit
      is up to goes beyond the close. `notImplicit` is false if the close was implied by the next
      open; a failure of the commit croaks then. */
  method ArgvoutFinal(fs: FileSystem, e: Edit, work: Inode, p: Process, notImplicit: bool, k: Replies,
                      ghost own: Contents, ghost n: nat, ghost done: bool) returns (r: Outcome)
    requires Going(fs, e, work, own, n, done)
    requires p.pid == e.pid ==> !done && Editing(fs, e, work) && own + p.pending == e.now
    modifies fs
    ensures Going(fs, e, work, own + (if p.pid == e.pid then p.Written() else []), n,
                  if p.pid == e.pid then r.Success? else done)
    ensures old(fs.history) < fs.history && fs.history[|fs.history| - 1] == fs.Now()
    ensures p.pid != e.pid ==>
              && OthersKept(fs, e, work) && r == (if p.close.Ok? then Success else Failure)
              && fs.names == old(fs.names) && fs.waiting == old(fs.waiting) && fs.stray == old(fs.stray) + p.Written()
              && (old(Editing(fs, e, work)) && !done ==> Editing(fs, e, work))
    ensures p.pid == e.pid ==>
              && Went(fs, e, work)
              && r == (if Succeeds(old(fs.names), e, p.close, k) then Success
                       else if notImplicit then Failure else Croaked)
              && (!r.Success? ==> (e.temp in fs.names <==> !Removes(p.close.Ok? && notImplicit, k)))
    decreases if p.pid == e.pid then 10 else 0
  {
    hide Going, BackupWorks, Works, Removes, Process.Written, AllBytes, Seen;
    Close(fs, e, work, p, own, n, done);
    if p.pid != e.pid {
      return if p.close.Ok? then Success else Failure;
    }
    r := if notImplicit then Failure else Croaked;
    if p.close.Fails? {
      Discard(fs, e, work, false, k, own + p.Written(), n);
    } else {
      assert p.Written() == p.pending by {
        AllWritten(p);
      }
      var installed := Replace(fs, e, work, notImplicit, k, n);
      if installed {
        r := Success;
      }
    }
  }

  lemma AllWritten(p: Process)
    requires p.close.Ok?
    ensures p.Written() == p.pending
  {
  }

  /** io_close: what the process has not flushed is written. */
  method Close(fs: FileSystem, e: Edit, work: Inode, p: Process, ghost own: Contents, ghost n: nat, ghost done: bool)
    requires Going(fs, e, work, own, n, done) && (p.pid == e.pid ==> !done)
    modifies fs
    ensures Going(fs, e, work, own + (if p.pid == e.pid then p.Written() else []), n, done)
    ensures OthersKept(fs, e, work) && fs.history == old(fs.history) + [fs.Now()]
    ensures fs.names == old(fs.names) && fs.waiting == old(fs.waiting)
    ensures fs.stray == old(fs.stray) + (if p.pid == e.pid then [] else p.Written())
    ensures old(Editing(fs, e, work)) && !done ==> Editing(fs, e, work)
  {
    ghost var after := own + (if p.pid == e.pid then p.Written() else []);
    WriteKeeps(fs.names, fs.data, e, work, own, done, p.Written());
    ghost var h, was := fs.history, fs.stray;
    assert done ==> after == own;
    hide Phase, SafeSince, Safe, Children, Process.Written, OldKept, NewInPlace;
    fs.Write(work, p.Written(), p.pid != e.pid);
    PhaseStays(fs.names, fs.data, e, work, own, after, done);
    PhaseIsSafe(fs.names, fs.data, fs.stray, e, work, after, done);
    FineNext(h, was, fs.stray, e, n, done, done, fs.Now());
  }

  /** How much of the work file is the commit's own does not matter before it is complete. */
  lemma PhaseStays(names: Names, data: Data, e: Edit, work: Inode, own: Contents, after: Contents, done: bool)
    requires Phase(names, data, e, work, own, done) && (done ==> after == own)
    ensures Phase(names, data, e, work, after, done)
  {
  }

  /** The children run that the schedule lets run now. */
  method Others(fs: FileSystem, e: Edit, work: Inode, ghost own: Contents, ghost n: nat, ghost done: bool)
    requires Going(fs, e, work, own, n, done)
    modifies fs
    ensures Going(fs, e, work, own, n, done) && Went(fs, e, work) && fs.names == old(fs.names)
    ensures if fs.history == old(fs.history) then fs.data == old(fs.data) else fs.history[|fs.history| - 1] == fs.Now()
    ensures fs.waiting == if old(fs.waiting) == [] then [] else old(fs.waiting)[1..]
    ensures old(Editing(fs, e, work)) && !done ==> Editing(fs, e, work)
    decreases 5
  {
    if fs.waiting == [] {
      return;
    }
    var batch := fs.waiting[0];
    fs.waiting := fs.waiting[1..];
    RunBatch(fs, e, work, batch, own, n, done);
    BatchTaken(old(fs.stray), old(fs.waiting));
  }

  lemma BatchTaken(stray: Contents, waiting: seq<seq<Process>>)
    requires waiting != []
    ensures stray + Bytes(waiting[0]) + AllBytes(waiting[1..]) == stray + AllBytes(waiting)
  {
    hide Bytes;
    assert AllBytes(waiting) == Bytes(waiting[0]) + AllBytes(waiting[1..]);
  }

  method RunBatch(fs: FileSystem, e: Edit, work: Inode, batch: seq<Process>,
                  ghost own: Contents, ghost n: nat, ghost done: bool)
    requires Going(fs, e, work, own, n, done) && forall i :: 0 <= i < |batch| ==> batch[i].pid != e.pid
    modifies fs
    ensures Going(fs, e, work, own, n, done) && OthersKept(fs, e, work)
    ensures fs.names == old(fs.names) && fs.waiting == old(fs.waiting) && old(fs.history) <= fs.history
    ensures if fs.history == old(fs.history) then fs.data == old(fs.data) else fs.history[|fs.history| - 1] == fs.Now()
    ensures fs.stray == old(fs.stray) + Bytes(batch)
    ensures old(Editing(fs, e, work)) && !done ==> Editing(fs, e, work)
    decreases 4
  {
    hide Going, Seen, Editing, AllBytes, Process.Written, Succeeds, Removes, Bytes;
    ghost var was := fs.stray;
    ghost var editing := Editing(fs, e, work);
    BytesAtEnds(batch);
    for i := 0 to |batch|
      invariant Going(fs, e, work, own, n, done) && OthersKept(fs, e, work)
      invariant fs.names == old(fs.names) && fs.waiting == old(fs.waiting) && old(fs.history) <= fs.history
      invariant if fs.history == old(fs.history) then fs.data == old(fs.data)
                else fs.history[|fs.history| - 1] == fs.Now()
      invariant fs.stray + Bytes(batch[i..]) == was + Bytes(batch)
      invariant editing && !done ==> Editing(fs, e, work)
    {
      BytesFrom(fs.stray, batch, i);
      assert own + [] == own;
      var r := ArgvoutFinal(fs, e, work, batch[i], true, NO_REPLIES, own, n, done);
    }
  }

  lemma BytesAtEnds(batch: seq<Process>)
    ensures Bytes(batch[0..]) == Bytes(batch) && Bytes(batch[|batch|..]) == []
  {
    assert batch[0..] == batch;
  }

  lemma BytesFrom(stray: Contents, batch: seq<Process>, i: nat)
    requires i < |batch|
    ensures stray + batch[i].Written() + Bytes(batch[i + 1..]) == stray + Bytes(batch[i..])
  {
    assert batch[i..][1..] == batch[i + 1..];
  }

  /** A child makes none of these calls. */
  const NO_REPLIES := Replies(Ok, Ok, Ok, Ok, Ok, Ok, Ok, Ok)

  /** The invariant after a call that has changed names at most. */
  lemma GoesOn(fs: FileSystem, e: Edit, work: Inode, own: Contents, n: nat, done: bool, h: seq<View>)
    requires e.Valid() && Children(fs.waiting, e) && Holds(fs.data, fs.stray, work, own)
    requires Phase(fs.names, fs.data, e, work, own, done)
    requires Fine(h, fs.stray, e, n, false) && fs.history == h + [fs.Now()]
    ensures Going(fs, e, work, own, n, done)
  {
    PhaseIsSafe(fs.names, fs.data, fs.stray, e, work, own, done);
    FineNext(h, fs.stray, fs.stray, e, n, false, done, fs.Now());
  }

  method LinkOnce(fs: FileSystem, e: Edit, work: Inode, to: Name, reply: Reply,
                  ghost own: Contents, ghost n: nat) returns (r: Reply)
    requires Going(fs, e, work, own, n, false) && Editing(fs, e, work) && e.back == Some(to)
    modifies fs
    ensures Going(fs, e, work, own, n, false) && Editing(fs, e, work) && Went(fs, e, work)
    ensures r == if reply.Ok? && (e.orig !in old(fs.names) || to in old(fs.names)) then Fails(true) else reply
    ensures fs.names == if r.Ok? then old(fs.names)[to := old(fs.names)[e.orig]] else old(fs.names)
    ensures r.Ok? ==> Has(fs.Now(), to, e.was)
    ensures old(fs.history) < fs.history && fs.history[|fs.history| - 1] == fs.Now()
    decreases 6
  {
    Others(fs, e, work, own, n, false);
    hide Holds, SafeSince, Children, Unfinished, AllBytes;
    ghost var h := fs.history;
    if e.orig in fs.names && to !in fs.names {
      Linked(fs.names, fs.data, e, work, to);
    }
    r := fs.Link(e.orig, to, reply);
    GoesOn(fs, e, work, own, n, false, h);
  }

  /** What a rename from `from` needs to keep the old contents, and what it gives. */
  ghost predicate MayRename(fs: FileSystem, e: Edit, work: Inode, own: Contents, from: Name, to: Name)
    reads fs
  {
    if from == e.orig then e.back == Some(to) && Editing(fs, e, work)
    else
      && from == e.temp && to == e.orig && own == e.now && e.temp in fs.names && fs.names[e.temp] == work
      && (e.back.Some? ==> Has(fs.Now(), e.back.value, e.was))
  }

  method RenameOnce(fs: FileSystem, e: Edit, work: Inode, from: Name, to: Name, reply: Reply,
                    ghost own: Contents, ghost n: nat) returns (r: Reply)
    requires Going(fs, e, work, own, n, false) && from != to && MayRename(fs, e, work, own, from, to)
    modifies fs
    ensures Going(fs, e, work, own, n, r.Ok? && from == e.temp) && Went(fs, e, work)
    ensures r == if reply.Ok? && from !in old(fs.names) then Fails(true) else reply
    ensures fs.names == if r.Fails? || (to in old(fs.names) && old(fs.names)[to] == old(fs.names)[from])
                        then old(fs.names) else old(fs.names)[to := old(fs.names)[from]] - {from}
    ensures r.Fails? ==> MayRename(fs, e, work, own, from, to)
    ensures r.Ok? && from == e.orig ==> Has(fs.Now(), to, e.was)
    ensures old(fs.history) < fs.history && fs.history[|fs.history| - 1] == fs.Now()
    decreases 6
  {
    OthersLet(fs, e, work, own, n, from, to);
    hide Holds, SafeSince, Children, AllBytes;
    ghost var h := fs.history;
    if from == e.orig {
      RenamedBack(fs.names, fs.data, e, work, to);
    } else {
      RenamedOver(fs.names, fs.data, e, work);
    }
    OnlyOwnNames(fs.names, e, from, to);
    hide Unfinished, Finished, Seen, OtherNames, OtherData;
    r := fs.Rename(from, to, reply);
    GoesOn(fs, e, work, own, n, r.Ok? && from == e.temp, h);
  }

  lemma OnlyOwnNames(names: Names, e: Edit, from: Name, to: Name)
    requires from in {e.orig, e.temp} && (to == e.orig || e.back == Some(to))
    ensures OtherNames(names, names, e)
    ensures from in names ==> OtherNames(names, names[to := names[from]] - {from}, e)
  {
  }

  /** The children that run do not stand in the way of a rename. */
  method OthersLet(fs: FileSystem, e: Edit, work: Inode, ghost own: Contents, ghost n: nat, ghost from: Name,
                   ghost to: Name)
    requires Going(fs, e, work, own, n, false) && MayRename(fs, e, work, own, from, to)
    modifies fs
    ensures Going(fs, e, work, own, n, false) && Went(fs, e, work) && fs.names == old(fs.names)
    ensures MayRename(fs, e, work, own, from, to)
    decreases 6, 0
  {
    Others(fs, e, work, own, n, false);
  }

  method UnlinkOnce(fs: FileSystem, e: Edit, work: Inode, reply: Reply, ghost own: Contents, ghost n: nat)
      returns (r: Reply)
    requires Going(fs, e, work, own, n, false) && e.temp in fs.names
    modifies fs
    ensures Going(fs, e, work, own, n, false) && Went(fs, e, work) && r == reply
    ensures fs.names == if r.Ok? then old(fs.names) - {e.temp} else old(fs.names)
    ensures old(fs.history) < fs.history && fs.history[|fs.history| - 1] == fs.Now()
    decreases 6
  {
    Others(fs, e, work, own, n, false);
    hide Holds, SafeSince, Children, AllBytes;
    ghost var h := fs.history;
    Unlinked(fs.names, fs.data, e, work);
    hide Unfinished, Finished, Seen;
    r := fs.Unlink(e.temp, reply);
    GoesOn(fs, e, work, own, n, false, h);
  }

  /** The original is linked to the backup name: by linkat(), or by link() if that is not
      supported. */
  method TryLink(fs: FileSystem, e: Edit, work: Inode, to: Name, at: Reply, plain: Reply,
                 ghost own: Contents, ghost n: nat) returns (ok: bool)
    requires Going(fs, e, work, own, n, false) && Editing(fs, e, work) && e.back == Some(to)
    modifies fs
    ensures Going(fs, e, work, own, n, false) && Editing(fs, e, work) && Went(fs, e, work)
    ensures ok <==> Works(at, plain, e.orig in old(fs.names) && to !in old(fs.names))
    ensures fs.names == if ok then old(fs.names)[to := old(fs.names)[e.orig]] else old(fs.names)
    ensures ok ==> Has(fs.Now(), to, e.was)
    ensures old(fs.history) < fs.history && fs.history[|fs.history| - 1] == fs.Now()
    decreases 7
  {
    hide Going, AllBytes, Seen;
    var r := LinkOnce(fs, e, work, to, at, own, n);
    if r.Fails? && !r.supported {
      r := LinkOnce(fs, e, work, to, plain, own, n);
    }
    ok := r.Ok?;
  }

  /** renameat(), or rename() if that is not supported. */
  method TryRename(fs: FileSystem, e: Edit, work: Inode, from: Name, to: Name, at: Reply, plain: Reply,
                   ghost own: Contents, ghost n: nat) returns (ok: bool)
    requires Going(fs, e, work, own, n, false) && from != to && MayRename(fs, e, work, own, from, to)
    modifies fs
    ensures Going(fs, e, work, own, n, ok && from == e.temp) && Went(fs, e, work)
    ensures ok <==> Works(at, plain, from in old(fs.names))
    ensures fs.names == if !ok || (to in old(fs.names) && old(fs.names)[to] == old(fs.names)[from]) then old(fs.names)
                        else old(fs.names)[to := old(fs.names)[from]] - {from}
    ensures ok && from == e.orig ==> Has(fs.Now(), to, e.was)
    ensures old(fs.history) < fs.history && fs.history[|fs.history| - 1] == fs.Now()
    decreases 7
  {
    hide Going, AllBytes, Seen, MayRename;
    var r := RenameOnce(fs, e, work, from, to, at, own, n);
    if r.Fails? && !r.supported {
      r := RenameOnce(fs, e, work, from, to, plain, own, n);
    }
    ok := r.Ok?;
  }

  /** The work file is given up; `abort` is the plain call of the label abort_inplace. */
  method Discard(fs: FileSystem, e: Edit, work: Inode, abort: bool, k: Replies, ghost own: Contents, ghost n: nat)
    requires Going(fs, e, work, own, n, false) && e.temp in fs.names
    modifies fs
    ensures Going(fs, e, work, own, n, false) && Went(fs, e, work)
    ensures old(fs.history) < fs.history && fs.history[|fs.history| - 1] == fs.Now()
    ensures fs.names == if Removes(abort, k) then old(fs.names) - {e.temp} else old(fs.names)
    decreases 7
  {
    hide Going, AllBytes, Seen;
    if abort {
      var r := UnlinkOnce(fs, e, work, k.unlink, own, n);
    } else {
      var r := UnlinkOnce(fs, e, work, k.unlinkat, own, n);
      if r.Fails? && !r.supported {
        r := UnlinkOnce(fs, e, work, k.unlink, own, n);
      }
    }
  }

  /** The original is kept under the backup name: linked there, or else renamed. */
  method Backup(fs: FileSystem, e: Edit, work: Inode, k: Replies, ghost n: nat) returns (kept: bool)
    requires Going(fs, e, work, e.now, n, false) && Editing(fs, e, work)
    modifies fs
    ensures Going(fs, e, work, e.now, n, false) && Went(fs, e, work)
    ensures e.temp in fs.names && fs.names[e.temp] == work
    ensures kept <==> (e.back.Some? ==> BackupWorks(old(fs.names), e, k))
    ensures kept && e.back.Some? ==> Has(fs.Now(), e.back.value, e.was)
    decreases 8
  {
    hide AllBytes, Seen, Works, Holds, Phase, Fine, Children;
    kept := true;
    if e.back.Some? {
      kept := TryLink(fs, e, work, e.back.value, k.linkat, k.link, e.now, n);
      if !kept {
        kept := TryRename(fs, e, work, e.orig, e.back.value, k.renameatBack, k.renameBack, e.now, n);
      }
    }
  }

  /** The work file is renamed over the original. */
  method Install(fs: FileSystem, e: Edit, work: Inode, k: Replies, ghost n: nat) returns (installed: bool)
    requires Going(fs, e, work, e.now, n, false) && e.temp in fs.names && fs.names[e.temp] == work
    requires e.back.Some? ==> Has(fs.Now(), e.back.value, e.was)
    modifies fs
    ensures Going(fs, e, work, e.now, n, installed) && Went(fs, e, work)
    ensures installed <==> Works(k.renameat, k.rename, true)
    ensures !installed ==> fs.names == old(fs.names)
    ensures old(fs.history) < fs.history && fs.history[|fs.history| - 1] == fs.Now()
    decreases 8
  {
    hide AllBytes, Seen, Works, Holds, Phase, Fine, Children;
    installed := TryRename(fs, e, work, e.temp, e.orig, k.renameat, k.rename, e.now, n);
  }

  /** Once the work file is complete: the original is kept, and the work file takes its place. */
  method Replace(fs: FileSystem, e: Edit, work: Inode, notImplicit: bool, k: Replies, ghost n: nat)
      returns (installed: bool)
    requires Going(fs, e, work, e.now, n, false) && Editing(fs, e, work)
    modifies fs
    ensures Going(fs, e, work, e.now, n, installed) && Went(fs, e, work)
    ensures installed <==>
              (e.back.Some? ==> BackupWorks(old(fs.names), e, k)) && Works(k.renameat, k.rename, true)
    ensures !installed ==> (e.temp in fs.names <==> !Removes(notImplicit, k))
    ensures old(fs.history) < fs.history && fs.history[|fs.history| - 1] == fs.Now()
    decreases 9
  {
    hide AllBytes, Seen, Works, Going, Removes, BackupWorks;
    installed := Backup(fs, e, work, k, n);
    if installed {
      installed := Install(fs, e, work, k, n);
    }
    if !installed {
      Discard(fs, e, work, notImplicit, k, e.now, n);
    }
  }

  // ----- All processes -----

  /** The children close the handle that have yet to do so. */
  method CloseRest(fs: FileSystem, e: Edit, work: Inode, ghost own: Contents, ghost n: nat, ghost done: bool)
    requires Going(fs, e, work, own, n, done) && n < |fs.history| && fs.history[|fs.history| - 1] == fs.Now()
    modifies fs
    ensures Going(fs, e, work, own, n, done) && Went(fs, e, work) && fs.waiting == []
    ensures fs.history[|fs.history| - 1] == fs.Now()
  {
    hide Going, AllBytes, Seen, Editing;
    while fs.waiting != []
      invariant Going(fs, e, work, own, n, done) && Went(fs, e, work)
      invariant fs.history[|fs.history| - 1] == fs.Now()
      decreases |fs.waiting|
    {
      Others(fs, e, work, own, n, done);
    }
  }

  /** The process that the edit is up to closes the handle, and the children before, between and
      after its system calls. */
  method CloseAll(fs: FileSystem, e: Edit, work: Inode, p: Process, notImplicit: bool, k: Replies,
                  ghost own: Contents, ghost n: nat) returns (r: Outcome)
    requires Going(fs, e, work, own, n, false) && n <= |fs.history|
    requires p.pid == e.pid && Editing(fs, e, work) && own + p.pending == e.now
    modifies fs
    ensures Going(fs, e, work, own + p.Written(), n, r.Success?) && Went(fs, e, work) && fs.waiting == []
    ensures old(fs.history) < fs.history && fs.history[|fs.history| - 1] == fs.Now()
    ensures r == if Succeeds(old(fs.names), e, p.close, k) then Success else if notImplicit then Failure else Croaked
  {
    hide Going, AllBytes, Seen, Editing, Succeeds, Removes, Process.Written;
    Others(fs, e, work, own, n, false);
    r := ArgvoutFinal(fs, e, work, p, notImplicit, k, own, n, false);
    CloseRest(fs, e, work, own + p.Written(), n, r.Success?);
  }

  /** The handle is closed by the process that the edit is up to, and by the children before,
      between and after its system calls, as the schedule says. What could be seen is safe
      throughout exactly if, unless the commit fails or a backup is kept, no child writes
      anything: otherwise the edited file ends up spoilt (and would have to equal the old one by
      chance to pass for safe). */
  method CloseEverywhere(fs: FileSystem, e: Edit, work: Inode, p: Process, notImplicit: bool, k: Replies)
      returns (r: Outcome)
    requires e.Valid() && p.pid == e.pid && Children(fs.waiting, e) && fs.stray == []
    requires Editing(fs, e, work) && Unfinished(fs.names, fs.data, e, work)
    requires work in fs.data && fs.data[work] + p.pending == e.now
    modifies fs
    ensures fs.waiting == [] && fs.stray == AllBytes(old(fs.waiting)) && old(fs.history) < fs.history
    ensures r == if Succeeds(old(fs.names), e, p.close, k) then Success else if notImplicit then Failure else Croaked
    ensures OthersKept(fs, e, work)
    ensures if r.Success? then e.temp !in fs.names && (NewInPlace(fs.Now(), e) <==> AllBytes(old(fs.waiting)) == [])
            else OldKept(fs.Now(), e)
    ensures var harmless := !r.Success? || e.back.Some? || AllBytes(old(fs.waiting)) == [];
            var safe := SafeSince(fs.history, |old(fs.history)|, e);
            && (harmless ==> safe)
            && (safe ==> harmless || Has(fs.Now(), e.orig, e.was))
            && (|e.was| <= |e.now| ==> (safe <==> harmless))
  {
    ghost var n, own := |fs.history|, fs.data[work];
    assert Going(fs, e, work, own, n, false);
    hide Going, AllBytes, Seen, Safe, SafeSince, NewInPlace, OldKept, Editing, Succeeds, Process.Written, Has;
    r := CloseAll(fs, e, work, p, notImplicit, k, own, n);
    NothingWaits(fs.stray);
    AtTheEnd(fs, e, work, own + p.Written(), n, r.Success?);
  }

  lemma NothingWaits(stray: Contents)
    ensures stray + AllBytes([]) == stray
  {
  }

  lemma AtTheEnd(fs: FileSystem, e: Edit, work: Inode, own: Contents, n: nat, done: bool)
    requires Going(fs, e, work, own, n, done) && n < |fs.history| && fs.history[|fs.history| - 1] == fs.Now()
    ensures if done then e.temp !in fs.names && (NewInPlace(fs.Now(), e) <==> fs.stray == []) else OldKept(fs.Now(), e)
    ensures var harmless, safe := !done || e.back.Some? || fs.stray == [], SafeSince(fs.history, n, e);
            && (harmless ==> safe)
            && (safe ==> harmless || Has(fs.Now(), e.orig, e.was))
            && (|e.was| <= |e.now| ==> (safe <==> harmless))
  {
    if SafeSince(fs.history, n, e) {
      assert Safe(fs.history[|fs.history| - 1], e);
    }
  }

  /** An edit without a backup that a child spoils: it closes the handle after the commit and has
      one element left to flush. */
  method SpoiltEdit() returns (fs: FileSystem, e: Edit, r: Outcome)
    ensures r == Success && e.Valid() && !SafeSince(fs.history, 0, e)
  {
    fs := new FileSystem;
    fs.names, fs.data := map["file" := 1, "work" := 2], map[1 := [1], 2 := [2]];
    var child := Process(8, [3], Ok, 0);
    fs.waiting, fs.stray, fs.history := [[], [], [child]], [], [];
    e := Edit("file", None, "work", [1], [2], 7);
    assert AllBytes(fs.waiting) == [3] by {
      assert [child][1..] == [] && Bytes([child]) == [3];
      assert [[child]][1..] == [] && AllBytes([[child]]) == [3];
      assert [[], [child]][1..] == [[child]] && AllBytes([[], [child]]) == [3];
      assert fs.waiting[1..] == [[], [child]];
    }
    assert Has(fs.Now(), "file", [1]);
    r := CloseEverywhere(fs, e, 2, Process(7, [], Ok, 0), true, NO_REPLIES);
  }
}
