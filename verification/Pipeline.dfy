/** The shell's pipelines, from rom/bin/shell.ts. */
module Pipeline {
  // executePipeline and the builtin path of executeSingleCommand on the kernel's handle tables.
  // Between any two steps of the shell, children that run may exit; the results hold for every
  // such schedule.

  import opened Options
  import opened Kernel

  /** How starting an external command turns out: it is not found, its process is prepared
      but the worker does not start, or it runs and `wait` then gives a status or fails. */
  datatype Run = NotFound | NoWorker | Runs(status: Option<int>)

  /** A command without file redirects.  A builtin with no code throws. */
  datatype Command = Builtin(code: Option<int>) | External(run: Run)

  datatype Result = Exited(code: int) | Thrown

  function Get(t: Tables, s: Slot): Option<nat> {
    if s in t.fds then Some(t.fds[s]) else None
  }

  // ---------------------------------------------------------------------------
  // Builtins: redirect, run, restore

  /** The tables with the builtin's standard descriptors redirected, and the handles put
      aside; None with the tables so far when a descriptor is not open. */
  function Redirected(t: Tables, sh: nat, target: nat, source: Option<nat>): Option<(Tables, Option<nat>)> {
    match source
    case None => Some((t, None))
    case Some(fd) =>
      var r := Redirect(t, sh, target, fd);
      if r.None? then None else Some((r.value.0, Some(r.value.1)))
  }

  function Restored(t: Tables, sh: nat, target: nat, saved: Option<nat>): Tables {
    if saved.None? then t
    else
      var r := Restore(t, sh, target, saved.value);
      if r.None? then t else r.value
  }

  function CloseIf(t: Tables, sh: nat, fd: Option<nat>): Tables {
    if fd.None? then t else Close(t, Slot(sh, fd.value))
  }

  /** What running a builtin does to the tables, whether or not it throws.  When the second
      redirect fails, the first is not undone. */
  function BuiltinEffect(t: Tables, sh: nat, stdin: Option<nat>, stdout: Option<nat>): Tables {
    var r1 := Redirected(t, sh, 1, stdout);
    if r1.None? then t
    else
      var r0 := Redirected(r1.value.0, sh, 0, stdin);
      if r0.None? then r1.value.0
      else CloseIf(Restored(Restored(r0.value.0, sh, 1, r1.value.1), sh, 0, r0.value.1), sh, stdout)
  }

  /** The tables while the builtin runs; None when it does not come to run. */
  function DuringBuiltin(t: Tables, sh: nat, stdin: Option<nat>, stdout: Option<nat>): Option<Tables> {
    var r1 := Redirected(t, sh, 1, stdout);
    if r1.None? then None
    else
      var r0 := Redirected(r1.value.0, sh, 0, stdin);
      if r0.None? then None else Some(r0.value.0)
  }

  method RedirectTo(k: Machine, sh: nat, target: nat, source: Option<nat>) returns (ok: bool, saved: Option<nat>)
    modifies k
    ensures ok == Redirected(old(k.State()), sh, target, source).Some?
    ensures ok ==> (k.State(), saved) == Redirected(old(k.State()), sh, target, source).value
    ensures !ok ==> k.State() == old(k.State())
  {
    if source == None {
      return true, None;
    }
    saved := k.RedirectHandle(sh, target, source.value);
    return saved.Some?, saved;
  }

  method RestoreTo(k: Machine, sh: nat, target: nat, saved: Option<nat>)
    modifies k
    ensures k.State() == Restored(old(k.State()), sh, target, saved)
  {
    if saved.Some? {
      var _ := k.RestoreHandle(sh, target, saved.value);
    }
  }

  /** executeSingleCommand for a builtin of a pipeline: redirects, runs, and in its finally
      block restores both descriptors and closes the pipe it wrote to. */
  method RunBuiltin(k: Machine, sh: nat, stdin: Option<nat>, stdout: Option<nat>, code: Option<int>)
      returns (r: Option<int>, ghost seen: Option<Tables>)
    modifies k
    ensures k.State() == BuiltinEffect(old(k.State()), sh, stdin, stdout)
    ensures seen == DuringBuiltin(old(k.State()), sh, stdin, stdout)
    ensures r == if seen.Some? then code else None
  {
    var ok, saved1 := RedirectTo(k, sh, 1, stdout);
    if !ok {
      return None, None;
    }
    var saved0;
    ok, saved0 := RedirectTo(k, sh, 0, stdin);
    if !ok {
      return None, None;
    }
    seen := Some(k.State());
    r := code;
    RestoreTo(k, sh, 1, saved1);
    RestoreTo(k, sh, 0, saved0);
    if stdout.Some? {
      var _ := k.CloseHandle(sh, stdout.value);
    }
  }

  /** Restoring after redirecting gives the tables back. */
  lemma RestoreUndoesRedirect(t: Tables, sh: nat, target: nat, source: nat)
    requires Inv(t, multiset{}) && target != source
    requires Slot(sh, target) in t.fds && Slot(sh, source) in t.fds
    ensures var (u, kept) := Redirect(t, sh, target, source).value;
      Restore(u, sh, target, kept) == Some(t)
  {
    var to, from := Slot(sh, target), Slot(sh, source);
    HeldIsOpen(t, from, multiset{});
    var (u, kept) := Redirect(t, sh, target, source).value;
    assert u.fds[to := kept] == t.fds;
    assert u.refs[t.fds[from] := t.refs[t.fds[from]]] == t.refs;
  }

  /** The sources a pipeline gives a builtin: open, and not the standard descriptors. */
  ghost predicate GoodSource(t: Tables, sh: nat, fd: Option<nat>) {
    fd.Some? ==> fd.value > 1 && Slot(sh, fd.value) in t.fds
  }

  ghost predicate HasStdio(t: Tables, sh: nat) {
    Slot(sh, 0) in t.fds && Slot(sh, 1) in t.fds
  }

  /** Two redirects to different handles, undone in the order they were made. */
  lemma TwoRedirectsUndone(t: Tables, sh: nat, stdin: nat, stdout: nat)
    requires Inv(t, multiset{}) && HasStdio(t, sh)
    requires GoodSource(t, sh, Some(stdin)) && GoodSource(t, sh, Some(stdout))
    requires t.fds[Slot(sh, stdin)] != t.fds[Slot(sh, stdout)]
    ensures BuiltinEffect(t, sh, Some(stdin), Some(stdout)) == Close(t, Slot(sh, stdout))
  {
    var a, b := t.fds[Slot(sh, stdout)], t.fds[Slot(sh, stdin)];
    HeldIsOpen(t, Slot(sh, stdout), multiset{});
    HeldIsOpen(t, Slot(sh, stdin), multiset{});
    var (t1, s1) := Redirect(t, sh, 1, stdout).value;
    var (t2, s0) := Redirect(t1, sh, 0, stdin).value;
    var t3 := Restore(t2, sh, 1, s1).value;
    var t4 := Restore(t3, sh, 0, s0).value;
    assert t4.fds == t.fds;
    assert t4.refs == t.refs;
  }

  /** A builtin whose standard descriptors are open leaves the tables as they were, but for
      the pipe end it was given to write to, which it closes. */
  lemma BuiltinIsNeutral(t: Tables, sh: nat, stdin: Option<nat>, stdout: Option<nat>)
    requires Inv(t, multiset{}) && HasStdio(t, sh)
    requires GoodSource(t, sh, stdin) && GoodSource(t, sh, stdout)
    requires stdin.Some? && stdout.Some? ==> t.fds[Slot(sh, stdin.value)] != t.fds[Slot(sh, stdout.value)]
    ensures BuiltinEffect(t, sh, stdin, stdout) == CloseIf(t, sh, stdout)
    ensures DuringBuiltin(t, sh, stdin, stdout).Some?
    ensures var u := DuringBuiltin(t, sh, stdin, stdout).value;
      && Get(u, Slot(sh, 0)) == Get(t, Slot(sh, Default(stdin, 0)))
      && Get(u, Slot(sh, 1)) == Get(t, Slot(sh, Default(stdout, 1)))
  {
    if stdin.Some? && stdout.Some? {
      TwoRedirectsUndone(t, sh, stdin.value, stdout.value);
    } else if stdout.Some? {
      RestoreUndoesRedirect(t, sh, 1, stdout.value);
    } else if stdin.Some? {
      RestoreUndoesRedirect(t, sh, 0, stdin.value);
    }
  }

  /** With good sources, the shell's descriptor 1 is back as it was after a builtin exactly
      when it is not the case that both ends are redirected, descriptor 1 is open and
      descriptor 0 is not: then the second redirect fails and the first stays. */
  lemma StdoutIsRestoredIff(t: Tables, sh: nat, stdin: Option<nat>, stdout: Option<nat>)
    requires Inv(t, multiset{})
    requires GoodSource(t, sh, stdin) && GoodSource(t, sh, stdout)
    requires stdin.Some? && stdout.Some? ==> t.fds[Slot(sh, stdin.value)] != t.fds[Slot(sh, stdout.value)]
    requires stdout.Some? ==> Get(t, Slot(sh, 1)) != Get(t, Slot(sh, stdout.value))
    ensures Get(BuiltinEffect(t, sh, stdin, stdout), Slot(sh, 1)) == Get(t, Slot(sh, 1)) <==>
      !(stdin.Some? && stdout.Some? && Slot(sh, 1) in t.fds && Slot(sh, 0) !in t.fds)
  {
    if HasStdio(t, sh) {
      BuiltinIsNeutral(t, sh, stdin, stdout);
    } else if stdin == None && stdout.Some? && Slot(sh, 1) in t.fds {
      RestoreUndoesRedirect(t, sh, 1, stdout.value);
    } else if stdout == None && stdin.Some? && Slot(sh, 0) in t.fds {
      RestoreUndoesRedirect(t, sh, 0, stdin.value);
    }
  }

  // ---------------------------------------------------------------------------
  // The state of a pipeline

  /** What stays fixed: the tables at the start, the shell, and the commands. */
  datatype Context = Context(t0: Tables, sh: nat, cmds: seq<Command>) {
    ghost predicate Valid() {
      Inv(t0, multiset{}) && HasStdio(t0, sh) && sh < t0.nextProc
    }
    function FirstFd(): nat { NextFd(t0, sh) }
    function ReadFd(j: nat): nat { FirstFd() + 2 * j }
    function WriteFd(j: nat): nat { FirstFd() + 2 * j + 1 }
    function ReadEnd(j: nat): nat { t0.nextId + 2 * j }
    function WriteEnd(j: nat): nat { t0.nextId + 2 * j + 1 }

    /** The handle command j is to have as descriptor fd. */
    function Wire(j: nat, fd: nat): Option<nat> {
      if fd == 0 then (if j == 0 then Get(t0, Slot(sh, 0)) else Some(ReadEnd(j - 1)))
      else if fd == 1 then (if j + 1 >= |cmds| then Get(t0, Slot(sh, 1)) else Some(WriteEnd(j)))
      else if fd == 2 then Get(t0, Slot(sh, 2))
      else None
    }

    function StdinOf(j: nat): Option<nat> { if j == 0 then None else Some(ReadFd(j - 1)) }
    function StdoutOf(j: nat): Option<nat> { if j + 1 >= |cmds| then None else Some(WriteFd(j)) }
  }

  /** How far the pipeline has come: the pipes made, the descriptors among theirs already
      closed at the end, and the process of each command started (-1 for none). */
  datatype Progress = Progress(pipes: nat, closed: nat, procs: seq<int>)

  /** Is the pipe descriptor at this offset still open in the shell?  A builtin has closed
      the write end it was given. */
  predicate OpenAt(x: Context, p: Progress, offset: int)
    requires |p.procs| <= |x.cmds|
  {
    p.closed <= offset < 2 * p.pipes && !(offset % 2 == 1 && offset / 2 < |p.procs| && x.cmds[offset / 2].Builtin?)
  }

  /** What every slot of the tables holds. */
  ghost predicate SlotOk(x: Context, p: Progress, t: Tables, s: Slot)
    requires |p.procs| <= |x.cmds|
  {
    if s.proc == x.sh then
      if s.fd < x.FirstFd() then Get(t, s) == Get(x.t0, s)
      else if OpenAt(x, p, s.fd - x.FirstFd()) then Get(t, s) == Some(x.t0.nextId + (s.fd - x.FirstFd()))
      else s !in t.fds
    else if s.proc < x.t0.nextProc then Get(t, s) == Get(x.t0, s)
    else s in t.fds ==> exists j :: 0 <= j < |p.procs| && p.procs[j] == s.proc && Get(t, s) == x.Wire(j, s.fd)
  }

  ghost predicate SlotsOk(x: Context, p: Progress, t: Tables)
    requires |p.procs| <= |x.cmds|
  {
    forall s :: SlotOk(x, p, t, s)
  }

  /** The processes of the commands are new, and each is newer than the ones before it. */
  ghost predicate ProcsOk(x: Context, p: Progress, nextProc: nat) {
    && nextProc >= x.t0.nextProc
    && (forall j :: 0 <= j < |p.procs| ==> p.procs[j] == -1 || x.t0.nextProc <= p.procs[j] < nextProc)
    && (forall i, j :: 0 <= i < j < |p.procs| && p.procs[j] >= 0 ==> p.procs[i] < p.procs[j])
  }

  ghost predicate Running(x: Context, p: Progress, t: Tables) {
    && |p.procs| <= |x.cmds|
    && Inv(t, multiset{})
    && ProcsOk(x, p, t.nextProc)
    && SlotsOk(x, p, t)
  }

  /** Before anything is done, the tables are the first ones. */
  lemma StartState(x: Context)
    requires x.Valid()
    ensures Running(x, Progress(0, 0, []), x.t0)
  {
    forall s ensures SlotOk(x, Progress(0, 0, []), x.t0, s) {
    }
  }

  // ---------------------------------------------------------------------------
  // Step 1: the pipes

  lemma PipeSlots(x: Context, p: Progress, t: Tables)
    requires p.procs == [] && p.closed == 0 && SlotsOk(x, p, t)
    requires NextFd(t, x.sh) == x.ReadFd(p.pipes) && t.nextId == x.ReadEnd(p.pipes)
    ensures var u := Alloc(Alloc(t, x.sh), x.sh);
      && SlotsOk(x, Progress(p.pipes + 1, 0, []), u)
      && NextFd(u, x.sh) == x.ReadFd(p.pipes + 1) && u.nextId == x.ReadEnd(p.pipes + 1)
  {
    var u, p' := Alloc(Alloc(t, x.sh), x.sh), Progress(p.pipes + 1, 0, []);
    var r, w := Slot(x.sh, x.ReadFd(p.pipes)), Slot(x.sh, x.WriteFd(p.pipes));
    assert u.fds == t.fds[r := x.ReadEnd(p.pipes)][w := x.WriteEnd(p.pipes)];
    forall s ensures SlotOk(x, p', u, s) {
      assert SlotOk(x, p, t, s);
    }
  }

  ghost predicate PipesMade(x: Context, n: nat, t: Tables) {
    && Running(x, Progress(n, 0, []), t)
    && NextFd(t, x.sh) == x.ReadFd(n) && t.nextId == x.ReadEnd(n) && t.nextProc == x.t0.nextProc
    && |OpenFds(t, x.sh)| == |OpenFds(x.t0, x.sh)| + 2 * n
  }

  lemma AllocOpensOne(t: Tables, proc: nat)
    requires Slot(proc, NextFd(t, proc)) !in t.fds
    ensures |OpenFds(Alloc(t, proc), proc)| == |OpenFds(t, proc)| + 1
  {
    assert OpenFds(Alloc(t, proc), proc) == OpenFds(t, proc) + {Slot(proc, NextFd(t, proc))};
  }

  lemma PipeOpensTwo(t: Tables, proc: nat)
    requires Inv(t, multiset{}) && proc < t.nextProc
    ensures |OpenFds(Alloc(Alloc(t, proc), proc), proc)| == |OpenFds(t, proc)| + 2
  {
    AllocKeeps(t, proc, multiset{});
    AllocOpensOne(t, proc);
    AllocOpensOne(Alloc(t, proc), proc);
  }

  lemma PipeRuns(x: Context, n: nat, t: Tables, u: Tables)
    requires Running(x, Progress(n, 0, []), t) && Inv(u, multiset{}) && u.nextProc == t.nextProc
    requires SlotsOk(x, Progress(n + 1, 0, []), u)
    ensures Running(x, Progress(n + 1, 0, []), u)
  {
  }

  lemma PipeStep(x: Context, n: nat, t: Tables)
    requires x.Valid() && PipesMade(x, n, t) && Pipe(t, x.sh).Some?
    ensures PipesMade(x, n + 1, Pipe(t, x.sh).value)
  {
    PipeKeeps(t, x.sh, multiset{});
    PipeOpensTwo(t, x.sh);
    PipeSlots(x, Progress(n, 0, []), t);
    PipeRuns(x, n, t, Pipe(t, x.sh).value);
  }

  lemma CloseSlots(x: Context, p: Progress, t: Tables, u: Tables)
    requires |p.procs| <= |x.cmds| && SlotsOk(x, p, t)
    requires u.fds == t.fds - {Slot(x.sh, x.FirstFd() + p.closed)}
    ensures SlotsOk(x, Progress(p.pipes, p.closed + 1, p.procs), u)
  {
    var p' := Progress(p.pipes, p.closed + 1, p.procs);
    forall s ensures SlotOk(x, p', u, s) {
      assert SlotOk(x, p, t, s);
    }
  }

  /** Closing the shell's pipe descriptor at the next offset, open or not. */
  lemma CloseStep(x: Context, p: Progress, t: Tables)
    requires Running(x, p, t)
    ensures var u := Close(t, Slot(x.sh, x.FirstFd() + p.closed));
      && Running(x, Progress(p.pipes, p.closed + 1, p.procs), u) && u.nextProc == t.nextProc
      && forall s: Slot :: s.proc != x.sh ==> Get(u, s) == Get(t, s)
  {
    var s := Slot(x.sh, x.FirstFd() + p.closed);
    CloseKeeps(t, s, multiset{});
    CloseSlots(x, p, t, Close(t, s));
  }

  /** The pipes' descriptors, in the order they were made. */
  ghost predicate ArePipeFds(x: Context, fds: seq<nat>, n: nat) {
    |fds| == 2 * n && forall d :: 0 <= d < 2 * n ==> fds[d] == x.FirstFd() + d
  }

  ghost predicate ArePipes(x: Context, pipes: seq<(nat, nat)>, n: nat) {
    |pipes| == n && forall j :: 0 <= j < n ==> pipes[j] == (x.ReadFd(j), x.WriteFd(j))
  }

  lemma MorePipes(x: Context, pipes: seq<(nat, nat)>, fds: seq<nat>, n: nat, r: (nat, nat))
    requires ArePipes(x, pipes, n) && ArePipeFds(x, fds, n) && r == (x.ReadFd(n), x.WriteFd(n))
    ensures ArePipes(x, pipes + [r], n + 1) && ArePipeFds(x, fds + [r.0, r.1], n + 1)
  {
  }

  /** One turn of the loop that closes the pipes. */
  method CloseNext(k: Machine, sh: nat, fd: nat, ghost x: Context, ghost p: Progress)
    requires sh == x.sh && Running(x, p, k.State()) && fd == x.FirstFd() + p.closed
    modifies k
    ensures Running(x, Progress(p.pipes, p.closed + 1, p.procs), k.State())
    ensures k.State().nextProc == old(k.State()).nextProc
    ensures forall s: Slot :: s.proc != sh ==> Get(k.State(), s) == Get(old(k.State()), s)
  {
    CloseStep(x, p, k.State());
    var _ := k.CloseHandle(sh, fd);
  }

  /** The error path and step 2b: every pipe descriptor of the shell is closed. */
  method CloseAll(k: Machine, sh: nat, fdsToClose: seq<nat>, ghost x: Context, ghost p: Progress)
    requires sh == x.sh && Running(x, p, k.State()) && p.closed == 0
    requires ArePipeFds(x, fdsToClose, p.pipes)
    modifies k
    ensures Running(x, Progress(p.pipes, 2 * p.pipes, p.procs), k.State())
    ensures k.State().nextProc == old(k.State()).nextProc
    ensures forall s: Slot :: s.proc != sh ==> Get(k.State(), s) == Get(old(k.State()), s)
  {
    for d := 0 to |fdsToClose|
      invariant Running(x, Progress(p.pipes, d, p.procs), k.State())
      invariant k.State().nextProc == old(k.State()).nextProc
      invariant forall s: Slot :: s.proc != sh ==> Get(k.State(), s) == Get(old(k.State()), s)
    {
      CloseNext(k, sh, fdsToClose[d], x, Progress(p.pipes, d, p.procs));
    }
  }

  method AddPipe(k: Machine, sh: nat, ghost x: Context, ghost i: nat) returns (r: Option<(nat, nat)>)
    requires sh == x.sh && x.Valid() && PipesMade(x, i, k.State())
    modifies k
    ensures r.Some? <==> |OpenFds(x.t0, sh)| + 2 * (i + 1) <= MAX_HANDLES
    ensures r.Some? ==> PipesMade(x, i + 1, k.State()) && r.value == (x.ReadFd(i), x.WriteFd(i))
    ensures r.None? ==> k.State() == old(k.State())
  {
    ghost var t := k.State();
    r := k.CreatePipe(sh);
    if r.Some? {
      PipeStep(x, i, t);
    }
  }

  /** Step 1: one pipe fewer than there are commands, or as many as the shell's limit on
      handles allows. */
  method CreatePipes(k: Machine, sh: nat, n: nat, ghost x: Context)
      returns (ok: bool, pipes: seq<(nat, nat)>, fdsToClose: seq<nat>)
    requires sh == x.sh && x.Valid() && k.State() == x.t0
    modifies k
    ensures |pipes| <= n && Running(x, Progress(|pipes|, 0, []), k.State()) && k.State().nextProc == x.t0.nextProc
    ensures ArePipes(x, pipes, |pipes|) && ArePipeFds(x, fdsToClose, |pipes|)
    ensures ok ==> |pipes| == n
    ensures ok <==> n == 0 || |OpenFds(x.t0, sh)| + 2 * n <= MAX_HANDLES
  {
    pipes, fdsToClose := [], [];
    StartState(x);
    for i := 0 to n
      invariant |pipes| == i && PipesMade(x, i, k.State())
      invariant ArePipes(x, pipes, i) && ArePipeFds(x, fdsToClose, i)
      invariant i == 0 || |OpenFds(x.t0, sh)| + 2 * i <= MAX_HANDLES
    {
      var r := AddPipe(k, sh, x, i);
      if r.None? {
        return false, pipes, fdsToClose;
      }
      MorePipes(x, pipes, fdsToClose, i, r.value);
      pipes := pipes + [r.value];
      fdsToClose := fdsToClose + [r.value.0, r.value.1];
    }
    ok := true;
  }

  // ---------------------------------------------------------------------------
  // Step 2: the commands

  /** Processes other than the given ones keep their descriptors, and those gain none. */
  ghost predicate Kept(t: Tables, u: Tables, pids: seq<int>) {
    forall s: Slot :: Get(u, s) == Get(t, s) || (s !in u.fds && s.proc in pids)
  }

  lemma ExitSlots(x: Context, p: Progress, t: Tables, u: Tables, pid: nat)
    requires |p.procs| <= |x.cmds| && SlotsOk(x, p, t) && pid >= x.t0.nextProc && pid != x.sh
    requires u.fds == t.fds - OpenFds(t, pid)
    ensures SlotsOk(x, p, u)
  {
    forall s ensures SlotOk(x, p, u, s) {
      assert SlotOk(x, p, t, s);
    }
  }

  /** A child that exits gives up its descriptors; everyone else keeps theirs. */
  lemma ExitStep(x: Context, p: Progress, t: Tables, pid: nat)
    requires x.Valid() && Running(x, p, t) && pid >= x.t0.nextProc
    ensures Running(x, p, Exit(t, pid)) && Exit(t, pid).nextProc == t.nextProc
    ensures forall s: Slot :: Get(Exit(t, pid), s) == if s.proc == pid then None else Get(t, s)
  {
    ExitKeeps(t, pid, multiset{});
    ExitSlots(x, p, t, Exit(t, pid), pid);
  }

  /** Children that run may exit while the shell is between two steps. */
  method Elapse(k: Machine, pids: seq<int>, ghost x: Context, ghost p: Progress)
    requires x.Valid() && Running(x, p, k.State())
    requires forall j :: 0 <= j < |pids| && pids[j] >= 0 ==> pids[j] >= x.t0.nextProc
    modifies k
    ensures Running(x, p, k.State()) && k.State().nextProc == old(k.State()).nextProc
    ensures Kept(old(k.State()), k.State(), pids)
  {
    for j := 0 to |pids|
      invariant Running(x, p, k.State()) && k.State().nextProc == old(k.State()).nextProc
      invariant Kept(old(k.State()), k.State(), pids)
    {
      if * {
        if pids[j] > 0 {
          ExitStep(x, p, k.State(), pids[j]);
          k.ExitProcess(pids[j]);
        }
      }
    }
  }

  /** Command |p.procs| is about to be started and all pipes are there. */
  ghost predicate Ready(x: Context, p: Progress) {
    p.closed == 0 && |p.procs| < |x.cmds| && p.pipes == |x.cmds| - 1
  }

  /** The pipe ends a command is given are open in the shell and lead where they should. */
  lemma SourcesAreGood(x: Context, p: Progress, t: Tables)
    requires x.Valid() && Ready(x, p) && SlotsOk(x, p, t)
    ensures var j := |p.procs|;
      && GoodSource(t, x.sh, x.StdinOf(j)) && GoodSource(t, x.sh, x.StdoutOf(j)) && HasStdio(t, x.sh)
      && Get(t, Slot(x.sh, Default(x.StdinOf(j), 0))) == x.Wire(j, 0)
      && Get(t, Slot(x.sh, Default(x.StdoutOf(j), 1))) == x.Wire(j, 1)
      && Get(t, Slot(x.sh, 2)) == x.Wire(j, 2)
  {
    var j := |p.procs|;
    assert SlotOk(x, p, t, Slot(x.sh, 0)) && SlotOk(x, p, t, Slot(x.sh, 1)) && SlotOk(x, p, t, Slot(x.sh, 2));
    assert j > 0 ==> SlotOk(x, p, t, Slot(x.sh, x.ReadFd(j - 1)));
    assert SlotOk(x, p, t, Slot(x.sh, x.WriteFd(j)));
    assert x.FirstFd() >= 3;
  }

  /** Descriptors 0 and 1 of the process lead where those of command j should. */
  ghost predicate WiredAs(x: Context, j: nat, t: Tables, proc: nat) {
    Get(t, Slot(proc, 0)) == x.Wire(j, 0) && Get(t, Slot(proc, 1)) == x.Wire(j, 1)
  }

  lemma NoProcessSlots(x: Context, p: Progress, t: Tables, u: Tables)
    requires |p.procs| < |x.cmds| && SlotsOk(x, p, t)
    requires u.fds == if x.cmds[|p.procs|].Builtin? && |p.procs| < p.pipes
                      then t.fds - {Slot(x.sh, x.WriteFd(|p.procs|))} else t.fds
    ensures SlotsOk(x, Progress(p.pipes, p.closed, p.procs + [-1]), u)
  {
    var p' := Progress(p.pipes, p.closed, p.procs + [-1]);
    forall s ensures SlotOk(x, p', u, s) {
      assert SlotOk(x, p, t, s);
      if j :| 0 <= j < |p.procs| && p.procs[j] == s.proc && Get(t, s) == x.Wire(j, s.fd) {
        assert p'.procs[j] == s.proc;
      }
    }
  }

  lemma NoProcessProcs(x: Context, p: Progress, nextProc: nat)
    requires ProcsOk(x, p, nextProc)
    ensures ProcsOk(x, Progress(p.pipes, p.closed, p.procs + [-1]), nextProc)
  {
  }

  lemma BuiltinRuns(x: Context, p: Progress, t: Tables, u: Tables)
    requires x.Valid() && Running(x, p, t) && Ready(x, p) && x.cmds[|p.procs|].Builtin?
    requires u == CloseIf(t, x.sh, x.StdoutOf(|p.procs|))
    ensures Running(x, Progress(p.pipes, p.closed, p.procs + [-1]), u) && u.nextProc == t.nextProc
    ensures forall s: Slot :: s.proc != x.sh ==> Get(u, s) == Get(t, s)
  {
    var j := |p.procs|;
    if j + 1 < |x.cmds| {
      CloseKeeps(t, Slot(x.sh, x.WriteFd(j)), multiset{});
    }
    NoProcessSlots(x, p, t, u);
    NoProcessProcs(x, p, t.nextProc);
  }

  lemma BuiltinStep(x: Context, p: Progress, t: Tables)
    requires x.Valid() && Running(x, p, t) && Ready(x, p) && x.cmds[|p.procs|].Builtin?
    ensures var j := |p.procs|; var u := BuiltinEffect(t, x.sh, x.StdinOf(j), x.StdoutOf(j));
      && Running(x, Progress(p.pipes, p.closed, p.procs + [-1]), u) && u.nextProc == t.nextProc
      && (forall s: Slot :: s.proc != x.sh ==> Get(u, s) == Get(t, s))
    ensures var j := |p.procs|; var u := DuringBuiltin(t, x.sh, x.StdinOf(j), x.StdoutOf(j));
      u.Some? && WiredAs(x, j, u.value, x.sh)
  {
    var j := |p.procs|;
    SourcesAreGood(x, p, t);
    BuiltinIsNeutral(t, x.sh, x.StdinOf(j), x.StdoutOf(j));
    BuiltinRuns(x, p, t, CloseIf(t, x.sh, x.StdoutOf(j)));
  }

  lemma NotFoundStep(x: Context, p: Progress, t: Tables)
    requires x.Valid() && Running(x, p, t) && |p.procs| < |x.cmds| && x.cmds[|p.procs|].External?
    ensures Running(x, Progress(p.pipes, p.closed, p.procs + [-1]), t)
  {
    NoProcessSlots(x, p, t, t);
    NoProcessProcs(x, p, t.nextProc);
  }

  /** The new process has the parent's descriptors it was given; nobody else's change. */
  function InheritedAt(t: Tables, parent: nat, stdin: nat, stdout: nat, s: Slot): Option<nat> {
    if s.proc != t.nextProc then Get(t, s)
    else if s.fd == 0 then Get(t, Slot(parent, stdin))
    else if s.fd == 1 then Get(t, Slot(parent, stdout))
    else if s.fd == 2 then Get(t, Slot(parent, 2))
    else None
  }

  lemma InheritFd(t: Tables, child: nat, childFd: nat, parent: nat, parentFd: nat, s: Slot)
    requires child != parent && Get(t, Slot(child, childFd)) == None
    ensures Get(Inherit(t, child, childFd, parent, parentFd), s) ==
      Get(t, if s == Slot(child, childFd) then Slot(parent, parentFd) else s)
  {
  }

  lemma InheritStdioFd(t: Tables, child: nat, parent: nat, stdin: nat, stdout: nat, s: Slot)
    requires child != parent && forall fd :: Get(t, Slot(child, fd)) == None
    ensures Get(InheritStdio(t, child, parent, stdin, stdout), s) ==
      if s == Slot(child, 0) then Get(t, Slot(parent, stdin))
      else if s == Slot(child, 1) then Get(t, Slot(parent, stdout))
      else if s == Slot(child, 2) then Get(t, Slot(parent, 2))
      else Get(t, s)
  {
    var t1 := Inherit(t, child, 0, parent, stdin);
    InheritFd(t, child, 0, parent, stdin, Slot(child, 1));
    InheritFd(t, child, 0, parent, stdin, Slot(child, 2));
    InheritFd(t, child, 0, parent, stdin, Slot(parent, stdout));
    InheritFd(t, child, 0, parent, stdin, Slot(parent, 2));
    InheritFd(t, child, 0, parent, stdin, s);
    var t2 := Inherit(t1, child, 1, parent, stdout);
    InheritFd(t1, child, 1, parent, stdout, Slot(child, 2));
    InheritFd(t1, child, 1, parent, stdout, Slot(parent, 2));
    InheritFd(t1, child, 1, parent, stdout, s);
    InheritFd(t2, child, 2, parent, 2, s);
  }

  lemma PrepareFds(t: Tables, parent: nat, stdin: nat, stdout: nat)
    requires parent < t.nextProc && forall s :: s in t.fds ==> s.proc < t.nextProc
    ensures forall s :: Get(Prepare(t, parent, stdin, stdout), s) == InheritedAt(t, parent, stdin, stdout, s)
  {
    assert forall fd :: Get(Born(t), Slot(t.nextProc, fd)) == None;
    forall s ensures Get(Prepare(t, parent, stdin, stdout), s) == InheritedAt(t, parent, stdin, stdout, s) {
      InheritStdioFd(Born(t), t.nextProc, parent, stdin, stdout, s);
    }
  }

  lemma SpawnSlots(x: Context, p: Progress, t: Tables, u: Tables, stdin: nat, stdout: nat)
    requires |p.procs| < |x.cmds| && SlotsOk(x, p, t) && x.cmds[|p.procs|].External?
    requires t.nextProc >= x.t0.nextProc && x.sh < x.t0.nextProc
    requires forall s :: Get(u, s) == InheritedAt(t, x.sh, stdin, stdout, s)
    requires Get(t, Slot(x.sh, stdin)) == x.Wire(|p.procs|, 0)
    requires Get(t, Slot(x.sh, stdout)) == x.Wire(|p.procs|, 1)
    requires Get(t, Slot(x.sh, 2)) == x.Wire(|p.procs|, 2)
    ensures SlotsOk(x, Progress(p.pipes, p.closed, p.procs + [t.nextProc]), u)
  {
    var p' := Progress(p.pipes, p.closed, p.procs + [t.nextProc]);
    forall s ensures SlotOk(x, p', u, s) {
      assert SlotOk(x, p, t, s) && Get(u, s) == InheritedAt(t, x.sh, stdin, stdout, s);
      assert p'.procs[|p.procs|] == t.nextProc;
      if j :| 0 <= j < |p.procs| && p.procs[j] == s.proc && Get(t, s) == x.Wire(j, s.fd) {
        assert p'.procs[j] == s.proc;
      }
    }
  }

  lemma SpawnWires(x: Context, j: nat, t: Tables, u: Tables, stdin: nat, stdout: nat)
    requires forall s :: Get(u, s) == InheritedAt(t, x.sh, stdin, stdout, s)
    requires Get(t, Slot(x.sh, stdin)) == x.Wire(j, 0) && Get(t, Slot(x.sh, stdout)) == x.Wire(j, 1)
    ensures WiredAs(x, j, u, t.nextProc)
    ensures forall s: Slot :: s.proc != t.nextProc ==> Get(u, s) == Get(t, s)
  {
    assert Get(u, Slot(t.nextProc, 0)) == InheritedAt(t, x.sh, stdin, stdout, Slot(t.nextProc, 0));
    assert Get(u, Slot(t.nextProc, 1)) == InheritedAt(t, x.sh, stdin, stdout, Slot(t.nextProc, 1));
    forall s: Slot | s.proc != t.nextProc ensures Get(u, s) == Get(t, s) {
      assert Get(u, s) == InheritedAt(t, x.sh, stdin, stdout, s);
    }
  }

  lemma SpawnProcs(x: Context, p: Progress, nextProc: nat)
    requires ProcsOk(x, p, nextProc)
    ensures ProcsOk(x, Progress(p.pipes, p.closed, p.procs + [nextProc]), nextProc + 1)
  {
  }

  lemma SpawnRuns(x: Context, p: Progress, t: Tables, u: Tables, stdin: nat, stdout: nat)
    requires x.Valid() && Running(x, p, t) && Ready(x, p) && x.cmds[|p.procs|].External?
    requires u == Prepare(t, x.sh, stdin, stdout)
    requires forall s :: Get(u, s) == InheritedAt(t, x.sh, stdin, stdout, s)
    requires Get(t, Slot(x.sh, stdin)) == x.Wire(|p.procs|, 0)
    requires Get(t, Slot(x.sh, stdout)) == x.Wire(|p.procs|, 1)
    requires Get(t, Slot(x.sh, 2)) == x.Wire(|p.procs|, 2)
    ensures Running(x, Progress(p.pipes, p.closed, p.procs + [t.nextProc]), u)
  {
    PrepareKeeps(t, x.sh, stdin, stdout, multiset{});
    SpawnProcs(x, p, t.nextProc);
    SpawnSlots(x, p, t, u, stdin, stdout);
  }

  lemma SpawnStep(x: Context, p: Progress, t: Tables)
    requires x.Valid() && Running(x, p, t) && Ready(x, p) && x.cmds[|p.procs|].External?
    ensures var j := |p.procs|;
      var u := Prepare(t, x.sh, Default(x.StdinOf(j), 0), Default(x.StdoutOf(j), 1));
      && Running(x, Progress(p.pipes, p.closed, p.procs + [t.nextProc]), u) && u.nextProc == t.nextProc + 1
      && WiredAs(x, j, u, t.nextProc)
      && (forall s: Slot :: s.proc != t.nextProc ==> Get(u, s) == Get(t, s))
  {
    var j := |p.procs|;
    var stdin, stdout := Default(x.StdinOf(j), 0), Default(x.StdoutOf(j), 1);
    var u := Prepare(t, x.sh, stdin, stdout);
    SourcesAreGood(x, p, t);
    PrepareFds(t, x.sh, stdin, stdout);
    SpawnRuns(x, p, t, u, stdin, stdout);
    SpawnWires(x, j, t, u, stdin, stdout);
  }

  /** What a command's exit code is before anything is waited for: -1 when it runs. */
  function FirstCode(c: Command): int {
    match c
    case Builtin(code) => if code.Some? then code.value else 0
    case External(run) => if run.Runs? then -1 else 126
  }

  /** A command's exit code: 126 also when waiting for it fails. */
  function FinalCode(c: Command): int {
    if c.External? && c.run.Runs? then (if c.run.status.Some? then c.run.status.value else 126) else FirstCode(c)
  }

  predicate RunsProcess(c: Command) {
    c.External? && c.run.Runs?
  }

  predicate LeavesOrphan(c: Command) {
    c.External? && c.run.NoWorker?
  }

  predicate Throws(c: Command) {
    c.Builtin? && c.code.None?
  }

  /** How many commands are started: all up to the first builtin that throws. */
  function Begun(cmds: seq<Command>): (n: nat)
    ensures n <= |cmds|
  {
    if cmds == [] then 0 else if Throws(cmds[0]) then 1 else 1 + Begun(cmds[1..])
  }

  lemma {:induction false} BegunUpTo(cmds: seq<Command>, i: nat)
    requires i <= |cmds| && forall j :: 0 <= j < i ==> !Throws(cmds[j])
    ensures i == |cmds| ==> Begun(cmds) == i
    ensures i < |cmds| && Throws(cmds[i]) ==> Begun(cmds) == i + 1
  {
    if i > 0 {
      BegunUpTo(cmds[1..], i - 1);
    }
  }

  /** The pids the shell has noted, the codes, and the processes behind them. */
  ghost predicate Noted(x: Context, p: Progress, pids: seq<int>, codes: seq<int>) {
    && |pids| == |codes| <= |p.procs| <= |x.cmds|
    && (forall j :: 0 <= j < |pids| ==>
          && codes[j] == FirstCode(x.cmds[j]) && !Throws(x.cmds[j])
          && pids[j] == (if RunsProcess(x.cmds[j]) then p.procs[j] else -1)
          && (p.procs[j] >= 0 <==> RunsProcess(x.cmds[j]) || LeavesOrphan(x.cmds[j])))
  }

  /** A process whose worker did not start still holds its descriptor 0. */
  ghost predicate Orphans(x: Context, p: Progress, t: Tables) {
    forall j :: 0 <= j < |p.procs| <= |x.cmds| && LeavesOrphan(x.cmds[j]) ==>
      p.procs[j] >= 0 && Slot(p.procs[j], 0) in t.fds
  }

  lemma KeptOrphans(x: Context, p: Progress, t: Tables, u: Tables, pids: seq<int>, codes: seq<int>)
    requires Orphans(x, p, t) && Kept(t, u, pids) && Noted(x, p, pids, codes) && ProcsOk(x, p, t.nextProc)
    ensures Orphans(x, p, u)
  {
    forall j | 0 <= j < |p.procs| && LeavesOrphan(x.cmds[j]) ensures Slot(p.procs[j], 0) in u.fds {
      var s := Slot(p.procs[j], 0);
      assert Get(u, s) == Get(t, s) || (s !in u.fds && s.proc in pids);
    }
  }

  /** What a command has as descriptors 0 and 1 while it runs. */
  type Wiring = Option<(Option<nat>, Option<nat>)>

  ghost predicate AllWired(x: Context, seen: seq<Wiring>) {
    forall j :: 0 <= j < |seen| <= |x.cmds| && x.cmds[j] != External(NotFound) ==>
      seen[j] == Some((x.Wire(j, 0), x.Wire(j, 1)))
  }

  ghost function SeenBy(t: Tables, proc: nat): Wiring {
    Some((Get(t, Slot(proc, 0)), Get(t, Slot(proc, 1))))
  }

  lemma NotedMore(x: Context, p: Progress, pids: seq<int>, codes: seq<int>, proc: int, code: int, pid: int)
    requires Noted(x, p, pids, codes) && |pids| == |p.procs| < |x.cmds|
    requires var c := x.cmds[|p.procs|];
      && code == FirstCode(c) && !Throws(c) && pid == (if RunsProcess(c) then proc else -1)
      && (proc >= 0 <==> RunsProcess(c) || LeavesOrphan(c))
    ensures Noted(x, Progress(p.pipes, p.closed, p.procs + [proc]), pids + [pid], codes + [code])
  {
  }

  lemma NotedSame(x: Context, p: Progress, pids: seq<int>, codes: seq<int>, proc: int)
    requires Noted(x, p, pids, codes) && |pids| == |p.procs| < |x.cmds|
    ensures Noted(x, Progress(p.pipes, p.closed, p.procs + [proc]), pids, codes)
  {
  }

  lemma OrphansMore(x: Context, p: Progress, t: Tables, u: Tables, proc: int)
    requires |p.procs| < |x.cmds| && Orphans(x, p, t) && ProcsOk(x, p, t.nextProc) && x.Valid()
    requires forall s: Slot :: s.proc != x.sh && s.proc < t.nextProc ==> Get(u, s) == Get(t, s)
    requires LeavesOrphan(x.cmds[|p.procs|]) ==> proc >= 0 && Slot(proc, 0) in u.fds
    ensures Orphans(x, Progress(p.pipes, p.closed, p.procs + [proc]), u)
  {
    var p' := Progress(p.pipes, p.closed, p.procs + [proc]);
    forall j | 0 <= j < |p'.procs| && LeavesOrphan(x.cmds[j])
      ensures p'.procs[j] >= 0 && Slot(p'.procs[j], 0) in u.fds
    {
      if j < |p.procs| {
        assert p'.procs[j] == p.procs[j];
        var s := Slot(p.procs[j], 0);
        assert Get(u, s) == Get(t, s);
      }
    }
  }

  /** Starts command i: a builtin runs to its end, an external command gets a process. */
  method StartCommand(k: Machine, sh: nat, cmd: Command, stdin: Option<nat>, stdout: Option<nat>,
                      ghost x: Context, ghost p: Progress)
      returns (code: Option<int>, pid: int, ghost proc: int, ghost seen: Wiring)
    requires sh == x.sh && x.Valid() && Running(x, p, k.State()) && Ready(x, p) && cmd == x.cmds[|p.procs|]
    requires stdin == x.StdinOf(|p.procs|) && stdout == x.StdoutOf(|p.procs|)
    modifies k
    ensures Running(x, Progress(p.pipes, p.closed, p.procs + [proc]), k.State())
    ensures forall s: Slot :: s.proc != sh && s.proc < old(k.nextProc) ==> Get(k.State(), s) == Get(old(k.State()), s)
    ensures code == if Throws(cmd) then None else Some(FirstCode(cmd))
    ensures pid == (if RunsProcess(cmd) then proc else -1) && (proc >= 0 <==> RunsProcess(cmd) || LeavesOrphan(cmd))
    ensures LeavesOrphan(cmd) ==> Slot(proc, 0) in k.fds
    ensures cmd != External(NotFound) ==> seen == Some((x.Wire(|p.procs|, 0), x.Wire(|p.procs|, 1)))
  {
    pid, proc, seen := -1, -1, None;
    ghost var t := k.State();
    match cmd {
      case Builtin(outcome) =>
        BuiltinStep(x, p, t);
        ghost var during;
        code, during := RunBuiltin(k, sh, stdin, stdout, outcome);
        seen := SeenBy(during.value, sh);
      case External(NotFound) =>
        NotFoundStep(x, p, t);
        code := Some(126);
      case External(run) =>
        SpawnStep(x, p, t);
        var r := k.Spawn(sh, stdin, stdout, run.Runs?);
        proc := t.nextProc;
        seen := SeenBy(k.State(), proc);
        code := Some(if r.None? then 126 else -1);
        pid := if r.None? then -1 else r.value;
    }
  }

  /** The commands before |p.procs| are started, all but perhaps the last one noted. */
  ghost predicate Started(x: Context, p: Progress, t: Tables, pids: seq<int>, codes: seq<int>, seen: seq<Wiring>) {
    && p.pipes == |x.cmds| - 1 && p.closed == 0 && |seen| == |p.procs|
    && Running(x, p, t) && Noted(x, p, pids, codes) && Orphans(x, p, t) && AllWired(x, seen)
  }

  lemma StartedMore(x: Context, p: Progress, t: Tables, u: Tables, pids: seq<int>, codes: seq<int>, seen: seq<Wiring>,
                    proc: int, code: Option<int>, pid: int, saw: Wiring)
    requires x.Valid() && Started(x, p, t, pids, codes, seen) && |pids| == |p.procs| < |x.cmds|
    requires Running(x, Progress(p.pipes, p.closed, p.procs + [proc]), u)
    requires forall s: Slot :: s.proc != x.sh && s.proc < t.nextProc ==> Get(u, s) == Get(t, s)
    requires var c := x.cmds[|p.procs|];
      && code == (if Throws(c) then None else Some(FirstCode(c)))
      && pid == (if RunsProcess(c) then proc else -1) && (proc >= 0 <==> RunsProcess(c) || LeavesOrphan(c))
      && (LeavesOrphan(c) ==> Slot(proc, 0) in u.fds)
      && (c != External(NotFound) ==> saw == Some((x.Wire(|p.procs|, 0), x.Wire(|p.procs|, 1))))
    ensures Started(x, Progress(p.pipes, p.closed, p.procs + [proc]), u, if code.None? then pids else pids + [pid],
                    if code.None? then codes else codes + [code.value], seen + [saw])
  {
    OrphansMore(x, p, t, u, proc);
    if code.None? {
      NotedSame(x, p, pids, codes, proc);
    } else {
      NotedMore(x, p, pids, codes, proc, code.value, pid);
    }
  }

  /** Lets children exit, then starts the next command. */
  method NextCommand(k: Machine, sh: nat, cmds: seq<Command>, pipes: seq<(nat, nat)>, pids: seq<int>, i: nat,
                     ghost codes: seq<int>, ghost x: Context, ghost p: Progress, ghost seen: seq<Wiring>)
      returns (code: Option<int>, pid: int, ghost p': Progress, ghost seen': seq<Wiring>)
    requires sh == x.sh && cmds == x.cmds && |cmds| > 1 && x.Valid() && ArePipes(x, pipes, |cmds| - 1)
    requires Started(x, p, k.State(), pids, codes, seen) && i == |pids| == |p.procs| < |cmds|
    modifies k
    ensures |p'.procs| == i + 1
    ensures code == if Throws(cmds[i]) then None else Some(FirstCode(cmds[i]))
    ensures Started(x, p', k.State(), if code.None? then pids else pids + [pid],
                    if code.None? then codes else codes + [code.value], seen')
  {
    ghost var t := k.State();
    Elapse(k, pids, x, p);
    KeptOrphans(x, p, t, k.State(), pids, codes);
    t := k.State();
    var stdin := if i == 0 then None else Some(pipes[i - 1].0);
    var stdout := if i == |cmds| - 1 then None else Some(pipes[i].1);
    ghost var proc, saw;
    code, pid, proc, saw := StartCommand(k, sh, cmds[i], stdin, stdout, x, p);
    StartedMore(x, p, t, k.State(), pids, codes, seen, proc, code, pid, saw);
    p', seen' := Progress(p.pipes, p.closed, p.procs + [proc]), seen + [saw];
  }

  /** Step 2: starts the commands in order; a builtin that throws ends it. */
  method StartCommands(k: Machine, sh: nat, cmds: seq<Command>, pipes: seq<(nat, nat)>, ghost x: Context)
      returns (ok: bool, pids: seq<int>, codes: seq<int>, ghost p: Progress, ghost seen: seq<Wiring>)
    requires sh == x.sh && cmds == x.cmds && |cmds| > 1 && x.Valid() && ArePipes(x, pipes, |cmds| - 1)
    requires Running(x, Progress(|cmds| - 1, 0, []), k.State())
    modifies k
    ensures Started(x, p, k.State(), pids, codes, seen)
    ensures ok <==> forall j :: 0 <= j < |cmds| ==> !Throws(cmds[j])
    ensures |p.procs| == Begun(cmds) && (ok ==> |pids| == |cmds|)
  {
    pids, codes, p, seen := [], [], Progress(|cmds| - 1, 0, []), [];
    for i := 0 to |cmds|
      invariant |pids| == |p.procs| == i && Started(x, p, k.State(), pids, codes, seen)
    {
      BegunUpTo(cmds, i);
      var code, pid;
      code, pid, p, seen := NextCommand(k, sh, cmds, pipes, pids, i, codes, x, p, seen);
      if code.None? {
        return false, pids, codes, p, seen;
      }
      codes, pids := codes + [code.value], pids + [pid];
    }
    BegunUpTo(cmds, |cmds|);
    ok := true;
  }

  // ---------------------------------------------------------------------------
  // Steps 2b to 4: close, wait, return

  /** Every descriptor that leads to a pipe's write end is the standard output of the command
      that is to write there. */
  ghost predicate OneWriter(x: Context, procs: seq<int>, t: Tables) {
    forall s: Slot, j: nat :: s in t.fds && j + 1 < |x.cmds| == |procs| && t.fds[s] == x.WriteEnd(j) ==>
      s.proc == procs[j] && s.fd == 1
  }

  lemma WireIsWriteEnd(x: Context, i: nat, fd: nat, j: nat)
    requires x.Valid() && x.Wire(i, fd) == Some(x.WriteEnd(j))
    ensures i == j && fd == 1
  {
    var std := Slot(x.sh, fd);
    if std in x.t0.fds {
      HeldIsOpen(x.t0, std, multiset{});
    }
  }

  /** With its own copies closed the shell holds no pipe end, so that each write end is held
      by the command that writes to it and by nobody else. */
  lemma WritersAlone(x: Context, p: Progress, t: Tables)
    requires x.Valid() && Running(x, p, t) && p.closed == 2 * p.pipes
    ensures OneWriter(x, p.procs, t)
  {
    forall s: Slot, j: nat | s in t.fds && j + 1 < |x.cmds| == |p.procs| && t.fds[s] == x.WriteEnd(j)
      ensures s.proc == p.procs[j] && s.fd == 1
    {
      assert SlotOk(x, p, t, s);
      if s in x.t0.fds {
        HeldIsOpen(x.t0, s, multiset{});
      }
      assert s.proc != x.sh && s.proc >= x.t0.nextProc;
      var i :| 0 <= i < |p.procs| && p.procs[i] == s.proc && Get(t, s) == x.Wire(i, s.fd);
      WireIsWriteEnd(x, i, s.fd, j);
    }
  }

  /** A pipe's write end is open exactly while its writer holds it as its standard output:
      the reader sees the end of the stream when the writer is gone. */
  lemma WriteEndOpenIff(x: Context, procs: seq<int>, t: Tables, j: nat)
    requires Inv(t, multiset{}) && OneWriter(x, procs, t) && j + 1 < |x.cmds| == |procs|
    ensures x.WriteEnd(j) in t.handles <==> procs[j] >= 0 && Get(t, Slot(procs[j], 1)) == Some(x.WriteEnd(j))
  {
    OpenIffHeld(t, x.WriteEnd(j));
  }

  ghost predicate GoneBefore(x: Context, p: Progress, t: Tables, n: nat) {
    forall s: Slot, j: nat :: s in t.fds && j < n <= |p.procs| <= |x.cmds| && p.procs[j] == s.proc ==>
      x.cmds[j] == External(Runs(None)) || LeavesOrphan(x.cmds[j])
  }

  function WaitedCode(c: Command, i: nat, n: nat): int {
    if i < n then FinalCode(c) else FirstCode(c)
  }

  lemma GoneMore(x: Context, p: Progress, t: Tables, u: Tables, i: nat)
    requires i < |p.procs| <= |x.cmds| && GoneBefore(x, p, t, i)
    requires forall s: Slot :: s in u.fds ==> s in t.fds
    requires p.procs[i] < 0 || x.cmds[i] == External(Runs(None)) || LeavesOrphan(x.cmds[i]) ||
      forall s: Slot :: s in u.fds ==> s.proc != p.procs[i]
    ensures GoneBefore(x, p, u, i + 1)
  {
    forall s: Slot, j: nat | s in u.fds && j < i + 1 && p.procs[j] == s.proc
      ensures x.cmds[j] == External(Runs(None)) || LeavesOrphan(x.cmds[j])
    {
      if j < i {
        assert s in t.fds;
      }
    }
  }

  lemma ExitedOrphans(x: Context, p: Progress, t: Tables, u: Tables, i: nat)
    requires i < |p.procs| <= |x.cmds| && Orphans(x, p, t) && ProcsOk(x, p, t.nextProc)
    requires RunsProcess(x.cmds[i]) && p.procs[i] >= 0
    requires forall s: Slot :: Get(u, s) == if s.proc == p.procs[i] then None else Get(t, s)
    ensures Orphans(x, p, u)
  {
    forall j | 0 <= j < |p.procs| && LeavesOrphan(x.cmds[j]) ensures Slot(p.procs[j], 0) in u.fds {
      var s := Slot(p.procs[j], 0);
      assert Get(u, s) == if s.proc == p.procs[i] then None else Get(t, s);
    }
  }

  /** Waits for one child: when wait answers, the child has exited. */
  method Wait(k: Machine, pid: nat, status: Option<int>, pids: seq<int>, ghost codes: seq<int>,
              ghost x: Context, ghost p: Progress, ghost i: nat)
    requires x.Valid() && Running(x, p, k.State()) && Orphans(x, p, k.State()) && Noted(x, p, pids, codes)
    requires i < |p.procs| && pid == p.procs[i] && x.cmds[i] == External(Runs(status)) && GoneBefore(x, p, k.State(), i)
    modifies k
    ensures Running(x, p, k.State()) && Orphans(x, p, k.State()) && GoneBefore(x, p, k.State(), i + 1)
  {
    ghost var t := k.State();
    Elapse(k, pids, x, p);
    KeptOrphans(x, p, t, k.State(), pids, codes);
    ghost var u := k.State();
    if status.Some? {
      ExitStep(x, p, u, pid);
      k.ExitProcess(pid);
      ExitedOrphans(x, p, u, k.State(), i);
    }
    GoneMore(x, p, t, k.State(), i);
  }

  /** Step 3: waits for every command that runs. */
  method WaitAll(k: Machine, cmds: seq<Command>, pids: seq<int>, codes: seq<int>, ghost x: Context, ghost p: Progress)
      returns (codes': seq<int>)
    requires x.Valid() && Running(x, p, k.State()) && Orphans(x, p, k.State()) && Noted(x, p, pids, codes)
    requires cmds == x.cmds && |pids| == |p.procs| == |cmds|
    modifies k
    ensures Running(x, p, k.State()) && Orphans(x, p, k.State()) && GoneBefore(x, p, k.State(), |cmds|)
    ensures |codes'| == |cmds| && forall j :: 0 <= j < |cmds| ==> codes'[j] == FinalCode(cmds[j])
  {
    codes' := codes;
    for i := 0 to |pids|
      invariant Running(x, p, k.State()) && Orphans(x, p, k.State()) && GoneBefore(x, p, k.State(), i)
      invariant |codes'| == |cmds| && forall j :: 0 <= j < |cmds| ==> codes'[j] == WaitedCode(cmds[j], j, i)
    {
      if pids[i] > 0 {
        var status := cmds[i].run.status;
        Wait(k, pids[i], status, pids, codes, x, p, i);
        codes' := codes'[i := if status.Some? then status.value else 126];
      } else {
        GoneMore(x, p, k.State(), k.State(), i);
      }
    }
  }

  /** Every process that was there before has exactly the descriptors it had. */
  ghost predicate SameDescriptors(t: Tables, u: Tables) {
    forall s: Slot :: s.proc < t.nextProc ==> Get(u, s) == Get(t, s)
  }

  predicate HasOrphan(cmds: seq<Command>) {
    exists j :: 0 <= j < |cmds| && LeavesOrphan(cmds[j])
  }

  predicate AllWaited(cmds: seq<Command>) {
    forall j :: 0 <= j < |cmds| ==> cmds[j] != External(Runs(None))
  }

  ghost predicate PipesFit(t: Tables, sh: nat, cmds: seq<Command>) {
    |cmds| > 1 ==> |OpenFds(t, sh)| + 2 * (|cmds| - 1) <= MAX_HANDLES
  }

  /** Does the pipeline come to its end?  No builtin may throw, the pipes must fit in the
      shell's table, and a command on its own must be waited for with success. */
  ghost predicate Completes(t: Tables, sh: nat, cmds: seq<Command>) {
    && (forall j :: 0 <= j < |cmds| ==> !Throws(cmds[j]))
    && (|cmds| == 1 ==> AllWaited(cmds))
    && PipesFit(t, sh, cmds)
  }

  /** Whatever a process that is new still has is what its command was given. */
  ghost predicate OnlyWires(x: Context, procs: seq<int>, t: Tables) {
    forall s: Slot :: s in t.fds && s.proc >= x.t0.nextProc ==> IsWire(x, procs, t, s)
  }

  ghost predicate IsWire(x: Context, procs: seq<int>, t: Tables, s: Slot) {
    exists j :: 0 <= j < |procs| && procs[j] == s.proc && Get(t, s) == x.Wire(j, s.fd)
  }

  /** What the commands have as descriptors 0 and 1 while they run: the first reads and the last
      writes what the shell does, and of the pipe between two neighbours, the handles made j-th,
      the left one has the second end and the right one the first. */
  ghost predicate Joined(t: Tables, sh: nat, cmds: seq<Command>, seen: seq<Wiring>) {
    forall j :: 0 <= j < |seen| <= |cmds| && cmds[j] != External(NotFound) ==>
      && seen[j].Some?
      && seen[j].value.0 == (if j == 0 then Get(t, Slot(sh, 0)) else Some(t.nextId + 2 * (j - 1)))
      && seen[j].value.1 == (if j == |cmds| - 1 then Get(t, Slot(sh, 1)) else Some(t.nextId + 2 * j + 1))
  }

  lemma WiredAreJoined(x: Context, seen: seq<Wiring>)
    requires AllWired(x, seen)
    ensures Joined(x.t0, x.sh, x.cmds, seen)
  {
  }

  /** A command's code is the status waited for, a builtin's own, or 126 when it was not found,
      had no worker or could not be waited for. */
  lemma FinalIsCode(c: Command)
    requires !Throws(c)
    ensures match c {
      case External(Runs(Some(status))) => FinalCode(c) == status
      case Builtin(Some(code)) => FinalCode(c) == code
      case _ => FinalCode(c) == 126
    }
  {
  }

  lemma NewHaveWires(x: Context, p: Progress, t: Tables)
    requires x.Valid() && Running(x, p, t)
    ensures OnlyWires(x, p.procs, t)
  {
    forall s: Slot | s in t.fds && s.proc >= x.t0.nextProc ensures IsWire(x, p.procs, t, s) {
      assert SlotOk(x, p, t, s);
    }
  }

  lemma ClosedShell(x: Context, p: Progress, t: Tables)
    requires x.Valid() && Running(x, p, t) && p.closed == 2 * p.pipes
    ensures SameDescriptors(x.t0, t)
  {
    forall s: Slot | s.proc < x.t0.nextProc ensures Get(t, s) == Get(x.t0, s) {
      assert SlotOk(x, p, t, s);
    }
  }

  /** When everything was waited for, the tables are as they were at the start, unless some
      process never got its worker: then its descriptors are left behind. */
  lemma LeftBehind(x: Context, p: Progress, t: Tables)
    requires x.Valid() && Running(x, p, t) && p.closed == 2 * p.pipes && |p.procs| == |x.cmds| && AllWaited(x.cmds)
    requires Orphans(x, p, t) && GoneBefore(x, p, t, |x.cmds|)
    ensures SameDescriptors(x.t0, t)
    ensures HasOrphan(x.cmds) <==> t.fds != x.t0.fds
    ensures !HasOrphan(x.cmds) ==> t.handles == x.t0.handles && t.refs == x.t0.refs
  {
    ClosedShell(x, p, t);
    if HasOrphan(x.cmds) {
      var j :| 0 <= j < |x.cmds| && LeavesOrphan(x.cmds[j]);
      assert Slot(p.procs[j], 0) in t.fds;
    } else {
      forall s: Slot ensures Get(t, s) == Get(x.t0, s) {
        assert SlotOk(x, p, t, s);
      }
      SameGetSameFds(t, x.t0);
      SameFdsSameHandles(t, x.t0);
    }
  }

  lemma SameGetSameFds(t: Tables, u: Tables)
    requires forall s: Slot :: Get(t, s) == Get(u, s)
    ensures t.fds == u.fds
  {
    forall s: Slot ensures s in t.fds <==> s in u.fds
      ensures s in t.fds ==> t.fds[s] == u.fds[s]
    {
      assert Get(t, s) == Get(u, s);
    }
    assert t.fds.Keys == u.fds.Keys;
  }

  /** executeSingleCommand outside a pipeline: a failing wait is thrown on. */
  method ExecuteSingle(k: Machine, sh: nat, cmd: Command, ghost x: Context)
      returns (r: Result, ghost seen: seq<Wiring>, ghost p: Progress)
    requires x == Context(k.State(), sh, [cmd]) && x.Valid()
    modifies k
    ensures |p.procs| == 1 && p.pipes == p.closed == 0 && Running(x, p, k.State())
    ensures Orphans(x, p, k.State()) && GoneBefore(x, p, k.State(), 1) && |seen| == 1 && AllWired(x, seen)
    ensures r == if Throws(cmd) || cmd == External(Runs(None)) then Thrown else Exited(FinalCode(cmd))
  {
    StartState(x);
    var code, pid;
    ghost var proc, saw;
    ghost var p0 := Progress(0, 0, []);
    ghost var t := k.State();
    code, pid, proc, saw := StartCommand(k, sh, cmd, None, None, x, p0);
    OrphansMore(x, p0, t, k.State(), proc);
    p, seen := Progress(0, 0, [proc]), [saw];
    assert p0.procs + [proc] == [proc] && [] + [pid] == [pid];
    if code.None? {
      return Thrown, seen, p;
    }
    NotedMore(x, p0, [], [], proc, code.value, pid);
    assert [] + [code.value] == [code.value];
    if pid < 0 {
      return Exited(code.value), seen, p;
    }
    var status := cmd.run.status;
    Wait(k, pid, status, [pid], [code.value], x, p, 0);
    r := if status.Some? then Exited(status.value) else Thrown;
  }

  lemma ClosedOrphans(x: Context, p: Progress, p': Progress, t: Tables, u: Tables)
    requires x.Valid() && Orphans(x, p, t) && p'.procs == p.procs && ProcsOk(x, p, t.nextProc)
    requires forall s: Slot :: s.proc != x.sh ==> Get(u, s) == Get(t, s)
    ensures Orphans(x, p', u)
  {
    forall j | 0 <= j < |p.procs| <= |x.cmds| && LeavesOrphan(x.cmds[j]) ensures Slot(p.procs[j], 0) in u.fds {
      var s := Slot(p.procs[j], 0);
      assert Get(u, s) == Get(t, s);
    }
  }

  lemma NotedClosed(x: Context, p: Progress, p': Progress, pids: seq<int>, codes: seq<int>)
    requires Noted(x, p, pids, codes) && p'.procs == p.procs
    ensures Noted(x, p', pids, codes)
  {
  }

  /** Closes the pipes once the commands are started. */
  method CloseStarted(k: Machine, sh: nat, fdsToClose: seq<nat>, ghost pids: seq<int>, ghost codes: seq<int>,
                      ghost x: Context, ghost p: Progress, ghost seen: seq<Wiring>)
      returns (ghost p': Progress)
    requires sh == x.sh && x.Valid() && Started(x, p, k.State(), pids, codes, seen)
    requires ArePipeFds(x, fdsToClose, p.pipes)
    modifies k
    ensures p' == Progress(p.pipes, 2 * p.pipes, p.procs)
    ensures Running(x, p', k.State()) && Orphans(x, p', k.State()) && Noted(x, p', pids, codes)
  {
    ghost var t := k.State();
    CloseAll(k, sh, fdsToClose, x, p);
    p' := Progress(p.pipes, 2 * p.pipes, p.procs);
    ClosedOrphans(x, p, p', t, k.State());
    NotedClosed(x, p, p', pids, codes);
  }

  /** executePipeline for two commands or more. */
  method ExecuteMany(k: Machine, sh: nat, cmds: seq<Command>, ghost x: Context)
      returns (r: Result, ghost p: Progress, ghost seen: seq<Wiring>, ghost started: Tables)
    requires x == Context(k.State(), sh, cmds) && x.Valid() && |cmds| > 1
    modifies k
    ensures p.closed == 2 * p.pipes && Running(x, p, k.State()) && AllWired(x, seen)
    ensures r.Exited? <==> Completes(x.t0, sh, cmds)
    ensures |p.procs| == (if PipesFit(x.t0, sh, cmds) then Begun(cmds) else 0) && Orphans(x, p, k.State())
    ensures r.Exited? ==>
      && |p.procs| == |seen| == |cmds| && GoneBefore(x, p, k.State(), |cmds|)
      && Running(x, p, started) && r.code == FinalCode(cmds[|cmds| - 1])
  {
    seen, started := [], k.State();
    var made, pipes, fdsToClose := CreatePipes(k, sh, |cmds| - 1, x);
    p := Progress(|pipes|, 0, []);
    if !made {
      CloseAll(k, sh, fdsToClose, x, p);
      return Thrown, Progress(p.pipes, 2 * p.pipes, []), seen, started;
    }
    var ok, pids, codes;
    ok, pids, codes, p, seen := StartCommands(k, sh, cmds, pipes, x);
    p := CloseStarted(k, sh, fdsToClose, pids, codes, x, p, seen);
    started := k.State();
    if !ok {
      return Thrown, p, seen, started;
    }
    codes := WaitAll(k, cmds, pids, codes, x, p);
    return Exited(codes[|codes| - 1]), p, seen, started;
  }

  /** executePipeline.  `seen` is what each command had as descriptors 0 and 1 while it ran,
      `started` the tables once all commands of a pipe are started and the shell has closed
      its pipe descriptors, and `procs` the processes of the commands. */
  method ExecutePipeline(k: Machine, sh: nat, cmds: seq<Command>)
      returns (r: Result, ghost seen: seq<Wiring>, ghost started: Tables, ghost procs: seq<int>)
    requires Inv(k.State(), multiset{}) && sh < k.nextProc && HasStdio(k.State(), sh)
    modifies k
    ensures Inv(k.State(), multiset{}) && SameDescriptors(old(k.State()), k.State())
    ensures r.Exited? <==> Completes(old(k.State()), sh, cmds)
    ensures r.Exited? && |cmds| == 0 ==> r.code == 0
    ensures r.Exited? && |cmds| > 0 ==>
      match cmds[|cmds| - 1] {
        case External(Runs(Some(status))) => r.code == status
        case Builtin(Some(code)) => r.code == code
        case _ => r.code == 126
      }
    ensures r.Exited? && AllWaited(cmds) ==> (HasOrphan(cmds) <==> k.fds != old(k.fds))
    ensures r.Exited? && AllWaited(cmds) && !HasOrphan(cmds) ==> k.handles == old(k.handles) && k.refs == old(k.refs)
    ensures Joined(old(k.State()), sh, cmds, seen)
    ensures |procs| == if PipesFit(old(k.State()), sh, cmds) then Begun(cmds) else 0
    ensures OnlyWires(Context(old(k.State()), sh, cmds), procs, k.State())
    ensures Orphans(Context(old(k.State()), sh, cmds), Progress(0, 0, procs), k.State())
    ensures r.Exited? ==> |seen| == |procs| == |cmds|
    ensures r.Exited? && |cmds| > 1 ==> SameDescriptors(old(k.State()), started) && Inv(started, multiset{})
    ensures r.Exited? && |cmds| > 1 ==> OneWriter(Context(old(k.State()), sh, cmds), procs, started)
  {
    ghost var x := Context(k.State(), sh, cmds);
    seen, started, procs := [], k.State(), [];
    if |cmds| == 0 {
      return Exited(0), seen, started, procs;
    }
    ghost var p;
    if |cmds| == 1 {
      assert cmds == [cmds[0]];
      r, seen, p := ExecuteSingle(k, sh, cmds[0], x);
    } else {
      r, p, seen, started := ExecuteMany(k, sh, cmds, x);
      if r.Exited? {
        WritersAlone(x, p, started);
        ClosedShell(x, p, started);
      }
    }
    procs := p.procs;
    WiredAreJoined(x, seen);
    if r.Exited? {
      FinalIsCode(cmds[|cmds| - 1]);
    }
    ClosedShell(x, p, k.State());
    NewHaveWires(x, p, k.State());
    if r.Exited? && AllWaited(cmds) {
      LeftBehind(x, p, k.State());
    }
  }
}
