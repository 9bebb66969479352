/** The kernel's handle tables. */
module Kernel {
  // The tables of src/kernel/kernel. Every process maps its file descriptors to handles, and a
  // handle lives as long as its reference count says. The counts are proved to be the number of
  // descriptors, plus redirects still to be undone, that refer to the handle, after every
  // operation.

  import opened Options

  const MAX_HANDLES := 256

  /** A file descriptor of a process. */
  datatype Slot = Slot(proc: nat, fd: nat)

  /** The kernel's tables.  The descriptor maps of all processes are kept in one map, and
      the unique ids of handles and processes are drawn from counters. */
  datatype Tables = Tables(
    handles: set<nat>,
    refs: map<nat, int>,
    fds: map<Slot, nat>,
    nextFd: map<nat, nat>,
    nextId: nat,
    nextProc: nat)

  // ---------------------------------------------------------------------------
  // The operations, as functions of the tables

  function RefsOf(t: Tables, id: nat): int {
    if id in t.refs then t.refs[id] else 1
  }

  function NextFd(t: Tables, proc: nat): nat {
    if proc in t.nextFd then t.nextFd[proc] else 3
  }

  function Ref(t: Tables, id: nat): Tables {
    t.(refs := t.refs[id := RefsOf(t, id) + 1])
  }

  /** unrefHandle: the last reference closes the handle. */
  function Unref(t: Tables, id: nat): Tables {
    if RefsOf(t, id) - 1 > 0 then t.(refs := t.refs[id := RefsOf(t, id) - 1])
    else t.(handles := t.handles - {id}, refs := t.refs - {id})
  }

  /** closeHandle; a descriptor that is not open is an error and changes nothing. */
  function Close(t: Tables, s: Slot): Tables {
    if s in t.fds then Unref(t.(fds := t.fds - {s}), t.fds[s]) else t
  }

  function OpenFds(t: Tables, proc: nat): set<Slot> {
    set s | s in t.fds && s.proc == proc
  }

  /** allocHandle, for a handle made just before it. */
  function Alloc(t: Tables, proc: nat): Tables {
    var id, fd := t.nextId, NextFd(t, proc);
    t.(handles := t.handles + {id}, refs := t.refs[id := 1], nextId := id + 1,
       fds := t.fds[Slot(proc, fd) := id], nextFd := t.nextFd[proc := fd + 1])
  }

  /** createPipe: the receiving end first.  None is EMFILE. */
  function Pipe(t: Tables, proc: nat): Option<Tables> {
    if |OpenFds(t, proc)| + 2 > MAX_HANDLES then None else Some(Alloc(Alloc(t, proc), proc))
  }

  /** redirectHandle: the handle the target had is returned, not released. */
  function Redirect(t: Tables, proc: nat, target: nat, source: nat): Option<(Tables, nat)> {
    var to, from := Slot(proc, target), Slot(proc, source);
    if from !in t.fds || to !in t.fds then None
    else Some((Ref(t.(fds := t.fds[to := t.fds[from]]), t.fds[from]), t.fds[to]))
  }

  /** restoreHandle: the count of the handle given up goes down, but the handle stays in
      the table even when the count ends. */
  function Restore(t: Tables, proc: nat, target: nat, saved: nat): Option<Tables> {
    var to := Slot(proc, target);
    if to !in t.fds then None
    else
      var current := t.fds[to];
      var t' := t.(fds := t.fds[to := saved]);
      if RefsOf(t, current) - 1 > 0 then Some(t'.(refs := t.refs[current := RefsOf(t, current) - 1]))
      else Some(t'.(refs := t.refs - {current}))
  }

  /** setupStdioFd: a descriptor the parent does not have is left closed in the child. */
  function Inherit(t: Tables, child: nat, childFd: nat, parent: nat, parentFd: nat): Tables {
    var from := Slot(parent, parentFd);
    if from in t.fds then Ref(t.(fds := t.fds[Slot(child, childFd) := t.fds[from]]), t.fds[from]) else t
  }

  /** createProcess and setupStdio: the part of spawn before the worker is started, which is
      not undone when that fails. */
  function Prepare(t: Tables, parent: nat, stdin: nat, stdout: nat): Tables {
    InheritStdio(Born(t), t.nextProc, parent, stdin, stdout)
  }

  /** createProcess: only the process counter moves. */
  function Born(t: Tables): Tables {
    t.(nextProc := t.nextProc + 1)
  }

  /** setupStdio */
  function InheritStdio(t: Tables, child: nat, parent: nat, stdin: nat, stdout: nat): Tables {
    Inherit(Inherit(Inherit(t, child, 0, parent, stdin), child, 1, parent, stdout), child, 2, parent, 2)
  }

  /** What exit and forceExit do to the tables: every descriptor below n is closed. */
  function CloseBelow(t: Tables, proc: nat, n: nat): Tables {
    if n == 0 then t else Close(CloseBelow(t, proc, n - 1), Slot(proc, n - 1))
  }

  function Exit(t: Tables, proc: nat): Tables {
    CloseBelow(t, proc, NextFd(t, proc))
  }

  // ---------------------------------------------------------------------------
  // What the tables keep

  function Holders(fds: map<Slot, nat>, id: nat): set<Slot> {
    set s | s in fds && fds[s] == id
  }

  /** How many descriptors refer to a handle. */
  function Count(fds: map<Slot, nat>, id: nat): nat {
    |Holders(fds, id)|
  }

  /** A handle is open exactly when a descriptor refers to it or a redirect has put it
      aside, and its count is how many do. */
  ghost predicate ExactAt(t: Tables, saved: multiset<nat>, id: nat) {
    var n := Count(t.fds, id) + saved[id];
    && (id in t.handles <==> n > 0)
    && (id in t.refs <==> n > 0)
    && (n > 0 ==> t.refs[id] == n)
  }

  ghost predicate Counted(t: Tables, saved: multiset<nat>) {
    forall id :: ExactAt(t, saved, id)
  }

  /** Ids, processes and descriptors in use are below their counters. */
  ghost predicate Fresh(t: Tables) {
    && (forall id :: id in t.handles ==> id < t.nextId)
    && (forall s :: s in t.fds ==> s.proc < t.nextProc && s.fd < NextFd(t, s.proc))
    && (forall p :: p in t.nextFd ==> t.nextFd[p] >= 3 && p < t.nextProc)
    && t.nextProc > 0
  }

  ghost predicate Inv(t: Tables, saved: multiset<nat>) {
    Counted(t, saved) && Fresh(t)
  }

  lemma CountPut(fds: map<Slot, nat>, s: Slot, id: nat, h: nat)
    ensures Count(fds[s := id], h) ==
      Count(fds, h) - (if s in fds && fds[s] == h then 1 else 0) + (if h == id then 1 else 0)
  {
    var before, after := Holders(fds, h), Holders(fds[s := id], h);
    var rest := before - {s};
    assert after == if h == id then rest + {s} else rest;
    assert s in before <==> s in fds && fds[s] == h;
  }

  lemma CountDrop(fds: map<Slot, nat>, s: Slot, h: nat)
    requires s in fds
    ensures Count(fds - {s}, h) == Count(fds, h) - (if fds[s] == h then 1 else 0)
  {
    assert Holders(fds - {s}, h) == Holders(fds, h) - {s};
    assert s in Holders(fds, h) <==> fds[s] == h;
  }

  lemma HeldIsOpen(t: Tables, s: Slot, saved: multiset<nat>)
    requires Counted(t, saved) && s in t.fds
    ensures t.fds[s] in t.handles && t.fds[s] in t.refs && t.refs[t.fds[s]] > 0
  {
    assert ExactAt(t, saved, t.fds[s]);
    assert s in Holders(t.fds, t.fds[s]);
  }

  /** With no redirect pending, a handle is open exactly when some descriptor refers to it:
      a pipe end is closed, and its peer sees the end of the stream, with its last holder. */
  lemma OpenIffHeld(t: Tables, id: nat)
    requires Counted(t, multiset{})
    ensures id in t.handles <==> exists s :: s in t.fds && t.fds[s] == id
  {
    assert ExactAt(t, multiset{}, id);
    if s :| s in t.fds && t.fds[s] == id {
      assert s in Holders(t.fds, id);
    }
    if id in t.handles {
      var s :| s in Holders(t.fds, id);
    }
  }

  /** The descriptors alone determine the open handles and their counts. */
  lemma SameFdsSameHandles(t: Tables, u: Tables)
    requires Counted(t, multiset{}) && Counted(u, multiset{}) && t.fds == u.fds
    ensures t.handles == u.handles && t.refs == u.refs
  {
    forall id ensures id in t.handles <==> id in u.handles
      ensures id in t.refs <==> id in u.refs
      ensures id in t.refs ==> t.refs[id] == u.refs[id]
    {
      assert ExactAt(t, multiset{}, id) && ExactAt(u, multiset{}, id);
    }
    assert t.refs.Keys == u.refs.Keys;
  }

  lemma CloseCounts(t: Tables, s: Slot, saved: multiset<nat>)
    requires Counted(t, saved)
    ensures Counted(Close(t, s), saved)
  {
    forall id ensures ExactAt(Close(t, s), saved, id) {
      assert ExactAt(t, saved, id);
      if s in t.fds {
        CountDrop(t.fds, s, id);
        HeldIsOpen(t, s, saved);
      }
    }
  }

  lemma CloseKeeps(t: Tables, s: Slot, saved: multiset<nat>)
    requires Inv(t, saved)
    ensures Inv(Close(t, s), saved)
    ensures Close(t, s).fds == t.fds - {s}
  {
    CloseCounts(t, s, saved);
    assert Close(t, s).handles <= t.handles;
  }

  lemma AllocCounts(t: Tables, proc: nat, saved: multiset<nat>)
    requires Inv(t, saved)
    ensures Counted(Alloc(t, proc), saved)
  {
    var s := Slot(proc, NextFd(t, proc));
    assert s !in t.fds;
    forall id ensures ExactAt(Alloc(t, proc), saved, id) {
      assert ExactAt(t, saved, id);
      CountPut(t.fds, s, t.nextId, id);
    }
  }

  lemma AllocKeeps(t: Tables, proc: nat, saved: multiset<nat>)
    requires Inv(t, saved) && proc < t.nextProc
    ensures Inv(Alloc(t, proc), saved)
  {
    AllocCounts(t, proc, saved);
  }

  /** A process's first descriptor that is allocated is 3, and each later one is the next. */
  lemma DescriptorsInOrder(t: Tables, proc: nat)
    ensures var fd := if proc in t.nextFd then t.nextFd[proc] else 3;
      && Slot(proc, fd) in Alloc(t, proc).fds && Alloc(t, proc).fds[Slot(proc, fd)] == t.nextId
      && Alloc(t, proc).fds - {Slot(proc, fd)} == t.fds - {Slot(proc, fd)}
      && Alloc(t, proc).nextFd[proc] == fd + 1
  {
  }

  lemma PipeKeeps(t: Tables, proc: nat, saved: multiset<nat>)
    requires Inv(t, saved) && proc < t.nextProc && Pipe(t, proc).Some?
    ensures Inv(Pipe(t, proc).value, saved)
  {
    AllocKeeps(t, proc, saved);
    AllocKeeps(Alloc(t, proc), proc, saved);
  }

  /** A redirect adds a reference to its source and puts the target's handle aside. */
  lemma RedirectKeeps(t: Tables, proc: nat, target: nat, source: nat, saved: multiset<nat>)
    requires Inv(t, saved) && Redirect(t, proc, target, source).Some?
    ensures var (t', kept) := Redirect(t, proc, target, source).value;
      Inv(t', saved + multiset{kept})
  {
    var to, from := Slot(proc, target), Slot(proc, source);
    var (t', kept) := Redirect(t, proc, target, source).value;
    HeldIsOpen(t, from, saved);
    HeldIsOpen(t, to, saved);
    forall id ensures ExactAt(t', saved + multiset{kept}, id) {
      assert ExactAt(t, saved, id);
      CountPut(t.fds, to, t.fds[from], id);
    }
  }

  /** Undoing a redirect keeps the counts exactly when the handle given up has another
      reference: when it has none, its count is dropped but it is never closed. */
  lemma RestoreKeepsIff(t: Tables, proc: nat, target: nat, kept: nat, saved: multiset<nat>)
    requires Inv(t, saved + multiset{kept}) && Slot(proc, target) in t.fds
    ensures Inv(Restore(t, proc, target, kept).value, saved) <==> RefsOf(t, t.fds[Slot(proc, target)]) > 1
  {
    var to := Slot(proc, target);
    var current, t' := t.fds[to], Restore(t, proc, target, kept).value;
    HeldIsOpen(t, to, saved + multiset{kept});
    if t.refs[current] > 1 {
      forall id ensures ExactAt(t', saved, id) {
        assert ExactAt(t, saved + multiset{kept}, id);
        CountPut(t.fds, to, kept, id);
      }
    } else {
      assert current in t'.handles && current !in t'.refs;
      assert !ExactAt(t', saved, current);
    }
  }

  /** Redirect, close the source, restore. */
  function RedirectCloseRestore(t: Tables, proc: nat, target: nat, source: nat): Tables
    requires Slot(proc, target) in t.fds && Slot(proc, source) in t.fds && target != source
  {
    var (t', kept) := Redirect(t, proc, target, source).value;
    Restore(Close(t', Slot(proc, source)), proc, target, kept).value
  }

  /** Closing the source while the redirect lasts loses its handle exactly when the source was
      its only descriptor: it stays open, with no count, and nothing refers to it. */
  lemma SourceIsLostIff(t: Tables, proc: nat, target: nat, source: nat)
    requires Inv(t, multiset{}) && target != source
    requires Slot(proc, target) in t.fds && Slot(proc, source) in t.fds
    ensures var h, t' := t.fds[Slot(proc, source)], RedirectCloseRestore(t, proc, target, source);
      && (Inv(t', multiset{}) <==> RefsOf(t, h) > 1)
      && (!Inv(t', multiset{}) ==> h in t'.handles && h !in t'.refs && forall s :: s in t'.fds ==> t'.fds[s] != h)
  {
    var to, from := Slot(proc, target), Slot(proc, source);
    var (t1, kept) := Redirect(t, proc, target, source).value;
    var t2 := Close(t1, from);
    RedirectKeeps(t, proc, target, source, multiset{});
    assert multiset{} + multiset{kept} == multiset{kept};
    CloseKeeps(t1, from, multiset{kept});
    RestoreKeepsIff(t2, proc, target, kept, multiset{});
    HeldIsOpen(t, from, multiset{});
    assert RefsOf(t2, t.fds[from]) == RefsOf(t, t.fds[from]);
    if RefsOf(t, t.fds[from]) == 1 {
      OnlyHolder(t, from);
    }
  }

  lemma OnlyHolder(t: Tables, s: Slot)
    requires Counted(t, multiset{}) && s in t.fds && RefsOf(t, t.fds[s]) == 1
    ensures forall u :: u in t.fds && t.fds[u] == t.fds[s] ==> u == s
  {
    var h := t.fds[s];
    var others := Holders(t.fds - {s}, h);
    assert ExactAt(t, multiset{}, h) && s in Holders(t.fds, h);
    CountDrop(t.fds, s, h);
    forall u | u in t.fds && t.fds[u] == h ensures u == s {
      assert u != s ==> u in others;
    }
  }

  /** So it goes wrong from every state in which a process has a descriptor to redirect and room
      for a pipe: redirect it to the new pipe's first end, close that, and restore. */
  lemma PipeEndIsLost(t: Tables, proc: nat, target: nat)
    requires Inv(t, multiset{}) && Slot(proc, target) in t.fds && Pipe(t, proc).Some?
    ensures var t1, source := Pipe(t, proc).value, NextFd(t, proc);
      && Slot(proc, target) in t1.fds && Slot(proc, source) in t1.fds && target != source
      && !Inv(RedirectCloseRestore(t1, proc, target, source), multiset{})
  {
    PipeKeeps(t, proc, multiset{});
    SourceIsLostIff(Pipe(t, proc).value, proc, target, NextFd(t, proc));
  }

  lemma InheritKeeps(t: Tables, child: nat, childFd: nat, parent: nat, parentFd: nat, saved: multiset<nat>)
    requires Inv(t, saved) && child < t.nextProc && childFd < 3 && Slot(child, childFd) !in t.fds
    ensures Inv(Inherit(t, child, childFd, parent, parentFd), saved)
  {
    var from, to := Slot(parent, parentFd), Slot(child, childFd);
    if from in t.fds {
      var t' := Inherit(t, child, childFd, parent, parentFd);
      HeldIsOpen(t, from, saved);
      forall id ensures ExactAt(t', saved, id) {
        assert ExactAt(t, saved, id);
        CountPut(t.fds, to, t.fds[from], id);
      }
    }
  }

  lemma BornKeeps(t: Tables, saved: multiset<nat>)
    requires Inv(t, saved)
    ensures Inv(Born(t), saved) && forall fd :: Slot(t.nextProc, fd) !in t.fds
  {
    forall id ensures ExactAt(Born(t), saved, id) {
      assert ExactAt(t, saved, id);
    }
  }

  lemma PrepareKeeps(t: Tables, parent: nat, stdin: nat, stdout: nat, saved: multiset<nat>)
    requires Inv(t, saved) && parent < t.nextProc
    ensures Inv(Prepare(t, parent, stdin, stdout), saved)
  {
    var child, t0 := t.nextProc, Born(t);
    BornKeeps(t, saved);
    InheritKeeps(t0, child, 0, parent, stdin, saved);
    var t1 := Inherit(t0, child, 0, parent, stdin);
    InheritKeeps(t1, child, 1, parent, stdout, saved);
    var t2 := Inherit(t1, child, 1, parent, stdout);
    InheritKeeps(t2, child, 2, parent, 2, saved);
  }

  lemma {:induction false} CloseBelowKeeps(t: Tables, proc: nat, n: nat, saved: multiset<nat>)
    requires Inv(t, saved)
    ensures Inv(CloseBelow(t, proc, n), saved)
  {
    if n == 0 {
    } else {
      CloseBelowKeeps(t, proc, n - 1, saved);
      CloseKeeps(CloseBelow(t, proc, n - 1), Slot(proc, n - 1), saved);
    }
  }

  lemma {:induction false} CloseBelowFds(t: Tables, proc: nat, n: nat)
    ensures CloseBelow(t, proc, n).nextProc == t.nextProc
    ensures forall s :: s in CloseBelow(t, proc, n).fds <==> s in t.fds && !(s.proc == proc && s.fd < n)
    ensures forall s :: s in CloseBelow(t, proc, n).fds ==> CloseBelow(t, proc, n).fds[s] == t.fds[s]
  {
    if n == 0 {
    } else {
      CloseBelowFds(t, proc, n - 1);
    }
  }

  /** A process that exits gives up all its descriptors and nothing else. */
  lemma ExitKeeps(t: Tables, proc: nat, saved: multiset<nat>)
    requires Inv(t, saved)
    ensures Inv(Exit(t, proc), saved)
    ensures Exit(t, proc).fds == t.fds - OpenFds(t, proc) && Exit(t, proc).nextProc == t.nextProc
  {
    CloseBelowKeeps(t, proc, NextFd(t, proc), saved);
    CloseBelowFds(t, proc, NextFd(t, proc));
  }

  // ---------------------------------------------------------------------------
  // The kernel object

  /** The kernel, with the operations a shell calls.  Each is the function above it of the
      tables it found. */
  class Machine {
    var handles: set<nat>
    var refs: map<nat, int>
    var fds: map<Slot, nat>
    var nextFd: map<nat, nat>
    var nextId: nat
    var nextProc: nat

    function State(): Tables
      reads this
    {
      Tables(handles, refs, fds, nextFd, nextId, nextProc)
    }

    method RefHandle(id: nat)
      modifies this
      ensures State() == Ref(old(State()), id)
    {
      var n := if id in refs then refs[id] else 1;
      refs := refs[id := n + 1];
    }

    method UnrefHandle(id: nat)
      modifies this
      ensures State() == Unref(old(State()), id)
    {
      var n := (if id in refs then refs[id] else 1) - 1;
      if n > 0 {
        refs := refs[id := n];
        return;
      }
      handles := handles - {id};
      refs := refs - {id};
    }

    method AllocHandle(proc: nat)
      modifies this
      ensures State() == Alloc(old(State()), proc)
    {
      handles := handles + {nextId};
      refs := refs[nextId := 1];
      var fd := if proc in nextFd then nextFd[proc] else 3;
      nextFd := nextFd[proc := fd + 1];
      fds := fds[Slot(proc, fd) := nextId];
      nextId := nextId + 1;
    }

    method CreatePipe(proc: nat) returns (r: Option<(nat, nat)>)
      modifies this
      ensures r.Some? == Pipe(old(State()), proc).Some?
      ensures r.Some? ==> State() == Pipe(old(State()), proc).value
      ensures r.Some? ==> r.value == (NextFd(old(State()), proc), NextFd(old(State()), proc) + 1)
      ensures r.None? ==> State() == old(State())
    {
      if |set s | s in fds && s.proc == proc| + 2 > MAX_HANDLES {
        return None;
      }
      var recvFd := if proc in nextFd then nextFd[proc] else 3;
      AllocHandle(proc);
      AllocHandle(proc);
      return Some((recvFd, recvFd + 1));
    }

    method CloseHandle(proc: nat, fd: nat) returns (ok: bool)
      modifies this
      ensures ok == (Slot(proc, fd) in old(fds))
      ensures State() == Close(old(State()), Slot(proc, fd))
    {
      var s := Slot(proc, fd);
      if s !in fds {
        return false;
      }
      var id := fds[s];
      fds := fds - {s};
      UnrefHandle(id);
      return true;
    }

    method RedirectHandle(proc: nat, target: nat, source: nat) returns (r: Option<nat>)
      modifies this
      ensures r.Some? == Redirect(old(State()), proc, target, source).Some?
      ensures r.Some? ==> (State(), r.value) == Redirect(old(State()), proc, target, source).value
      ensures r.None? ==> State() == old(State())
    {
      if Slot(proc, source) !in fds {
        return None;
      }
      var sourceId := fds[Slot(proc, source)];
      if Slot(proc, target) !in fds {
        return None;
      }
      var saved := fds[Slot(proc, target)];
      fds := fds[Slot(proc, target) := sourceId];
      RefHandle(sourceId);
      return Some(saved);
    }

    method RestoreHandle(proc: nat, target: nat, saved: nat) returns (ok: bool)
      modifies this
      ensures ok ==> Restore(old(State()), proc, target, saved) == Some(State())
      ensures Slot(proc, target) !in old(fds) ==> !ok && State() == old(State())
      ensures Slot(proc, target) in old(fds) ==> Restore(old(State()), proc, target, saved) == Some(State())
    {
      if Slot(proc, target) !in fds {
        return false;
      }
      var current := fds[Slot(proc, target)];
      fds := fds[Slot(proc, target) := saved];
      var n := (if current in refs then refs[current] else 1) - 1;
      if n > 0 {
        refs := refs[current := n];
      } else if n == 0 {
        refs := refs - {current};
      } else {
        refs := refs - {current};
        return false;
      }
      return true;
    }

    method SetupStdioFd(child: nat, childFd: nat, parent: nat, parentFd: nat)
      modifies this
      ensures State() == Inherit(old(State()), child, childFd, parent, parentFd)
    {
      if Slot(parent, parentFd) in fds {
        var id := fds[Slot(parent, parentFd)];
        fds := fds[Slot(child, childFd) := id];
        RefHandle(id);
      }
    }

    method CreateProcess() returns (child: nat)
      modifies this
      ensures child == old(nextProc) && State() == Born(old(State()))
    {
      child := nextProc;
      nextProc := nextProc + 1;
    }

    method SetupStdio(child: nat, parent: nat, stdin: nat, stdout: nat)
      modifies this
      ensures State() == InheritStdio(old(State()), child, parent, stdin, stdout)
    {
      SetupStdioFd(child, 0, parent, stdin);
      SetupStdioFd(child, 1, parent, stdout);
      SetupStdioFd(child, 2, parent, 2);
    }

    /** spawn, given whether the worker starts.  A worker that does not start leaves the
        descriptors of the process that never came to be. */
    method Spawn(parent: nat, stdin: Option<nat>, stdout: Option<nat>, workerStarts: bool) returns (pid: Option<nat>)
      modifies this
      ensures State() == Prepare(old(State()), parent, Default(stdin, 0), Default(stdout, 1))
      ensures pid == if workerStarts then Some(old(nextProc)) else None
    {
      var child := CreateProcess();
      SetupStdio(child, parent, Default(stdin, 0), Default(stdout, 1));
      if !workerStarts {
        return None;
      }
      return Some(child);
    }

    method ExitProcess(proc: nat)
      modifies this
      ensures State() == Exit(old(State()), proc)
    {
      var n := if proc in nextFd then nextFd[proc] else 3;
      for fd := 0 to n
        invariant State() == CloseBelow(old(State()), proc, fd)
      {
        var _ := CloseHandle(proc, fd);
      }
    }
  }

  function Default(fd: Option<nat>, standard: nat): nat {
    if fd.Some? then fd.value else standard
  }
}
