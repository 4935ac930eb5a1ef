// The references that keep a mount from being unmounted, under all
// interleavings of the tasks that open, close, mount and unmount.
//
// Between two steps of one task any other task may run.  A step is what a task
// does under one hold of the mount mutex, or one change of a counter or a table
// entry.  That a change of the counter is one step is an assumption: the code
// makes it outside the mutex, on a plain integer.

module VfsRefs {
  import opened Options
  import opened Sequences

  // A mount, a task, a file descriptor and a directory stream by number
  datatype Task =
    | Idle
    | Found(m: nat)                       // _find_mount has counted a reference
    | FoundTwo(m: nat, m2: nat)           // both paths of a rename
    | Using(fd: nat)                      // in the driver's open or close
    | Freeing(fd: nat)                    // given back, table entry not yet cleared
    | OpeningDir(m: nat, d: nat)          // in the driver's opendir, dirp->mp already set
    | ClosingDir(m: nat, d: nat)          // in the driver's closedir, dirp->mp already read
    | Checked(m: nat, force: bool)        // vfs_umount after check_mount, without the mutex
    | Unmounting(m: nat, force: bool)     // vfs_umount past the counter, with the mutex
    | Mounting(m: nat)                    // vfs_mount in the driver, with the mutex

  // A descriptor or a directory stream.  `Open` owns a reference to its mount,
  // `Released` still names one but owns none, `Free` is not in use; a free
  // descriptor keeps the mount of its last use.
  datatype Fd = Free(last: Option<nat>) | Open(m: nat) | Released(m: nat)

  function MountOf(e: Fd): Option<nat> {
    if e.Free? then e.last else Some(e.m)
  }

  // The mount list, the open_files counters, the tables of open files and of
  // directory streams, the tasks, the holder of the mount mutex, the mounts
  // whose driver has no directories, and how many references opendir has dropped
  // without counting them down
  datatype State = State(mounts: seq<nat>, count: map<nat, int>, fds: seq<Fd>, dirs: seq<Fd>,
                         tasks: seq<Task>, mutex: Option<nat>, nodirs: set<nat>, lost: map<nat, int>)

  // open_files has 16 bits; `count` is what was added to it and taken away.
  const WRAP := 0x1_0000

  function Get(c: map<nat, int>, m: nat): int {
    if m in c then c[m] else 0
  }

  datatype Action =
    | Find(t: nat, m: nat)                // _find_mount of a path operation, open or opendir
    | FindSecond(t: nat, m: nat)          // _find_mount for the target of a rename
    | GiveBack(t: nat)                    // open_files-- at the end of the operation
    | GiveBackFirst(t: nat)               // open_files-- for the source of a rename
    | InitFd(t: nat, fd: nat)             // _init_fd: the reference goes to the descriptor
    | Opened(t: nat)                      // the driver's open succeeded
    | StartClose(t: nat, fd: nat)         // vfs_close before the driver's close
    | Release(t: nat)                     // _free_fd: open_files--
    | Clear(t: nat)                       // _free_fd: the entry is free again
    | LoseDir(t: nat)                     // opendir on a driver without directories
    | StartOpenDir(t: nat, d: nat)        // opendir before the driver's: the reference goes to the stream
    | OpenedDir(t: nat)                   // the driver's opendir succeeded
    | FailOpenDir(t: nat)                 // the driver's opendir failed: open_files--, dirp->mp stays
    | StartCloseDir(t: nat, d: nat)       // closedir before the driver's
    | WipeDir(t: nat)                     // the stream is wiped, the reference still to be given back
    | MountStart(t: nat, m: nat)
    | MountEnd(t: nat, ok: bool)
    | UmountCheck(t: nat, m: nat, force: bool)
    | UmountRefuse(t: nat)                // EBUSY
    | UmountLock(t: nat)
    | UmountEnd(t: nat, ok: bool)         // the driver's umount and clist_remove

  function Without(ms: seq<nat>, m: nat): (r: seq<nat>)
    ensures forall x {:trigger x in r} :: x in r <==> x in ms && x != m
  {
    if ms == [] then []
    else if ms[0] == m then Without(ms[1..], m)
    else
      var rest := Without(ms[1..], m);
      assert forall x {:trigger x in ms} :: x in ms <==> x == ms[0] || x in ms[1..];
      [ms[0]] + rest
  }

  // The steps of the tasks, under the tests the code makes and no others.
  ghost predicate Next(s: State, a: Action, s': State) {
    a.t < |s.tasks| &&
    var pc := s.tasks[a.t];
    match a
    case Find(t, m) =>
      && pc == Idle && s.mutex.None? && m in s.mounts
      && s' == s.(tasks := s.tasks[t := Found(m)], count := s.count[m := Get(s.count, m) + 1])
    case FindSecond(t, m) =>
      && pc.Found? && s.mutex.None? && m in s.mounts
      && s' == s.(tasks := s.tasks[t := FoundTwo(pc.m, m)], count := s.count[m := Get(s.count, m) + 1])
    case GiveBack(t) =>
      && pc.Found?
      && s' == s.(tasks := s.tasks[t := Idle], count := s.count[pc.m := Get(s.count, pc.m) - 1])
    case GiveBackFirst(t) =>
      && pc.FoundTwo?
      && s' == s.(tasks := s.tasks[t := Found(pc.m2)], count := s.count[pc.m := Get(s.count, pc.m) - 1])
    case InitFd(t, fd) =>
      && pc.Found? && fd < |s.fds| && s.fds[fd].Free?
      && s' == s.(tasks := s.tasks[t := Using(fd)], fds := s.fds[fd := Open(pc.m)])
    case Opened(t) =>
      pc.Using? && s' == s.(tasks := s.tasks[t := Idle])
    case StartClose(t, fd) =>
      && pc == Idle && fd < |s.fds| && !s.fds[fd].Free?
      && s' == s.(tasks := s.tasks[t := Using(fd)])
    case Release(t) =>
      && pc.Using? && pc.fd < |s.fds|
      && var e := s.fds[pc.fd];
         s' == s.(tasks := s.tasks[t := Freeing(pc.fd)], fds := s.fds[pc.fd := if e.Open? then Released(e.m) else e],
                  count := if MountOf(e).Some? then s.count[MountOf(e).value := Get(s.count, MountOf(e).value) - 1]
                    else s.count)
    case Clear(t) =>
      && pc.Freeing? && pc.fd < |s.fds|
      && s' == s.(tasks := s.tasks[t := Idle], fds := s.fds[pc.fd := Free(MountOf(s.fds[pc.fd]))])
    case LoseDir(t) =>
      && pc.Found? && pc.m in s.nodirs
      && s' == s.(tasks := s.tasks[t := Idle], lost := s.lost[pc.m := Get(s.lost, pc.m) + 1])
    case StartOpenDir(t, d) =>
      && pc.Found? && pc.m !in s.nodirs && d < |s.dirs|
      && s' == s.(tasks := s.tasks[t := OpeningDir(pc.m, d)], dirs := s.dirs[d := Open(pc.m)])
    case OpenedDir(t) =>
      pc.OpeningDir? && s' == s.(tasks := s.tasks[t := Idle])
    case FailOpenDir(t) =>
      && pc.OpeningDir? && pc.d < |s.dirs|
      && s' == s.(tasks := s.tasks[t := Idle],
                  dirs := s.dirs[pc.d := if s.dirs[pc.d] == Open(pc.m) then Released(pc.m) else s.dirs[pc.d]],
                  count := s.count[pc.m := Get(s.count, pc.m) - 1])
    case StartCloseDir(t, d) =>
      && pc == Idle && d < |s.dirs| && !s.dirs[d].Free?
      && s' == s.(tasks := s.tasks[t := ClosingDir(s.dirs[d].m, d)])
    case WipeDir(t) =>
      && pc.ClosingDir? && pc.d < |s.dirs|
      && s' == s.(tasks := s.tasks[t := Found(pc.m)], dirs := s.dirs[pc.d := Free(None)])
    case MountStart(t, m) =>
      && pc == Idle && s.mutex.None? && m !in s.mounts
      && s' == s.(tasks := s.tasks[t := Mounting(m)], mutex := Some(t))
    case MountEnd(t, ok) =>
      && pc.Mounting?
      && s' == s.(tasks := s.tasks[t := Idle], mutex := None, mounts := if ok then s.mounts + [pc.m] else s.mounts)
    case UmountCheck(t, m, force) =>
      && pc == Idle && s.mutex.None? && m in s.mounts
      && s' == s.(tasks := s.tasks[t := Checked(m, force)])
    case UmountRefuse(t) =>
      && pc.Checked? && s.mutex.None? && Get(s.count, pc.m) % WRAP > 0 && !pc.force
      && s' == s.(tasks := s.tasks[t := Idle])
    case UmountLock(t) =>
      && pc.Checked? && s.mutex.None? && (Get(s.count, pc.m) % WRAP == 0 || pc.force)
      && s' == s.(tasks := s.tasks[t := Unmounting(pc.m, pc.force)], mutex := Some(t))
    case UmountEnd(t, ok) =>
      && pc.Unmounting?
      && s' == s.(tasks := s.tasks[t := Idle], mutex := None,
                  mounts := if ok then Without(s.mounts, pc.m) else s.mounts)
  }

  // ---- What refers to a mount ---------------------------------------------------------

  // References a task holds in the middle of an operation
  function TaskRefs(pc: Task, m: nat): nat {
    match pc
    case Found(n) => if n == m then 1 else 0
    case FoundTwo(n, n2) => (if n == m then 1 else 0) + (if n2 == m then 1 else 0)
    case _ => 0
  }

  function InFlight(tasks: seq<Task>, m: nat): nat {
    if tasks == [] then 0 else InFlight(tasks[..|tasks| - 1], m) + TaskRefs(tasks[|tasks| - 1], m)
  }

  function EntryRefs(e: Fd, m: nat): nat {
    if e == Open(m) then 1 else 0
  }

  function InTable(fds: seq<Fd>, m: nat): nat {
    if fds == [] then 0 else InTable(fds[..|fds| - 1], m) + EntryRefs(fds[|fds| - 1], m)
  }

  // Open files, open directories and operations under way on a mount
  function Refs(s: State, m: nat): nat {
    InTable(s.fds, m) + InTable(s.dirs, m) + InFlight(s.tasks, m)
  }

  lemma {:induction false} InFlightUpdate(tasks: seq<Task>, t: nat, pc: Task, m: nat)
    requires t < |tasks|
    ensures InFlight(tasks[t := pc], m) == InFlight(tasks, m) - TaskRefs(tasks[t], m) + TaskRefs(pc, m)
    decreases |tasks|
  {
    var front := tasks[..|tasks| - 1];
    if t < |tasks| - 1 {
      InFlightUpdate(front, t, pc, m);
      assert tasks[t := pc][..|tasks| - 1] == front[t := pc];
    } else {
      assert tasks[t := pc][..|tasks| - 1] == front;
    }
  }

  lemma {:induction false} InTableUpdate(fds: seq<Fd>, i: nat, e: Fd, m: nat)
    requires i < |fds|
    ensures InTable(fds[i := e], m) == InTable(fds, m) - EntryRefs(fds[i], m) + EntryRefs(e, m)
    decreases |fds|
  {
    var front := fds[..|fds| - 1];
    if i < |fds| - 1 {
      InTableUpdate(front, i, e, m);
      assert fds[i := e][..|fds| - 1] == front[i := e];
    } else {
      assert fds[i := e][..|fds| - 1] == front;
    }
  }

  // No reference means none of any kind.
  lemma {:induction false} NoneInTable(fds: seq<Fd>, m: nat)
    requires InTable(fds, m) == 0
    ensures forall i {:trigger fds[i]} :: 0 <= i < |fds| ==> fds[i] != Open(m)
    decreases |fds|
  {
    if fds != [] {
      NoneInTable(fds[..|fds| - 1], m);
      assert forall i {:trigger fds[i]} :: 0 <= i < |fds| - 1 ==> fds[i] == fds[..|fds| - 1][i];
    }
  }

  lemma {:induction false} NoneInFlight(tasks: seq<Task>, m: nat)
    requires InFlight(tasks, m) == 0
    ensures forall t {:trigger tasks[t]} :: 0 <= t < |tasks| ==> TaskRefs(tasks[t], m) == 0
    decreases |tasks|
  {
    if tasks != [] {
      NoneInFlight(tasks[..|tasks| - 1], m);
      assert forall t {:trigger tasks[t]} :: 0 <= t < |tasks| - 1 ==> tasks[t] == tasks[..|tasks| - 1][t];
    }
  }

  // ---- The books ---------------------------------------------------------------------------

  ghost predicate Counted(s: State, m: nat) {
    Get(s.count, m) == Refs(s, m) + Get(s.lost, m) && Get(s.lost, m) >= 0
  }

  ghost predicate AllCounted(s: State) {
    forall m: nat {:trigger Counted(s, m)} :: Counted(s, m)
  }

  function Entry(xs: seq<Fd>, i: nat): Fd {
    if i < |xs| then xs[i] else Free(None)
  }

  // How far a step moves the counter of m away from its references
  function Drift(s: State, a: Action, m: nat): int
    requires a.t < |s.tasks|
  {
    var pc := s.tasks[a.t];
    match a
    case Release(t) =>
      // the descriptor was given back before
      if pc.Using? && MountOf(Entry(s.fds, pc.fd)) == Some(m) && !Entry(s.fds, pc.fd).Open? then -1 else 0
    case Clear(t) =>
      // the descriptor is in use again
      if pc.Freeing? then EntryRefs(Entry(s.fds, pc.fd), m) else 0
    case StartOpenDir(t, d) =>
      // the stream was open
      EntryRefs(Entry(s.dirs, d), m)
    case FailOpenDir(t) =>
      // the stream was closed, or opened again, in the meantime
      if pc.OpeningDir? && pc.m == m && Entry(s.dirs, pc.d) != Open(m) then -1 else 0
    case WipeDir(t) =>
      // the stream had failed to open, or was closed in the meantime
      if pc.ClosingDir? then EntryRefs(Entry(s.dirs, pc.d), m) - (if pc.m == m then 1 else 0) else 0
    case _ => 0
  }

  // The guards under which no counter drifts
  predicate KeepsBooks(s: State, a: Action)
    requires a.t < |s.tasks|
  {
    var pc := s.tasks[a.t];
    match a
    case Release(t) => pc.Using? ==> Entry(s.fds, pc.fd).Open? || MountOf(Entry(s.fds, pc.fd)) == None
    case Clear(t) => pc.Freeing? ==> !Entry(s.fds, pc.fd).Open?
    case StartOpenDir(t, d) => !Entry(s.dirs, d).Open?
    case FailOpenDir(t) => pc.OpeningDir? ==> Entry(s.dirs, pc.d) == Open(pc.m)
    case WipeDir(t) => pc.ClosingDir? ==> Entry(s.dirs, pc.d) == Open(pc.m)
    case _ => true
  }

  // The part of the books one step touches
  lemma Moved(s: State, a: Action, s': State, m: nat)
    requires Next(s, a, s')
    ensures a.t < |s'.tasks| == |s.tasks| && s'.tasks == s.tasks[a.t := s'.tasks[a.t]]
    ensures InFlight(s'.tasks, m) == InFlight(s.tasks, m) - TaskRefs(s.tasks[a.t], m) + TaskRefs(s'.tasks[a.t], m)
  {
    hide InFlight, TaskRefs;
    assert s'.tasks == s.tasks[a.t := s'.tasks[a.t]];
    InFlightUpdate(s.tasks, a.t, s'.tasks[a.t], m);
  }

  // The counter less what it should be
  function Excess(s: State, m: nat): int {
    Get(s.count, m) - Refs(s, m) - Get(s.lost, m)
  }

  lemma DriftStep(s: State, a: Action, s': State, m: nat)
    requires Next(s, a, s')
    ensures Excess(s', m) == Excess(s, m) + Drift(s, a, m)
  {
    hide Next, Drift, Excess;
    if a.InitFd? || a.Release? || a.Clear? {
      DriftFd(s, a, s', m);
    } else if a.StartOpenDir? || a.FailOpenDir? || a.WipeDir? {
      DriftDir(s, a, s', m);
    } else {
      DriftNone(s, a, s', m);
    }
  }

  lemma DriftFd(s: State, a: Action, s': State, m: nat)
    requires (a.InitFd? || a.Release? || a.Clear?) && Next(s, a, s')
    ensures Excess(s', m) == Excess(s, m) + Drift(s, a, m)
  {
    hide InFlight, InTable;
    var fd := if a.InitFd? then a.fd else s.tasks[a.t].fd;
    assert s'.fds == s.fds[fd := s'.fds[fd]];
    Moved(s, a, s', m);
    InTableUpdate(s.fds, fd, s'.fds[fd], m);
  }

  lemma DriftDir(s: State, a: Action, s': State, m: nat)
    requires (a.StartOpenDir? || a.FailOpenDir? || a.WipeDir?) && Next(s, a, s')
    ensures Excess(s', m) == Excess(s, m) + Drift(s, a, m)
  {
    hide InFlight, InTable;
    var d := if a.StartOpenDir? then a.d else s.tasks[a.t].d;
    assert s'.dirs == s.dirs[d := s'.dirs[d]];
    Moved(s, a, s', m);
    InTableUpdate(s.dirs, d, s'.dirs[d], m);
  }

  lemma DriftNone(s: State, a: Action, s': State, m: nat)
    requires !a.InitFd? && !a.Release? && !a.Clear? && !a.StartOpenDir? && !a.FailOpenDir? && !a.WipeDir?
    requires Next(s, a, s')
    ensures Excess(s', m) == Excess(s, m) + Drift(s, a, m)
  {
    hide InFlight, InTable;
    Moved(s, a, s', m);
  }

  lemma LostStep(s: State, a: Action, s': State, m: nat)
    requires Next(s, a, s')
    ensures Get(s'.lost, m) == Get(s.lost, m) + if LosesOne(s, a, m) then 1 else 0
    ensures s'.nodirs == s.nodirs && (LosesOne(s, a, m) ==> m in s.nodirs)
  {
    hide Without;
  }

  // opendir on a mount whose driver has no directories
  predicate LosesOne(s: State, a: Action, m: nat) {
    a.LoseDir? && a.t < |s.tasks| && s.tasks[a.t] == Found(m)
  }

  lemma KeepsBooksIs(s: State, a: Action)
    requires a.t < |s.tasks|
    ensures KeepsBooks(s, a) <==> forall m: nat {:trigger Drift(s, a, m)} :: Drift(s, a, m) == 0
  {
    var pc := s.tasks[a.t];
    if !KeepsBooks(s, a) {
      if a.Release? {
        assert Drift(s, a, MountOf(Entry(s.fds, pc.fd)).value) != 0;
      } else if a.Clear? {
        assert Drift(s, a, Entry(s.fds, pc.fd).m) != 0;
      } else if a.StartOpenDir? {
        assert Drift(s, a, Entry(s.dirs, a.d).m) != 0;
      } else if pc.OpeningDir? || pc.ClosingDir? {
        assert Drift(s, a, pc.m) != 0;
      }
    }
  }

  // A step keeps the books of all mounts if and only if its guard holds.
  lemma BooksExact(s: State, a: Action, s': State)
    requires AllCounted(s) && Next(s, a, s')
    ensures AllCounted(s') <==> KeepsBooks(s, a)
  {
    StepTask(s, a, s');
    hide Next, Drift, KeepsBooks, LosesOne, Refs;
    forall m: nat
      ensures Counted(s', m) <==> Drift(s, a, m) == 0
    {
      assert Counted(s, m);
      DriftStep(s, a, s', m);
      LostStep(s, a, s', m);
    }
    KeepsBooksIs(s, a);
    if AllCounted(s') {
      forall m: nat ensures Drift(s, a, m) == 0 {
        assert Counted(s', m);
      }
    }
  }

  // ---- Other invariants ------------------------------------------------------------------

  predicate Holding(pc: Task) {
    pc.Mounting? || pc.Unmounting?
  }

  // One task at most is between taking and giving back the mount mutex.
  ghost predicate MutexHeld(s: State) {
    forall t {:trigger s.tasks[t]} :: 0 <= t < |s.tasks| ==> (Holding(s.tasks[t]) <==> s.mutex == Some(t))
  }

  // Whoever unmounts without force has seen the counter at zero, and it stays.
  ghost predicate Unreferenced(s: State) {
    forall t {:trigger s.tasks[t]} :: 0 <= t < |s.tasks| && s.tasks[t].Unmounting? && !s.tasks[t].force ==>
      Get(s.count, s.tasks[t].m) == 0
  }

  // No mount is in the list twice.
  ghost predicate ListedOnce(s: State) {
    && NoRepeat(s.mounts)
    && (forall t {:trigger s.tasks[t]} :: 0 <= t < |s.tasks| && s.tasks[t].Mounting? ==> s.tasks[t].m !in s.mounts)
  }

  ghost predicate Inv(s: State) {
    AllCounted(s) && MutexHeld(s) && Unreferenced(s) && ListedOnce(s)
  }

  // The counter that vfs_umount looks at has not wrapped around.
  predicate Narrow(s: State, a: Action) {
    a.UmountLock? && a.t < |s.tasks| && s.tasks[a.t].Checked? ==> Get(s.count, s.tasks[a.t].m) < WRAP
  }

  lemma MutexStep(s: State, a: Action, s': State)
    requires MutexHeld(s) && Next(s, a, s')
    ensures MutexHeld(s')
  {
    hide Get, Without;
  }

  // The counter only goes up with the mutex free, and only down to what is
  // left of it.
  lemma UnreferencedStep(s: State, a: Action, s': State)
    requires MutexHeld(s) && Unreferenced(s) && AllCounted(s) && AllCounted(s') && Next(s, a, s') && Narrow(s, a)
    ensures Unreferenced(s')
  {
    hide Without, InFlight, InTable, TaskRefs;
    forall t {:trigger s'.tasks[t]} | 0 <= t < |s'.tasks| && s'.tasks[t].Unmounting? && !s'.tasks[t].force
      ensures Get(s'.count, s'.tasks[t].m) == 0
    {
      StaysZero(s, a, s', t);
    }
  }

  lemma StaysZero(s: State, a: Action, s': State, t: nat)
    requires MutexHeld(s) && Unreferenced(s) && AllCounted(s') && Next(s, a, s') && Narrow(s, a)
    requires t < |s'.tasks| && s'.tasks[t].Unmounting? && !s'.tasks[t].force
    ensures Get(s'.count, s'.tasks[t].m) == 0
  {
    if t == a.t {
      LockedAtZero(s, a, s');
    } else {
      hide Without, Refs;
      assert Counted(s', s'.tasks[t].m);
      assert s.tasks[t] == s'.tasks[t];
      assert Holding(s.tasks[t]);
    }
  }

  lemma LockedAtZero(s: State, a: Action, s': State)
    requires MutexHeld(s) && AllCounted(s') && Next(s, a, s') && Narrow(s, a)
    requires s'.tasks[a.t].Unmounting? && !s'.tasks[a.t].force
    ensures Get(s'.count, s'.tasks[a.t].m) == 0
  {
    hide Without, Refs;
    assert Counted(s', s'.tasks[a.t].m);
  }

  lemma ListStep(s: State, a: Action, s': State)
    requires MutexHeld(s) && ListedOnce(s) && Next(s, a, s')
    ensures ListedOnce(s')
  {
    hide Get, Without;
    if a.UmountEnd? {
      WithoutOnce(s.mounts, s.tasks[a.t].m);
    }
  }

  lemma {:induction false} WithoutOnce(ms: seq<nat>, m: nat)
    requires NoRepeat(ms)
    ensures NoRepeat(Without(ms, m))
    decreases |ms|
  {
    if ms != [] {
      WithoutOnce(ms[1..], m);
      var rest := Without(ms[1..], m);
      if ms[0] != m {
        assert ms[0] !in rest;
        PrependOnce(ms[0], rest);
      }
    }
  }

  lemma PrependOnce(x: nat, ms: seq<nat>)
    requires NoRepeat(ms) && x !in ms
    ensures NoRepeat([x] + ms)
  {
  }

  lemma InvStep(s: State, a: Action, s': State)
    requires Inv(s) && Next(s, a, s') && KeepsBooks(s, a) && Narrow(s, a)
    ensures Inv(s')
  {
    hide Next, Counted, MutexHeld, Unreferenced, ListedOnce, KeepsBooks, Narrow;
    BooksExact(s, a, s');
    MutexStep(s, a, s');
    UnreferencedStep(s, a, s');
    ListStep(s, a, s');
  }

  // ---- Careful callers ---------------------------------------------------------------------

  // What callers have to see to: close only descriptors and streams that are
  // open, open a directory only into a stream that is not, and let one task
  // at a time open or close a descriptor or a stream.
  ghost predicate Careful(s: State, a: Action) {
    match a
    case StartClose(t, fd) => fd < |s.fds| && s.fds[fd].Open? && NobodyOnFd(s.tasks, fd)
    case StartOpenDir(t, d) => !Entry(s.dirs, d).Open? && NobodyOnDir(s.tasks, d)
    case StartCloseDir(t, d) => Entry(s.dirs, d).Open? && NobodyOnDir(s.tasks, d)
    case _ => true
  }

  // The descriptor or the stream a task is at work on
  function FdOf(pc: Task): Option<nat> {
    match pc
    case Using(fd) => Some(fd)
    case Freeing(fd) => Some(fd)
    case _ => None
  }

  function DirOf(pc: Task): Option<nat> {
    match pc
    case OpeningDir(_, d) => Some(d)
    case ClosingDir(_, d) => Some(d)
    case _ => None
  }

  ghost predicate NobodyOnFd(tasks: seq<Task>, fd: nat) {
    forall t {:trigger tasks[t]} :: 0 <= t < |tasks| ==> FdOf(tasks[t]) != Some(fd)
  }

  ghost predicate NobodyOnDir(tasks: seq<Task>, d: nat) {
    forall t {:trigger tasks[t]} :: 0 <= t < |tasks| ==> DirOf(tasks[t]) != Some(d)
  }

  predicate FdFits(pc: Task, fds: seq<Fd>) {
    match pc
    case Using(fd) => Entry(fds, fd).Open?
    case Freeing(fd) => Entry(fds, fd).Released?
    case _ => true
  }

  predicate DirFits(pc: Task, dirs: seq<Fd>) {
    match pc
    case OpeningDir(m, d) => Entry(dirs, d) == Open(m)
    case ClosingDir(m, d) => Entry(dirs, d) == Open(m)
    case _ => true
  }

  // A descriptor that is being opened or closed is busy with one task only,
  ghost predicate OneUser(s: State) {
    && (forall t, u {:trigger s.tasks[t], s.tasks[u]} ::
          0 <= t < |s.tasks| && 0 <= u < |s.tasks| && t != u && FdOf(s.tasks[t]).Some? ==>
          FdOf(s.tasks[t]) != FdOf(s.tasks[u]))
    && (forall t {:trigger s.tasks[t]} :: 0 <= t < |s.tasks| ==> FdFits(s.tasks[t], s.fds))
  }

  // and so is a directory stream.
  ghost predicate OneStreamer(s: State) {
    && (forall t, u {:trigger s.tasks[t], s.tasks[u]} ::
          0 <= t < |s.tasks| && 0 <= u < |s.tasks| && t != u && DirOf(s.tasks[t]).Some? ==>
          DirOf(s.tasks[t]) != DirOf(s.tasks[u]))
    && (forall t {:trigger s.tasks[t]} :: 0 <= t < |s.tasks| ==> DirFits(s.tasks[t], s.dirs))
  }

  lemma OneUserStep(s: State, a: Action, s': State)
    requires OneUser(s) && Next(s, a, s') && Careful(s, a)
    ensures OneUser(s')
  {
    hide Get, Without;
    var t := a.t;
    assert s'.tasks == s.tasks[t := s'.tasks[t]];
    forall u {:trigger s'.tasks[u]} | 0 <= u < |s'.tasks|
      ensures FdFits(s'.tasks[u], s'.fds)
      ensures u != t && FdOf(s'.tasks[t]).Some? ==> FdOf(s'.tasks[u]) != FdOf(s'.tasks[t])
    {
      OneTaskFd(s, a, s', u);
    }
  }

  lemma OneTaskFd(s: State, a: Action, s': State, u: nat)
    requires OneUser(s) && Next(s, a, s') && Careful(s, a) && u < |s'.tasks|
    ensures FdFits(s'.tasks[u], s'.fds)
    ensures u != a.t && FdOf(s'.tasks[a.t]).Some? ==> FdOf(s'.tasks[u]) != FdOf(s'.tasks[a.t])
  {
    hide Next, Careful, FdFits, FdOf, OneUser;
    if a.InitFd? || a.Release? || a.Clear? || a.StartClose? {
      TableTask(s, a, s', u);
    } else {
      OtherTask(s, a, s', u);
    }
  }

  lemma TableTask(s: State, a: Action, s': State, u: nat)
    requires OneUser(s) && Next(s, a, s') && Careful(s, a) && u < |s'.tasks|
    requires a.InitFd? || a.Release? || a.Clear? || a.StartClose?
    ensures FdFits(s'.tasks[u], s'.fds)
    ensures u != a.t && FdOf(s'.tasks[a.t]).Some? ==> FdOf(s'.tasks[u]) != FdOf(s'.tasks[a.t])
  {
    hide Get, Without;
    assert FdFits(s.tasks[u], s.fds);
    assert FdFits(s.tasks[a.t], s.fds);
    if a.StartClose? {
      assert FdOf(s.tasks[u]) != Some(a.fd);
    }
  }

  // Other steps leave the table alone, and their task has no descriptor.
  lemma OtherTask(s: State, a: Action, s': State, u: nat)
    requires OneUser(s) && Next(s, a, s') && u < |s'.tasks|
    requires !a.InitFd? && !a.Release? && !a.Clear? && !a.StartClose?
    ensures FdFits(s'.tasks[u], s'.fds)
    ensures u != a.t && FdOf(s'.tasks[a.t]).Some? ==> FdOf(s'.tasks[u]) != FdOf(s'.tasks[a.t])
  {
    FdsStay(s, a, s');
    hide Next;
    assert FdFits(s.tasks[u], s.fds);
  }

  lemma FdsStay(s: State, a: Action, s': State)
    requires Next(s, a, s') && !a.InitFd? && !a.Release? && !a.Clear? && !a.StartClose?
    ensures a.t < |s.tasks| && s'.fds == s.fds && FdOf(s'.tasks[a.t]) == None
    ensures s'.tasks == s.tasks[a.t := s'.tasks[a.t]]
  {
    hide Get, Without;
  }

  lemma OneStreamerStep(s: State, a: Action, s': State)
    requires OneStreamer(s) && Next(s, a, s') && Careful(s, a)
    ensures OneStreamer(s')
  {
    hide Get, Without;
    var t := a.t;
    assert s'.tasks == s.tasks[t := s'.tasks[t]];
    forall u {:trigger s'.tasks[u]} | 0 <= u < |s'.tasks|
      ensures DirFits(s'.tasks[u], s'.dirs)
      ensures u != t && DirOf(s'.tasks[t]).Some? ==> DirOf(s'.tasks[u]) != DirOf(s'.tasks[t])
    {
      OneTaskDir(s, a, s', u);
    }
  }

  lemma OneTaskDir(s: State, a: Action, s': State, u: nat)
    requires OneStreamer(s) && Next(s, a, s') && Careful(s, a) && u < |s'.tasks|
    ensures DirFits(s'.tasks[u], s'.dirs)
    ensures u != a.t && DirOf(s'.tasks[a.t]).Some? ==> DirOf(s'.tasks[u]) != DirOf(s'.tasks[a.t])
  {
    hide Next, Careful, DirFits, DirOf, OneStreamer;
    if a.StartOpenDir? || a.FailOpenDir? || a.StartCloseDir? || a.WipeDir? {
      StreamTask(s, a, s', u);
    } else {
      OtherStream(s, a, s', u);
    }
  }

  lemma StreamTask(s: State, a: Action, s': State, u: nat)
    requires OneStreamer(s) && Next(s, a, s') && Careful(s, a) && u < |s'.tasks|
    requires a.StartOpenDir? || a.FailOpenDir? || a.StartCloseDir? || a.WipeDir?
    ensures DirFits(s'.tasks[u], s'.dirs)
    ensures u != a.t && DirOf(s'.tasks[a.t]).Some? ==> DirOf(s'.tasks[u]) != DirOf(s'.tasks[a.t])
  {
    hide Get, Without;
    assert DirFits(s.tasks[u], s.dirs);
    assert DirFits(s.tasks[a.t], s.dirs);
    if a.StartOpenDir? || a.StartCloseDir? {
      assert DirOf(s.tasks[u]) != Some(a.d);
    }
  }

  lemma OtherStream(s: State, a: Action, s': State, u: nat)
    requires OneStreamer(s) && Next(s, a, s') && u < |s'.tasks|
    requires !a.StartOpenDir? && !a.FailOpenDir? && !a.StartCloseDir? && !a.WipeDir?
    ensures DirFits(s'.tasks[u], s'.dirs)
    ensures u != a.t && DirOf(s'.tasks[a.t]).Some? ==> DirOf(s'.tasks[u]) != DirOf(s'.tasks[a.t])
  {
    StreamsStay(s, a, s');
    hide Next;
    assert DirFits(s.tasks[u], s.dirs);
  }

  lemma StreamsStay(s: State, a: Action, s': State)
    requires Next(s, a, s') && !a.StartOpenDir? && !a.FailOpenDir? && !a.StartCloseDir? && !a.WipeDir?
    ensures a.t < |s.tasks| && s'.dirs == s.dirs && DirOf(s'.tasks[a.t]) == None
    ensures s'.tasks == s.tasks[a.t := s'.tasks[a.t]]
  {
    hide Get, Without;
  }

  lemma CarefulKeeps(s: State, a: Action, s': State)
    requires OneUser(s) && OneStreamer(s) && Next(s, a, s') && Careful(s, a)
    ensures KeepsBooks(s, a)
  {
    hide Get, Without;
    assert FdFits(s.tasks[a.t], s.fds);
    assert DirFits(s.tasks[a.t], s.dirs);
  }

  // ---- Runs -------------------------------------------------------------------------------------

  // After start-up nothing is mounted or open and no task is under way.
  ghost predicate Init(s: State) {
    && s.mounts == [] && s.count == map[] && s.lost == map[] && s.mutex.None?
    && (forall t {:trigger s.tasks[t]} :: 0 <= t < |s.tasks| ==> s.tasks[t] == Idle)
    && (forall i {:trigger s.fds[i]} :: 0 <= i < |s.fds| ==> s.fds[i] == Free(None))
    && (forall i {:trigger s.dirs[i]} :: 0 <= i < |s.dirs| ==> s.dirs[i] == Free(None))
  }

  // Any run of the code
  ghost predicate Run(ss: seq<State>, acts: seq<Action>) {
    |ss| == |acts| + 1 && Init(ss[0]) && forall i {:trigger acts[i]} :: 0 <= i < |acts| ==>
      Next(ss[i], acts[i], ss[i + 1])
  }

  // No step before state i drifts.
  ghost predicate Kept(ss: seq<State>, acts: seq<Action>, i: nat)
    requires Run(ss, acts) && i < |ss|
  {
    forall j {:trigger acts[j]} :: 0 <= j < i ==> acts[j].t < |ss[j].tasks| && KeepsBooks(ss[j], acts[j])
  }

  ghost predicate CarefulRun(ss: seq<State>, acts: seq<Action>) {
    Run(ss, acts) && forall i {:trigger acts[i]} :: 0 <= i < |acts| ==> Careful(ss[i], acts[i])
  }

  ghost predicate NarrowRun(ss: seq<State>, acts: seq<Action>) {
    Run(ss, acts) && forall i {:trigger acts[i]} :: 0 <= i < |acts| ==> Narrow(ss[i], acts[i])
  }

  lemma {:induction false} EmptyTable(fds: seq<Fd>, m: nat)
    requires forall i {:trigger fds[i]} :: 0 <= i < |fds| ==> !fds[i].Open?
    ensures InTable(fds, m) == 0
    decreases |fds|
  {
    if fds != [] {
      EmptyTable(fds[..|fds| - 1], m);
    }
  }

  lemma {:induction false} NothingInFlight(tasks: seq<Task>, m: nat)
    requires forall t {:trigger tasks[t]} :: 0 <= t < |tasks| ==> tasks[t] == Idle
    ensures InFlight(tasks, m) == 0
    decreases |tasks|
  {
    if tasks != [] {
      NothingInFlight(tasks[..|tasks| - 1], m);
    }
  }

  lemma InitInv(s: State)
    requires Init(s)
    ensures Inv(s) && OneUser(s) && OneStreamer(s)
  {
    forall m: nat
      ensures Counted(s, m)
    {
      EmptyTable(s.fds, m);
      EmptyTable(s.dirs, m);
      NothingInFlight(s.tasks, m);
    }
  }

  lemma RunStep(ss: seq<State>, acts: seq<Action>, i: nat)
    requires Run(ss, acts) && i < |acts|
    ensures Next(ss[i], acts[i], ss[i + 1])
  {
  }

  // In every run of the code the counters of all mounts have been the number
  // of their references (and of those opendir lost) from start-up to state i
  // if and only if the guard of every step before it held.
  lemma {:induction false} CountersExact(ss: seq<State>, acts: seq<Action>, i: nat)
    requires Run(ss, acts) && i < |ss|
    ensures (forall j {:trigger ss[j]} :: 0 <= j <= i ==> AllCounted(ss[j])) <==> Kept(ss, acts, i)
  {
    hide Next, Init, AllCounted, KeepsBooks;
    if i == 0 {
      InitInv(ss[0]);
      hide Inv;
    } else {
      CountersExact(ss, acts, i - 1);
      RunStep(ss, acts, i - 1);
      assert acts[i - 1].t < |ss[i - 1].tasks| by { StepTask(ss[i - 1], acts[i - 1], ss[i]); }
      if AllCounted(ss[i - 1]) {
        BooksExact(ss[i - 1], acts[i - 1], ss[i]);
      }
    }
  }

  lemma StepTask(s: State, a: Action, s': State)
    requires Next(s, a, s')
    ensures a.t < |s.tasks|
  {
  }

  lemma {:induction false} RunInv(ss: seq<State>, acts: seq<Action>, i: nat)
    requires NarrowRun(ss, acts) && i < |ss| && Kept(ss, acts, i)
    ensures Inv(ss[i])
  {
    hide Inv, Next, Init, KeepsBooks, Narrow;
    if i == 0 {
      InitInv(ss[0]);
    } else {
      RunInv(ss, acts, i - 1);
      RunStep(ss, acts, i - 1);
      assert KeepsBooks(ss[i - 1], acts[i - 1]) && Narrow(ss[i - 1], acts[i - 1]);
      InvStep(ss[i - 1], acts[i - 1], ss[i]);
    }
  }

  // Careful callers keep every guard, in every interleaving.
  lemma {:induction false} CarefulRuns(ss: seq<State>, acts: seq<Action>, i: nat)
    requires CarefulRun(ss, acts) && i < |ss|
    ensures Kept(ss, acts, i) && OneUser(ss[i]) && OneStreamer(ss[i])
  {
    hide Next, Init, KeepsBooks, Careful, OneUser, OneStreamer;
    if i == 0 {
      InitInv(ss[0]);
    } else {
      CarefulRuns(ss, acts, i - 1);
      RunStep(ss, acts, i - 1);
      assert Careful(ss[i - 1], acts[i - 1]);
      StepTask(ss[i - 1], acts[i - 1], ss[i]);
      CarefulKeeps(ss[i - 1], acts[i - 1], ss[i]);
      OneUserStep(ss[i - 1], acts[i - 1], ss[i]);
      OneStreamerStep(ss[i - 1], acts[i - 1], ss[i]);
    }
  }

  // In every state of every run of careful callers the counter of a mount is the
  // number of its references and of those opendir has lost.
  lemma CounterIsReferences(ss: seq<State>, acts: seq<Action>, i: nat, m: nat)
    requires CarefulRun(ss, acts) && i < |ss|
    ensures Get(ss[i].count, m) == Refs(ss[i], m) + Get(ss[i].lost, m) >= 0
  {
    hide Next, Init, Refs, Careful, OneUser, OneStreamer;
    CarefulRuns(ss, acts, i);
    CountersExact(ss, acts, i);
    assert AllCounted(ss[i]) && Counted(ss[i], m);
  }

  lemma {:induction false} LostNever(ss: seq<State>, acts: seq<Action>, i: nat, m: nat)
    requires Run(ss, acts) && i < |ss|
    ensures Get(ss[i].lost, m) >= 0 && ss[i].nodirs == ss[0].nodirs
    ensures Get(ss[i].lost, m) == 0 <==> forall j {:trigger acts[j]} :: 0 <= j < i ==> !LosesOne(ss[j], acts[j], m)
    ensures m !in ss[0].nodirs ==> Get(ss[i].lost, m) == 0
  {
    hide Next, LosesOne;
    if i > 0 {
      LostNever(ss, acts, i - 1, m);
      RunStep(ss, acts, i - 1);
      LostStep(ss[i - 1], acts[i - 1], ss[i], m);
    }
  }

  // With careful callers it is the number of its references proper if and only
  // if nobody has tried to open a directory on it in vain for want of them.
  lemma CounterExact(ss: seq<State>, acts: seq<Action>, i: nat, m: nat)
    requires CarefulRun(ss, acts) && i < |ss|
    ensures Get(ss[i].count, m) == Refs(ss[i], m) <==>
            forall j {:trigger acts[j]} :: 0 <= j < i ==> !LosesOne(ss[j], acts[j], m)
    ensures m !in ss[0].nodirs ==> Get(ss[i].count, m) == Refs(ss[i], m)
  {
    hide Refs, LosesOne, CarefulRun;
    CounterIsReferences(ss, acts, i, m);
    assert Run(ss, acts) by { assert CarefulRun(ss, acts); CarefulIsRun(ss, acts); }
    LostNever(ss, acts, i, m);
  }

  lemma CarefulIsRun(ss: seq<State>, acts: seq<Action>)
    requires CarefulRun(ss, acts)
    ensures Run(ss, acts)
  {
  }

  // An unforced unmount that succeeds takes away a mount that nothing refers to,
  // as long as the guards held and the counter had not wrapped around.
  lemma UnmountedUnreferenced(ss: seq<State>, acts: seq<Action>, i: nat, t: nat, m: nat)
    requires NarrowRun(ss, acts) && i < |acts| && Kept(ss, acts, i)
    requires acts[i] == UmountEnd(t, true) && t < |ss[i].tasks| && ss[i].tasks[t] == Unmounting(m, false)
    ensures forall j {:trigger ss[i].fds[j]} :: 0 <= j < |ss[i].fds| ==> ss[i].fds[j] != Open(m)
    ensures forall j {:trigger ss[i].dirs[j]} :: 0 <= j < |ss[i].dirs| ==> ss[i].dirs[j] != Open(m)
    ensures forall u {:trigger ss[i].tasks[u]} :: 0 <= u < |ss[i].tasks| ==> TaskRefs(ss[i].tasks[u], m) == 0
    ensures m !in ss[i + 1].mounts
    ensures forall x {:trigger x in ss[i].mounts} :: x in ss[i].mounts && x != m ==> x in ss[i + 1].mounts
  {
    var s := ss[i];
    RunStep(ss, acts, i);
    hide Next, Init, InTable, InFlight, TaskRefs, KeepsBooks, Narrow;
    RunInv(ss, acts, i);
    assert Counted(s, m);
    NoneInTable(s.fds, m);
    NoneInTable(s.dirs, m);
    NoneInFlight(s.tasks, m);
    Removed(s, t, ss[i + 1]);
  }

  lemma Removed(s: State, t: nat, s': State)
    requires Next(s, UmountEnd(t, true), s')
    ensures s'.mounts == Without(s.mounts, s.tasks[t].m)
  {
  }

  // Of the unforced unmounts that get past the counter, exactly those with fewer
  // than 2^16 references have none.
  lemma UmountLockExact(s: State, t: nat, s': State, m: nat)
    requires Counted(s, m) && Next(s, UmountLock(t), s') && s.tasks[t] == Checked(m, false)
    ensures Refs(s, m) + Get(s.lost, m) == 0 <==> Refs(s, m) + Get(s.lost, m) < WRAP
  {
    hide Refs;
  }

  // A lost reference is never given back, and keeps the mount in the list as
  // long as nobody unmounts by force.
  lemma LostForever(s: State, a: Action, s': State, m: nat)
    requires Inv(s) && Next(s, a, s') && Narrow(s, a) && Get(s.lost, m) > 0
    ensures Get(s'.lost, m) >= Get(s.lost, m)
    ensures a.UmountLock? ==> s.tasks[a.t] != Checked(m, false)
    ensures a.UmountEnd? && s.tasks[a.t].Unmounting? && !s.tasks[a.t].force ==> s.tasks[a.t].m != m
  {
    hide InTable, InFlight, TaskRefs, Without;
    assert Counted(s, m);
  }

  // ---- Runs that go wrong ------------------------------------------------------------------------

  // The states a list of steps leads to
  ghost predicate Steps(s: State, steps: seq<(Action, State)>) {
    forall i {:trigger steps[i]} :: 0 <= i < |steps| ==>
      Next(if i == 0 then s else steps[i - 1].1, steps[i].0, steps[i].1)
  }

  lemma {:induction false} RunOf(s: State, steps: seq<(Action, State)>) returns (ss: seq<State>, acts: seq<Action>)
    requires Init(s) && Steps(s, steps)
    ensures Run(ss, acts) && |acts| == |steps|
    ensures |ss| == |steps| + 1
    ensures steps != [] ==> ss[|steps|] == steps[|steps| - 1].1 && acts[|steps| - 1] == steps[|steps| - 1].0
  {
    hide Next, Init;
    ss := [s] + seq(|steps|, i requires 0 <= i < |steps| => steps[i].1);
    acts := seq(|steps|, i requires 0 <= i < |steps| => steps[i].0);
    forall i {:trigger acts[i]} | 0 <= i < |acts| ensures Next(ss[i], acts[i], ss[i + 1]) {
      assert ss[i] == if i == 0 then s else steps[i - 1].1;
      assert acts[i] == steps[i].0 && ss[i + 1] == steps[i].1;
    }
  }

  lemma StepsConcat(s: State, a: seq<(Action, State)>, b: seq<(Action, State)>)
    requires a != [] && Steps(s, a) && Steps(a[|a| - 1].1, b)
    ensures Steps(s, a + b)
  {
    hide Next;
    var c := a + b;
    forall i {:trigger c[i]} | 0 <= i < |c|
      ensures Next(if i == 0 then s else c[i - 1].1, c[i].0, c[i].1)
    {
      if i < |a| {
        assert c[i] == a[i];
      } else {
        assert c[i] == b[i - |a|];
      }
    }
  }

  // Mount 0 is mounted; its driver has directories in START, none in BARE.
  const START := State([], map[], [Free(None)], [Free(None)], [Idle, Idle], None, {}, map[])
  const MOUNTED := START.(mounts := [0])
  const OPENED := MOUNTED.(count := map[0 := 1], fds := [Open(0)])
  const BARE := START.(nodirs := {0})

  function MountSteps(s: State): seq<(Action, State)> {
    [(MountStart(0, 0), s.(tasks := [Mounting(0), Idle], mutex := Some(0))), (MountEnd(0, true), s.(mounts := [0]))]
  }

  lemma Mounted(s: State)
    requires s.mounts == [] && s.tasks == [Idle, Idle] && s.mutex == None
    ensures Steps(s, MountSteps(s))
  {
    var steps := MountSteps(s);
    assert Next(s, steps[0].0, steps[0].1) && Next(steps[0].1, steps[1].0, steps[1].1);
  }

  // Task 0 opens a file.
  const OPEN_STEPS: seq<(Action, State)> := [
    (Find(0, 0), MOUNTED.(tasks := [Found(0), Idle], count := map[0 := 1])),
    (InitFd(0, 0), OPENED.(tasks := [Using(0), Idle])),
    (Opened(0), OPENED)]

  lemma FileOpened()
    ensures Steps(MOUNTED, OPEN_STEPS)
  {
    assert Next(MOUNTED, OPEN_STEPS[0].0, OPEN_STEPS[0].1);
    assert Next(OPEN_STEPS[0].1, OPEN_STEPS[1].0, OPEN_STEPS[1].1);
    assert Next(OPEN_STEPS[1].1, OPEN_STEPS[2].0, OPEN_STEPS[2].1);
  }

  // Both tasks close it.
  const CLOSED_TWICE := OPENED.(tasks := [Freeing(0), Freeing(0)], fds := [Released(0)], count := map[0 := -1])
  const CLOSE_STEPS: seq<(Action, State)> := [
    (StartClose(0, 0), OPENED.(tasks := [Using(0), Idle])),
    (StartClose(1, 0), OPENED.(tasks := [Using(0), Using(0)])),
    (Release(0), OPENED.(tasks := [Freeing(0), Using(0)], fds := [Released(0)], count := map[0 := 0])),
    (Release(1), CLOSED_TWICE)]

  lemma BothClosing()
    ensures Next(OPENED, CLOSE_STEPS[0].0, CLOSE_STEPS[0].1)
    ensures Next(CLOSE_STEPS[0].1, CLOSE_STEPS[1].0, CLOSE_STEPS[1].1)
  {
  }

  lemma BothReleased()
    ensures Next(CLOSE_STEPS[1].1, CLOSE_STEPS[2].0, CLOSE_STEPS[2].1)
    ensures Next(CLOSE_STEPS[2].1, CLOSE_STEPS[3].0, CLOSE_STEPS[3].1)
  {
  }

  lemma ClosedTwice()
    ensures Steps(OPENED, CLOSE_STEPS)
  {
    hide Next;
    BothClosing();
    BothReleased();
  }

  lemma NothingRefers(s: State)
    requires |s.fds| == |s.dirs| == 1 && !s.fds[0].Open? && !s.dirs[0].Open?
    requires |s.tasks| == 2 && TaskRefs(s.tasks[0], 0) == 0 && TaskRefs(s.tasks[1], 0) == 0
    ensures Refs(s, 0) == 0
  {
    EmptyTable(s.fds, 0);
    EmptyTable(s.dirs, 0);
    assert s.tasks == [s.tasks[0]] + [s.tasks[1]];
    assert s.tasks[..1] == [s.tasks[0]];
    assert [s.tasks[0]][..0] == [];
    assert InFlight([s.tasks[0]], 0) == 0;
  }

  // Two tasks that close the same descriptor at once give its reference back
  // twice.
  lemma DoubleClose() returns (ss: seq<State>, acts: seq<Action>)
    ensures Run(ss, acts)
    ensures var s := ss[|acts|]; Refs(s, 0) == 0 && Get(s.count, 0) == -1
  {
    hide Next, Steps, Run, Refs;
    Mounted(START);
    FileOpened();
    ClosedTwice();
    StepsConcat(START, MountSteps(START), OPEN_STEPS);
    StepsConcat(START, MountSteps(START) + OPEN_STEPS, CLOSE_STEPS);
    var steps := MountSteps(START) + OPEN_STEPS + CLOSE_STEPS;
    ss, acts := RunOf(START, steps);
    assert steps[|steps| - 1].1 == CLOSED_TWICE;
    NothingRefers(CLOSED_TWICE);
  }

  // Task 1 alone fails to open a directory and closes the stream all the same,
  // while task 0 has its file open.
  const STALE_STEPS: seq<(Action, State)> := [
    (Find(1, 0), OPENED.(tasks := [Idle, Found(0)], count := map[0 := 2])),
    (StartOpenDir(1, 0), OPENED.(tasks := [Idle, OpeningDir(0, 0)], count := map[0 := 2], dirs := [Open(0)])),
    (FailOpenDir(1), OPENED.(dirs := [Released(0)])),
    (StartCloseDir(1, 0), OPENED.(tasks := [Idle, ClosingDir(0, 0)], dirs := [Released(0)])),
    (WipeDir(1), OPENED.(tasks := [Idle, Found(0)])),
    (GiveBack(1), OPENED.(count := map[0 := 0]))]

  lemma StreamFailed()
    ensures Next(OPENED, STALE_STEPS[0].0, STALE_STEPS[0].1)
    ensures Next(STALE_STEPS[0].1, STALE_STEPS[1].0, STALE_STEPS[1].1)
  {
  }

  lemma StaleClosing()
    ensures Next(STALE_STEPS[1].1, STALE_STEPS[2].0, STALE_STEPS[2].1)
    ensures Next(STALE_STEPS[2].1, STALE_STEPS[3].0, STALE_STEPS[3].1)
  {
  }

  lemma StaleClosed()
    ensures Next(STALE_STEPS[3].1, STALE_STEPS[4].0, STALE_STEPS[4].1)
    ensures Next(STALE_STEPS[4].1, STALE_STEPS[5].0, STALE_STEPS[5].1)
  {
  }

  // Then it unmounts, without force.
  const GONE := OPENED.(count := map[0 := 0], mounts := [])
  const UMOUNT_STEPS: seq<(Action, State)> := [
    (UmountCheck(1, 0, false), OPENED.(count := map[0 := 0], tasks := [Idle, Checked(0, false)])),
    (UmountLock(1), OPENED.(count := map[0 := 0], tasks := [Idle, Unmounting(0, false)], mutex := Some(1))),
    (UmountEnd(1, true), GONE)]

  lemma UmountLocked()
    ensures Next(OPENED.(count := map[0 := 0]), UMOUNT_STEPS[0].0, UMOUNT_STEPS[0].1)
    ensures Next(UMOUNT_STEPS[0].1, UMOUNT_STEPS[1].0, UMOUNT_STEPS[1].1)
  {
  }

  lemma UmountEnded()
    ensures Next(UMOUNT_STEPS[1].1, UMOUNT_STEPS[2].0, UMOUNT_STEPS[2].1)
  {
    assert Without([0], 0) == [];
  }

  lemma UnmountedAnyway()
    ensures Steps(OPENED.(count := map[0 := 0]), UMOUNT_STEPS)
  {
    UmountLocked();
    UmountEnded();
    hide Next;
  }

  lemma StaleSteps()
    ensures Steps(OPENED, STALE_STEPS)
  {
    hide Next;
    StreamFailed();
    StaleClosing();
    StaleClosed();
  }

  // Closing a directory stream whose opening failed gives back a reference that
  // is not there, and a mount with an open file can be unmounted without force.
  lemma StaleStream() returns (ss: seq<State>, acts: seq<Action>)
    ensures Run(ss, acts)
    ensures var s := ss[|acts|]; s.fds == [Open(0)] && s.mounts == [] && Get(s.count, 0) == 0
  {
    hide Next, Steps, Run;
    Mounted(START);
    FileOpened();
    StaleSteps();
    UnmountedAnyway();
    var opening := MountSteps(START) + OPEN_STEPS;
    StepsConcat(START, MountSteps(START), OPEN_STEPS);
    StepsConcat(START, opening, STALE_STEPS);
    StepsConcat(START, opening + STALE_STEPS, UMOUNT_STEPS);
    var steps := opening + STALE_STEPS + UMOUNT_STEPS;
    ss, acts := RunOf(START, steps);
    assert steps[|steps| - 1].1 == GONE;
  }

  // opendir on a driver without directories
  const LOSING := BARE.(mounts := [0], count := map[0 := 1], lost := map[0 := 1])
  const LOSE_STEPS: seq<(Action, State)> := [
    (Find(0, 0), BARE.(mounts := [0], tasks := [Found(0), Idle], count := map[0 := 1])),
    (LoseDir(0), LOSING),
    (UmountCheck(0, 0, false), LOSING.(tasks := [Checked(0, false), Idle])),
    (UmountRefuse(0), LOSING)]

  lemma DirRefused()
    ensures Next(BARE.(mounts := [0]), LOSE_STEPS[0].0, LOSE_STEPS[0].1)
    ensures Next(LOSE_STEPS[0].1, LOSE_STEPS[1].0, LOSE_STEPS[1].1)
  {
  }

  lemma UmountRefused()
    ensures Next(LOSE_STEPS[1].1, LOSE_STEPS[2].0, LOSE_STEPS[2].1)
    ensures Next(LOSE_STEPS[2].1, LOSE_STEPS[3].0, LOSE_STEPS[3].1)
  {
  }

  lemma DirLost()
    ensures Steps(BARE.(mounts := [0]), LOSE_STEPS)
  {
    hide Next;
    DirRefused();
    UmountRefused();
  }

  // It leaves a reference that nobody holds, and the mount cannot be unmounted.
  lemma LostReference() returns (ss: seq<State>, acts: seq<Action>)
    ensures Run(ss, acts) && acts != [] && acts[|acts| - 1] == UmountRefuse(0)
    ensures var s := ss[|acts|]; Refs(s, 0) == 0 && Get(s.count, 0) == 1 && s.mounts == [0]
  {
    hide Next, Steps, Run, Refs;
    Mounted(BARE);
    DirLost();
    StepsConcat(BARE, MountSteps(BARE), LOSE_STEPS);
    var steps := MountSteps(BARE) + LOSE_STEPS;
    ss, acts := RunOf(BARE, steps);
    assert steps[|steps| - 1].1 == LOSING;
    NothingRefers(LOSING);
  }

  // The same n times over
  function Losing(n: nat): State {
    if n == 0 then BARE.(mounts := [0]) else BARE.(mounts := [0], count := map[0 := n], lost := map[0 := n])
  }

  function OnceMore(n: nat): seq<(Action, State)> {
    [(Find(0, 0), Losing(n).(tasks := [Found(0), Idle], count := map[0 := n + 1])), (LoseDir(0), Losing(n + 1))]
  }

  function LoseSteps(n: nat): seq<(Action, State)> {
    if n == 0 then [] else LoseSteps(n - 1) + OnceMore(n - 1)
  }

  lemma LoseOnce(n: nat)
    ensures Steps(Losing(n), OnceMore(n))
  {
    var steps := OnceMore(n);
    assert Next(Losing(n), steps[0].0, steps[0].1) && Next(steps[0].1, steps[1].0, steps[1].1);
  }

  lemma {:induction false} LoseMany(n: nat)
    ensures Steps(Losing(0), LoseSteps(n))
    ensures n > 0 ==> LoseSteps(n) != [] && LoseSteps(n)[|LoseSteps(n)| - 1].1 == Losing(n)
  {
    if n == 1 {
      LoseOnce(0);
      assert LoseSteps(0) == [] && [] + OnceMore(0) == OnceMore(0);
    } else if n > 1 {
      hide Next, Steps;
      LoseMany(n - 1);
      LoseOnce(n - 1);
      StepsConcat(Losing(0), LoseSteps(n - 1), OnceMore(n - 1));
    }
  }

  // Then a file is opened, and the mount unmounted without force.
  const WRAPPED := Losing(WRAP - 1).(count := map[0 := WRAP])
  const LAST := WRAPPED.(fds := [Open(0)])
  const WRAP_STEPS: seq<(Action, State)> := [
    (Find(0, 0), WRAPPED.(tasks := [Found(0), Idle])),
    (InitFd(0, 0), LAST.(tasks := [Using(0), Idle])),
    (Opened(0), LAST),
    (UmountCheck(1, 0, false), LAST.(tasks := [Idle, Checked(0, false)])),
    (UmountLock(1), LAST.(tasks := [Idle, Unmounting(0, false)], mutex := Some(1))),
    (UmountEnd(1, true), LAST.(mounts := []))]

  lemma LastOpened()
    ensures Next(Losing(WRAP - 1), WRAP_STEPS[0].0, WRAP_STEPS[0].1)
    ensures Next(WRAP_STEPS[0].1, WRAP_STEPS[1].0, WRAP_STEPS[1].1)
    ensures Next(WRAP_STEPS[1].1, WRAP_STEPS[2].0, WRAP_STEPS[2].1)
  {
  }

  lemma WrapLocked()
    ensures Next(WRAP_STEPS[2].1, WRAP_STEPS[3].0, WRAP_STEPS[3].1)
    ensures Next(WRAP_STEPS[3].1, WRAP_STEPS[4].0, WRAP_STEPS[4].1)
  {
  }

  lemma WrapUnmounted()
    ensures Next(WRAP_STEPS[4].1, WRAP_STEPS[5].0, WRAP_STEPS[5].1)
  {
    assert Without([0], 0) == [];
  }

  lemma WrapEnds()
    ensures Steps(Losing(WRAP - 1), WRAP_STEPS)
  {
    LastOpened();
    WrapLocked();
    WrapUnmounted();
    hide Next;
  }

  // After 2^16 - 1 lost references the next one makes the counter read zero,
  // and the mount is taken away from under an open file.
  lemma WrappedAround() returns (ss: seq<State>, acts: seq<Action>)
    ensures Run(ss, acts) && acts != [] && acts[|acts| - 1] == UmountEnd(1, true)
    ensures var s := ss[|acts|]; s.fds == [Open(0)] && s.mounts == [] && Get(s.count, 0) == WRAP
  {
    hide Next, Steps, Run, Losing, LoseSteps;
    Mounted(BARE);
    MountedBare();
    LoseMany(WRAP - 1);
    WrapEnds();
    var opening := MountSteps(BARE) + LoseSteps(WRAP - 1);
    StepsConcat(BARE, MountSteps(BARE), LoseSteps(WRAP - 1));
    StepsConcat(BARE, opening, WRAP_STEPS);
    var steps := opening + WRAP_STEPS;
    ss, acts := RunOf(BARE, steps);
    assert steps[|steps| - 1] == WRAP_STEPS[5];
  }

  lemma MountedBare()
    ensures MountSteps(BARE)[1].1 == Losing(0)
  {
  }
}
