/** What every reachable world of a depot download keeps. */
module DepotInvariant {
  import opened Base
  import opened FileProtocol
  import opened Depot

  // ---------------------------------------------------------------- files

  ghost predicate TaskInv(job: Job, fs: FileSystem, w: World, i: nat)
    requires i < |w.tasks|
  {
    match w.tasks[i]
    case None => Named(job, i) ==> View(w.fs, NameOf(job, i)) == View(fs, NameOf(job, i))
    case Some(k) =>
      && Selected(job, i)
      && Inv(TaskOf(job, i), View(fs, NameOf(job, i)), Local(View(w.fs, NameOf(job, i)), k))
  }

  /** Paths that are neither an entry's path nor its staging path. */
  ghost predicate Foreign(job: Job, path: string)
  {
    forall i: nat | Named(job, i) :: path != NameOf(job, i) && path != Staged(NameOf(job, i))
  }

  ghost predicate ForeignInv(job: Job, fs: FileSystem, w: World)
  {
    forall path | Foreign(job, path) ::
      Lookup(w.fs, path) == Lookup(fs, path) ||
      (OldOnly(job, path) && (w.coord.Deleting? || w.coord.Succeeded?) && path !in w.fs)
  }

  ghost predicate AllInstalled(w: World, n: nat)
    requires n <= |w.tasks|
  {
    forall i | 0 <= i < n && w.tasks[i].Some? :: w.tasks[i].value.phase.Installed?
  }

  /** The first `k` old entries have been considered for deletion. */
  ghost predicate Deleted(job: Job, w: World, k: nat)
    requires job.previous.Some? && k <= |job.previous.value|
  {
    forall j | 0 <= j < k && Obsolete(job, job.previous.value[j]) ::
      job.previous.value[j].name.value in w.fs ==> job.previous.value[j].name.value in w.kept
  }

  /** Entry `i` has been passed by the scan: a selected one was spawned, unless its hash was unchanged and its file
      there. */
  ghost predicate Scanned(job: Job, fs: FileSystem, w: World, i: nat)
    requires i < |w.tasks|
  {
    Selected(job, i) ==> (w.tasks[i].None? <==> HashSkipped(job, fs, i))
  }

  ghost predicate CoordInv(job: Job, fs: FileSystem, w: World)
    requires |w.tasks| == |job.files|
  {
    var n := |w.tasks|;
    && (w.coord.Scanning? ==>
          && w.coord.next <= n
          && (forall i | 0 <= i < w.coord.next :: Scanned(job, fs, w, i))
          && (forall i | w.coord.next <= i < n :: w.tasks[i].None?))
    && (!w.coord.Scanning? ==> forall i | 0 <= i < n :: Scanned(job, fs, w, i))
    && (w.coord.Awaiting? ==> w.coord.next <= n && AllInstalled(w, w.coord.next))
    && (w.coord.Deleting? || w.coord.Succeeded? ==> AllInstalled(w, n))
    && (w.coord.Deleting? && job.previous.Some? ==>
        w.coord.next <= |job.previous.value| && Deleted(job, w, w.coord.next))
    && (w.coord.Succeeded? && job.previous.Some? ==> Deleted(job, w, |job.previous.value|))
    && (forall p | p in w.kept :: OldOnly(job, p))
  }

  // ---------------------------------------------------------------- permits

  function HeldIn(ch: seq<ChunkPhase>): nat
  {
    if ch == [] then 0 else HeldIn(ch[..|ch| - 1]) + if HoldsPermit(ch[|ch| - 1]) then 1 else 0
  }

  /** Chunk tasks holding a permit, over all files. */
  function Holders(tasks: seq<Option<Task>>): nat
  {
    if tasks == [] then 0
    else
      var last := tasks[|tasks| - 1];
      Holders(tasks[..|tasks| - 1]) + if last.Some? then HeldIn(last.value.ch) else 0
  }

  lemma {:induction false} HeldInUpdate(ch: seq<ChunkPhase>, k: nat, p: ChunkPhase)
    requires k < |ch|
    ensures HeldIn(ch[k := p]) + (if HoldsPermit(ch[k]) then 1 else 0) == HeldIn(ch) + if HoldsPermit(p) then 1 else 0
  {
    var n := |ch| - 1;
    if k == n {
      assert ch[k := p][..n] == ch[..n];
    } else {
      HeldInUpdate(ch[..n], k, p);
      assert ch[k := p][..n] == ch[..n][k := p];
    }
  }

  lemma {:induction false} HoldersUpdate(tasks: seq<Option<Task>>, i: nat, k: Task)
    requires i < |tasks|
    ensures Holders(tasks[i := Some(k)]) + (if tasks[i].Some? then HeldIn(tasks[i].value.ch) else 0)
            == Holders(tasks) + HeldIn(k.ch)
  {
    var n := |tasks| - 1;
    if i == n {
      assert tasks[i := Some(k)][..n] == tasks[..n];
    } else {
      HoldersUpdate(tasks[..n], i, k);
      assert tasks[i := Some(k)][..n] == tasks[..n][i := Some(k)];
    }
  }

  lemma {:induction false} NoneHeld(ch: seq<ChunkPhase>)
    requires forall k | 0 <= k < |ch| :: !HoldsPermit(ch[k])
    ensures HeldIn(ch) == 0
  {
    if ch != [] {
      NoneHeld(ch[..|ch| - 1]);
    }
  }

  lemma {:induction false} NoHolders(tasks: seq<Option<Task>>)
    requires forall i | 0 <= i < |tasks| :: tasks[i].None?
    ensures Holders(tasks) == 0
  {
    if tasks != [] {
      NoHolders(tasks[..|tasks| - 1]);
    }
  }

  // ---------------------------------------------------------------- the invariant

  ghost predicate WorldInv(job: Job, fs: FileSystem, w: World)
  {
    && |w.tasks| == |job.files|
    && (forall i | 0 <= i < |w.tasks| :: TaskInv(job, fs, w, i))
    && ForeignInv(job, fs, w)
    && CoordInv(job, fs, w)
    && w.free + Holders(w.tasks) == job.maxDownloads
  }

  lemma StartInv(job: Job, fs: FileSystem)
    ensures WorldInv(job, fs, Start(job, fs))
  {
    NoHolders(Start(job, fs).tasks);
  }

  lemma ScanInv(job: Job, fs: FileSystem, w: World)
    requires DistinctNames(job) && WorldInv(job, fs, w) && CanMove(job, w, Scan)
    ensures WorldInv(job, fs, Next(job, w, Scan))
  {
    var i, w' := w.coord.next, Next(job, w, Scan);
    if i < |job.files| && w'.tasks[i].Some? {
      var t := TaskOf(job, i);
      HoldersUpdate(w.tasks, i, NewTask(t));
      NoneHeld(NewTask(t).ch);
    }
    ScanTasks(job, fs, w);
  }

  lemma ScanTasks(job: Job, fs: FileSystem, w: World)
    requires DistinctNames(job) && WorldInv(job, fs, w) && CanMove(job, w, Scan)
    ensures var w' := Next(job, w, Scan);
            forall j | 0 <= j < |w'.tasks| :: TaskInv(job, fs, w', j) && (j <= w.coord.next ==> Scanned(job, fs, w', j))
  {
    var i, w' := w.coord.next, Next(job, w, Scan);
    if i < |job.files| && Named(job, i) {
      InvInit(TaskOf(job, i), View(fs, NameOf(job, i)));
    }
    forall j | 0 <= j < |w'.tasks|
      ensures TaskInv(job, fs, w', j) && (j <= i ==> Scanned(job, fs, w', j))
    {
      assert TaskInv(job, fs, w, j);
      assert j < i ==> Scanned(job, fs, w, j);
    }
  }

  lemma AwaitInv(job: Job, fs: FileSystem, w: World)
    requires WorldInv(job, fs, w) && CanMove(job, w, AwaitFile)
    ensures WorldInv(job, fs, Next(job, w, AwaitFile))
  {
    var w' := Next(job, w, AwaitFile);
    forall j | 0 <= j < |w'.tasks|
      ensures TaskInv(job, fs, w', j) && Scanned(job, fs, w', j)
    {
      assert TaskInv(job, fs, w, j) && Scanned(job, fs, w, j);
    }
  }

  lemma OldOnlyIsForeign(job: Job, path: string)
    requires DistinctNames(job) && OldOnly(job, path)
    ensures Foreign(job, path)
  {
    forall i: nat | Named(job, i)
      ensures path != NameOf(job, i) && path != Staged(NameOf(job, i))
    {
      assert !UnderStaging(path) && UnderStaging(Staged(NameOf(job, i)));
    }
  }

  lemma DeleteInv(job: Job, fs: FileSystem, w: World, ok: bool)
    requires DistinctNames(job) && WorldInv(job, fs, w) && CanMove(job, w, Delete(ok))
    ensures WorldInv(job, fs, Next(job, w, Delete(ok)))
  {
    DeleteTasks(job, fs, w, ok);
    DeleteForeign(job, fs, w, ok);
    DeleteCoord(job, fs, w, ok);
  }

  lemma DeleteCoord(job: Job, fs: FileSystem, w: World, ok: bool)
    requires DistinctNames(job) && WorldInv(job, fs, w) && CanMove(job, w, Delete(ok))
    ensures CoordInv(job, fs, Next(job, w, Delete(ok)))
  {
    DeleteTasks(job, fs, w, ok);
  }

  lemma DeleteForeign(job: Job, fs: FileSystem, w: World, ok: bool)
    requires DistinctNames(job) && WorldInv(job, fs, w) && CanMove(job, w, Delete(ok))
    ensures ForeignInv(job, fs, Next(job, w, Delete(ok)))
  {
  }

  lemma DeleteTasks(job: Job, fs: FileSystem, w: World, ok: bool)
    requires DistinctNames(job) && WorldInv(job, fs, w) && CanMove(job, w, Delete(ok))
    ensures var w' := Next(job, w, Delete(ok));
            forall j | 0 <= j < |w'.tasks| :: TaskInv(job, fs, w', j) && Scanned(job, fs, w', j)
  {
    var k, w' := w.coord.next, Next(job, w, Delete(ok));
    forall j | 0 <= j < |w'.tasks|
      ensures TaskInv(job, fs, w', j) && Scanned(job, fs, w', j)
    {
      assert TaskInv(job, fs, w, j) && Scanned(job, fs, w, j);
      if w'.fs != w.fs && Named(job, j) {
        var path := job.previous.value[k].name.value;
        assert OldOnly(job, path);
        OldOnlyIsForeign(job, path);
        assert View(w'.fs, NameOf(job, j)) == View(w.fs, NameOf(job, j));
      }
    }
  }

  lemma StepTasks(job: Job, fs: FileSystem, w: World, i: nat, a: Step)
    requires DistinctNames(job) && WorldInv(job, fs, w) && CanMove(job, w, FileStep(i, a))
    ensures var w' := Next(job, w, FileStep(i, a));
            forall j | 0 <= j < |w'.tasks| :: TaskInv(job, fs, w', j)
  {
    var w', name := Next(job, w, FileStep(i, a)), NameOf(job, i);
    var s, t := LocalOf(job, w, i), TaskOf(job, i);
    var s' := Apply(t, job.settings, s, a);
    assert TaskInv(job, fs, w, i);
    InvStep(t, job.settings, View(fs, name), s, a);
    ViewStore(w.fs, name, s'.disk);
    forall j | 0 <= j < |w'.tasks|
      ensures TaskInv(job, fs, w', j)
    {
      assert TaskInv(job, fs, w, j);
      if j != i && Named(job, j) {
        ViewElsewhere(w.fs, name, s'.disk, NameOf(job, j));
      }
    }
  }

  lemma StepForeign(job: Job, fs: FileSystem, w: World, i: nat, a: Step)
    requires WorldInv(job, fs, w) && CanMove(job, w, FileStep(i, a))
    ensures ForeignInv(job, fs, Next(job, w, FileStep(i, a)))
  {
    var w' := Next(job, w, FileStep(i, a));
    var d := Apply(TaskOf(job, i), job.settings, LocalOf(job, w, i), a).disk;
    forall path | Foreign(job, path)
      ensures Lookup(w'.fs, path) == Lookup(w.fs, path)
    {
      StoreElsewhere(w.fs, NameOf(job, i), d, path);
    }
  }

  /** A step moves at most one chunk task into or out of the phases that hold a permit, and `free` follows. */
  lemma StepPermits(job: Job, w: World, i: nat, a: Step)
    requires |w.tasks| == |job.files| && CanMove(job, w, FileStep(i, a))
    requires w.free + Holders(w.tasks) == job.maxDownloads
    requires a.Spawn? && LocalOf(job, w, i).task.phase.next < |job.files[i].chunks| ==>
               !HoldsPermit(LocalOf(job, w, i).task.ch[LocalOf(job, w, i).task.phase.next])
    ensures var w' := Next(job, w, FileStep(i, a));
            w'.free + Holders(w'.tasks) == job.maxDownloads
  {
    var s := LocalOf(job, w, i);
    var s' := Apply(TaskOf(job, i), job.settings, s, a);
    HoldersUpdate(w.tasks, i, s'.task);
    if ChunkOf(a).Some? {
      var k := ChunkOf(a).value;
      assert s'.task.ch == s.task.ch[k := s'.task.ch[k]];
      HeldInUpdate(s.task.ch, k, s'.task.ch[k]);
    } else if a.Spawn? && s.task.phase.next < |s.task.ch| {
      HeldInUpdate(s.task.ch, s.task.phase.next, s'.task.ch[s.task.phase.next]);
    }
  }

  lemma StepCoord(job: Job, fs: FileSystem, w: World, i: nat, a: Step)
    requires DistinctNames(job) && WorldInv(job, fs, w) && CanMove(job, w, FileStep(i, a))
    ensures CoordInv(job, fs, Next(job, w, FileStep(i, a)))
  {
    StepShape(job, w, i, a);
    StillWorking(job, fs, w, i, a);
    StepDeleted(job, w, i, a);
    CoordFrom(job, fs, w, Next(job, w, FileStep(i, a)), i);
  }

  /** What a file's step leaves alone. */
  lemma StepShape(job: Job, w: World, i: nat, a: Step)
    requires |w.tasks| == |job.files| && CanMove(job, w, FileStep(i, a))
    ensures var w' := Next(job, w, FileStep(i, a));
            && w'.coord == w.coord && w'.kept == w.kept && |w'.tasks| == |w.tasks| && w.tasks[i].Some?
            && w'.tasks == w.tasks[i := w'.tasks[i]] && w'.tasks[i].Some?
  {
  }

  lemma StillWorking(job: Job, fs: FileSystem, w: World, i: nat, a: Step)
    requires WorldInv(job, fs, w) && CanMove(job, w, FileStep(i, a))
    ensures !w.tasks[i].value.phase.Installed?
  {
    assert TaskInv(job, fs, w, i);
    NotInstalled(TaskOf(job, i), job.settings, View(fs, NameOf(job, i)), LocalOf(job, w, i), a);
  }

  /** A task that has returned Ok takes no more steps, and neither do its chunk tasks. */
  lemma NotInstalled(t: FileTask, g: Settings, d: Disk, s: Local, a: Step)
    requires |s.task.ch| == |t.chunks| && PhaseInv(t, d, s) && Enabled(t, g, s, a)
    ensures !s.task.phase.Installed?
  {
    if s.task.phase.Installed? {
      AllAtRest(t, d, s);
    }
  }

  lemma AllAtRest(t: FileTask, d: Disk, s: Local)
    requires |s.task.ch| == |t.chunks| && PhaseInv(t, d, s) && s.task.phase.Installed?
    ensures forall k | 0 <= k < |s.task.ch| ::
              s.task.ch[k].Unspawned? || s.task.ch[k].Skipped? || s.task.ch[k].Complete?
  {
  }

  lemma CoordFrom(job: Job, fs: FileSystem, w: World, w': World, i: nat)
    requires |w.tasks| == |w'.tasks| == |job.files| && CoordInv(job, fs, w)
    requires w'.coord == w.coord && w'.kept == w.kept && i < |w.tasks| && w'.tasks == w.tasks[i := w'.tasks[i]]
    requires w.tasks[i].Some? && !w.tasks[i].value.phase.Installed? && w'.tasks[i].Some?
    requires job.previous.Some? ==>
               forall k: nat | k <= |job.previous.value| && Deleted(job, w, k) :: Deleted(job, w', k)
    ensures CoordInv(job, fs, w')
  {
    assert forall j | 0 <= j < |w.tasks| :: w'.tasks[j].None? <==> w.tasks[j].None?;
    assert forall j | 0 <= j < |w'.tasks| && Scanned(job, fs, w, j) :: Scanned(job, fs, w', j);
  }

  /** A file's step touches no obsolete file. */
  lemma StepDeleted(job: Job, w: World, i: nat, a: Step)
    requires DistinctNames(job) && |w.tasks| == |job.files| && CanMove(job, w, FileStep(i, a))
    ensures job.previous.Some? ==>
              forall k: nat | k <= |job.previous.value| && Deleted(job, w, k) ::
                  Deleted(job, Next(job, w, FileStep(i, a)), k)
  {
    var w' := Next(job, w, FileStep(i, a));
    var d := Apply(TaskOf(job, i), job.settings, LocalOf(job, w, i), a).disk;
    forall path | OldOnly(job, path)
      ensures Lookup(w'.fs, path) == Lookup(w.fs, path)
    {
      OldOnlyIsForeign(job, path);
      StoreElsewhere(w.fs, NameOf(job, i), d, path);
    }
    if job.previous.Some? {
      forall k: nat, j | 0 <= j < k <= |job.previous.value| && Deleted(job, w, k) &&
          Obsolete(job, job.previous.value[j])
        ensures job.previous.value[j].name.value in w'.fs ==> job.previous.value[j].name.value in w'.kept
      {
        assert OldOnly(job, job.previous.value[j].name.value);
      }
    }
  }

  lemma StepInv(job: Job, fs: FileSystem, w: World, i: nat, a: Step)
    requires DistinctNames(job) && WorldInv(job, fs, w) && CanMove(job, w, FileStep(i, a))
    ensures WorldInv(job, fs, Next(job, w, FileStep(i, a)))
  {
    assert TaskInv(job, fs, w, i);
    StepTasks(job, fs, w, i, a);
    StepForeign(job, fs, w, i, a);
    StepPermits(job, w, i, a);
    StepCoord(job, fs, w, i, a);
  }

  lemma MoveInv(job: Job, fs: FileSystem, w: World, m: Move)
    requires DistinctNames(job) && WorldInv(job, fs, w) && CanMove(job, w, m)
    ensures WorldInv(job, fs, Next(job, w, m))
  {
    match m
    case Scan => ScanInv(job, fs, w);
    case AwaitFile => AwaitInv(job, fs, w);
    case Delete(ok) => DeleteInv(job, fs, w, ok);
    case FileStep(i, a) => StepInv(job, fs, w, i, a);
  }

  lemma {:induction false} ExecInv(job: Job, fs: FileSystem, moves: seq<Move>)
    requires DistinctNames(job)
    ensures var r := Exec(job, fs, moves); r.Some? ==> WorldInv(job, fs, r.value)
  {
    if moves == [] {
      StartInv(job, fs);
    } else {
      var n := |moves| - 1;
      ExecInv(job, fs, moves[..n]);
      var r := Exec(job, fs, moves[..n]);
      if r.Some? && CanMove(job, r.value, moves[n]) {
        MoveInv(job, fs, r.value, moves[n]);
      }
    }
  }
}
