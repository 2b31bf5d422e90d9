/** What every interleaving of a whole depot download guarantees, stopped at any point. */
module DepotTheorems {
  import opened Base
  import opened Chunks
  import opened FileProtocol
  import opened FileTheorems
  import opened Depot
  import opened DepotInvariant
  import opened DepotRemovals

  /** Every selected entry has a proper layout and starts from a sound disk. */
  ghost predicate Healthy(job: Job, fs: FileSystem)
  {
    forall i: nat | Selected(job, i) :: Layout(TaskOf(job, i)) && Sound(TaskOf(job, i), View(fs, NameOf(job, i)))
  }

  ghost predicate EntryVerifies(job: Job, fs: FileSystem, i: nat)
    requires i < |job.files| && job.files[i].name.Some?
  {
    Verifies(Lookup(fs, NameOf(job, i)), job.files[i].size, job.files[i].chunks)
  }

  ghost predicate InstalledAs(job: Job, fs: FileSystem, path: string)
  {
    exists i: nat :: Selected(job, i) && NameOf(job, i) == path && EntryVerifies(job, fs, i)
  }

  /** Wherever the download is stopped, a path outside the staging directory holds its old bytes (or is still
      absent), or a file that verifies against the new manifest, or is an old-only file removed after every task had
      succeeded. */
  lemma TreeCrashAtomic(job: Job, fs: FileSystem, moves: seq<Move>, w: World, path: string)
    requires DistinctNames(job) && Healthy(job, fs) && Exec(job, fs, moves) == Some(w) && !UnderStaging(path)
    ensures || Lookup(w.fs, path) == Lookup(fs, path)
            || InstalledAs(job, w.fs, path)
            || (OldOnly(job, path) && path !in w.fs && AllInstalled(w, |w.tasks|))
  {
    ExecInv(job, fs, moves);
    if !Foreign(job, path) {
      var i: nat :| Named(job, i) && (path == NameOf(job, i) || path == Staged(NameOf(job, i)));
      assert STAGING <= Staged(NameOf(job, i));
      assert path == NameOf(job, i) && TaskInv(job, fs, w, i);
      if w.tasks[i].Some? && w.tasks[i].value.phase.Installed? {
        InstalledIffSound(TaskOf(job, i), View(fs, path), LocalOf(job, w, i));
      }
    }
  }

  /** A file task that has not returned Ok, whether running or failed, has left its final path alone. */
  lemma UnfinishedLeavesFinal(job: Job, fs: FileSystem, moves: seq<Move>, w: World, i: nat)
    requires DistinctNames(job) && Exec(job, fs, moves) == Some(w) && Named(job, i)
    requires |w.tasks| == |job.files| && (w.tasks[i].Some? ==> !w.tasks[i].value.phase.Installed?)
    ensures Lookup(w.fs, NameOf(job, i)) == Lookup(fs, NameOf(job, i))
  {
    ExecInv(job, fs, moves);
    assert TaskInv(job, fs, w, i);
  }

  /** One failed file keeps every old-only file: deletion is never reached. */
  lemma FailurePreventsDeletion(job: Job, fs: FileSystem, moves: seq<Move>, w: World, i: nat)
    requires DistinctNames(job) && Exec(job, fs, moves) == Some(w)
    requires i < |w.tasks| && w.tasks[i].Some? && w.tasks[i].value.phase.Failed?
    ensures !w.coord.Deleting? && !w.coord.Succeeded?
    ensures forall path | OldOnly(job, path) :: Lookup(w.fs, path) == Lookup(fs, path)
  {
    ExecInv(job, fs, moves);
    forall path | OldOnly(job, path)
      ensures Foreign(job, path)
    {
      OldOnlyIsForeign(job, path);
    }
  }

  /** Free permits plus permit holders are always the semaphore's size. */
  lemma PermitsConserved(job: Job, fs: FileSystem, moves: seq<Move>, w: World)
    requires DistinctNames(job) && Exec(job, fs, moves) == Some(w)
    ensures w.free + Holders(w.tasks) == job.maxDownloads
  {
    ExecInv(job, fs, moves);
  }

  /** What a selected entry ends as: if its content hash was unchanged and the file there, both its paths are untouched;
      otherwise it verifies exactly when its start was sound. */
  ghost predicate EntryOutcome(job: Job, fs: FileSystem, after: FileSystem, i: nat)
    requires Selected(job, i)
  {
    if HashSkipped(job, fs, i) then View(after, NameOf(job, i)) == View(fs, NameOf(job, i))
    else
      Layout(TaskOf(job, i)) ==>
        (EntryVerifies(job, after, i) <==> Sound(TaskOf(job, i), View(fs, NameOf(job, i))))
  }

  /** A path the download has no business with. */
  ghost predicate OutOfScope(job: Job, path: string)
  {
    && (forall k: nat :: !Superseded(job, k, path))
    && forall i: nat | Selected(job, i) :: path != NameOf(job, i) && path != Staged(NameOf(job, i))
  }

  /** When `download` returns Ok: every selected entry has its outcome; the file of an old entry that is no directory
      and whose name is not in the new manifest is gone if and only if it was not there or a removal of it succeeded,
      and one that is left met a removal that failed, and is as it was; nothing else outside the staging directory is
      gone, and nothing else changed. */
  lemma DownloadOk(job: Job, fs: FileSystem, moves: seq<Move>, w: World)
    requires DistinctNames(job) && Exec(job, fs, moves) == Some(w) && w.coord.Succeeded?
    ensures forall i: nat | Selected(job, i) :: EntryOutcome(job, fs, w.fs, i)
    ensures forall path, k: nat | Superseded(job, k, path) ::
              path in w.fs <==> path in fs && !Attempted(job, fs, moves, path, true)
    ensures forall path, k: nat | Superseded(job, k, path) && path in w.fs ::
              Attempted(job, fs, moves, path, false) && Lookup(w.fs, path) == Lookup(fs, path)
    ensures forall path | path in fs && path !in w.fs && !(".staging/" <= path) ::
              exists k: nat :: Superseded(job, k, path)
    ensures forall path | OutOfScope(job, path) :: Lookup(w.fs, path) == Lookup(fs, path)
  {
    ExecInv(job, fs, moves);
    forall i: nat | Selected(job, i)
      ensures EntryOutcome(job, fs, w.fs, i)
    {
      SelectedOutcome(job, fs, w, i);
    }
    forall path, k: nat | Superseded(job, k, path)
      ensures path in w.fs <==> path in fs && !Attempted(job, fs, moves, path, true)
      ensures path in w.fs ==> Attempted(job, fs, moves, path, false) && Lookup(w.fs, path) == Lookup(fs, path)
    {
      RemovedOrKept(job, fs, moves, w, k, path);
    }
    forall path | OutOfScope(job, path)
      ensures Lookup(w.fs, path) == Lookup(fs, path)
    {
      UnselectedUntouched(job, fs, w, path);
    }
    forall path | path in fs && path !in w.fs && !(".staging/" <= path)
      ensures exists k: nat :: Superseded(job, k, path)
    {
      OnlyObsoleteGone(job, fs, w, path);
    }
  }

  lemma RemovedOrKept(job: Job, fs: FileSystem, moves: seq<Move>, w: World, k: nat, path: string)
    requires DistinctNames(job) && Exec(job, fs, moves) == Some(w) && w.coord.Succeeded? && Superseded(job, k, path)
    ensures path in w.fs <==> path in fs && !Attempted(job, fs, moves, path, true)
    ensures path in w.fs ==> Attempted(job, fs, moves, path, false) && Lookup(w.fs, path) == Lookup(fs, path)
  {
    ExecInv(job, fs, moves);
    OldOnlyIs(job, path);
    SupersededIs(job, k, path);
    OldOnlyIsForeign(job, path);
    GoneExactly(job, fs, moves, path);
    KeptExactly(job, fs, moves, path);
  }

  lemma OnlyObsoleteGone(job: Job, fs: FileSystem, w: World, path: string)
    requires WorldInv(job, fs, w) && w.coord.Succeeded? && path in fs && path !in w.fs && !(".staging/" <= path)
    ensures exists k: nat :: Superseded(job, k, path)
  {
    OldOnlyIs(job, path);
    forall i: nat | Selected(job, i)
      ensures path != NameOf(job, i) && path != Staged(NameOf(job, i))
    {
      SelectedOutcome(job, fs, w, i);
      assert UnderStaging(Staged(NameOf(job, i)));
    }
    if !OldOnly(job, path) {
      UnselectedUntouched(job, fs, w, path);
    }
  }

  lemma SelectedOutcome(job: Job, fs: FileSystem, w: World, i: nat)
    requires WorldInv(job, fs, w) && w.coord.Succeeded? && Selected(job, i)
    ensures EntryOutcome(job, fs, w.fs, i)
    ensures NameOf(job, i) in fs ==> NameOf(job, i) in w.fs
  {
    assert TaskInv(job, fs, w, i) && Scanned(job, fs, w, i);
    if w.tasks[i].Some? && Layout(TaskOf(job, i)) {
      InstalledIffSound(TaskOf(job, i), View(fs, NameOf(job, i)), LocalOf(job, w, i));
    }
  }

  lemma UnselectedUntouched(job: Job, fs: FileSystem, w: World, path: string)
    requires WorldInv(job, fs, w) && OutOfScope(job, path)
    ensures Lookup(w.fs, path) == Lookup(fs, path)
  {
    OldOnlyIs(job, path);
    if !Foreign(job, path) {
      var i: nat :| Named(job, i) && (path == NameOf(job, i) || path == Staged(NameOf(job, i)));
      assert TaskInv(job, fs, w, i);
    }
  }

  /** Over a tree that already verifies, a run opens, fetches and writes nothing: no chunk task is ever spawned, no
      permit taken, and apart from removed old-only files the file system is the same. */
  lemma VerifiedTreeIsLeftAlone(job: Job, fs: FileSystem, moves: seq<Move>, w: World)
    requires DistinctNames(job) && Exec(job, fs, moves) == Some(w)
    requires forall i: nat | Selected(job, i) :: EntryVerifies(job, fs, i)
    ensures forall i, k | 0 <= i < |w.tasks| && w.tasks[i].Some? && 0 <= k < |w.tasks[i].value.ch| ::
              w.tasks[i].value.ch[k].Unspawned?
    ensures w.free == job.maxDownloads
    ensures forall path | !OldOnly(job, path) :: Lookup(w.fs, path) == Lookup(fs, path)
  {
    ExecInv(job, fs, moves);
    forall i | 0 <= i < |w.tasks| && w.tasks[i].Some?
      ensures Named(job, i) && View(w.fs, NameOf(job, i)) == View(fs, NameOf(job, i))
      ensures forall k | 0 <= k < |w.tasks[i].value.ch| :: w.tasks[i].value.ch[k].Unspawned?
    {
      IdleEntry(job, fs, w, i);
    }
    IdleHoldsNothing(w.tasks);
    forall path | !OldOnly(job, path)
      ensures Lookup(w.fs, path) == Lookup(fs, path)
    {
      if !Foreign(job, path) {
        var i: nat :| Named(job, i) && (path == NameOf(job, i) || path == Staged(NameOf(job, i)));
        assert TaskInv(job, fs, w, i);
      }
    }
  }

  lemma IdleEntry(job: Job, fs: FileSystem, w: World, i: nat)
    requires i < |w.tasks| && w.tasks[i].Some? && TaskInv(job, fs, w, i)
    requires Selected(job, i) ==> EntryVerifies(job, fs, i)
    ensures Named(job, i) && View(w.fs, NameOf(job, i)) == View(fs, NameOf(job, i))
    ensures forall k | 0 <= k < |w.tasks[i].value.ch| :: w.tasks[i].value.ch[k].Unspawned?
  {
    IdleState(TaskOf(job, i), View(fs, NameOf(job, i)), LocalOf(job, w, i));
  }

  lemma {:induction false} IdleHoldsNothing(tasks: seq<Option<Task>>)
    requires forall i, k | 0 <= i < |tasks| && tasks[i].Some? && 0 <= k < |tasks[i].value.ch| ::
               tasks[i].value.ch[k].Unspawned?
    ensures Holders(tasks) == 0
  {
    if tasks != [] {
      var n := |tasks| - 1;
      IdleHoldsNothing(tasks[..n]);
      if tasks[n].Some? {
        NoneHeld(tasks[n].value.ch);
      }
    }
  }
}
