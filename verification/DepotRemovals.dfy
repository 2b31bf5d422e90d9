/** Which obsolete files a download removes (crates/steam-client/src/download.rs:304-336). */
module DepotRemovals {
  import opened Base
  import FileProtocol
  import opened Depot
  import opened DepotInvariant

  /** Old entry `k` has that name, is no directory (bit 0x40 of its flags is clear), and no new entry has the name. */
  ghost predicate Superseded(job: Job, k: nat, path: string)
  {
    && job.previous.Some? && k < |job.previous.value|
    && var f := job.previous.value[k];
       && f.name == Some(path) && (f.flags.None? || f.flags.value / 0x40 % 2 == 0)
       && forall i | 0 <= i < |job.files| :: job.files[i].name != Some(path)
  }

  lemma NewNameIs(job: Job, path: string)
    ensures NewName(job, path) <==> exists i :: 0 <= i < |job.files| && job.files[i].name == Some(path)
  {
    if i :| 0 <= i < |job.files| && job.files[i].name == Some(path) {
      assert Named(job, i) && NameOf(job, i) == path;
    }
  }

  lemma SupersededIs(job: Job, k: nat, path: string)
    ensures Superseded(job, k, path) <==>
            && job.previous.Some? && k < |job.previous.value| && Obsolete(job, job.previous.value[k])
            && job.previous.value[k].name == Some(path)
  {
    NewNameIs(job, path);
  }

  lemma OldOnlyIs(job: Job, path: string)
    ensures OldOnly(job, path) <==> exists k: nat :: Superseded(job, k, path)
  {
    forall k: nat
      ensures Superseded(job, k, path) <==>
              && job.previous.Some? && k < |job.previous.value| && Obsolete(job, job.previous.value[k])
              && job.previous.value[k].name == Some(path)
    {
      SupersededIs(job, k, path);
    }
  }

  /** The condition on names: no two new entries share one, and none of them, nor of the obsolete old files, is in the
      staging directory. */
  lemma DistinctNamesIs(job: Job)
    ensures DistinctNames(job) <==>
            && (forall i, j | 0 <= i < j < |job.files| && job.files[i].name.Some? ::
                  job.files[i].name != job.files[j].name)
            && (forall i | 0 <= i < |job.files| && job.files[i].name.Some? ::
                  !(".staging/" <= job.files[i].name.value))
            && (forall path, k: nat | Superseded(job, k, path) :: !(".staging/" <= path))
  {
    forall path
      ensures OldOnly(job, path) <==> exists k: nat :: Superseded(job, k, path)
    {
      OldOnlyIs(job, path);
    }
    if DistinctNames(job) {
      forall i, j | 0 <= i < j < |job.files| && job.files[i].name.Some?
        ensures job.files[i].name != job.files[j].name
      {
        assert Named(job, i) && (Named(job, j) ==> NameOf(job, i) != NameOf(job, j));
      }
      forall i | 0 <= i < |job.files| && job.files[i].name.Some?
        ensures !(".staging/" <= job.files[i].name.value)
      {
        assert Named(job, i) && !UnderStaging(NameOf(job, i));
      }
      forall path, k: nat | Superseded(job, k, path)
        ensures !(".staging/" <= path)
      {
        assert OldOnly(job, path) && !UnderStaging(path);
      }
    }
  }

  /** Move `k` tried to remove `path`, and succeeded or not. */
  ghost predicate Attempt(job: Job, fs: FileSystem, moves: seq<Move>, k: nat, path: string, ok: bool)
    requires k < |moves|
  {
    var r := Exec(job, fs, moves[..k]);
    moves[k] == Delete(ok) && r.Some? && Tries(job, r.value, path)
  }

  /** The deletion loop has come to an obsolete entry of that name, and the file is there. */
  ghost predicate Tries(job: Job, w: World, path: string)
  {
    w.coord.Deleting? && Superseded(job, w.coord.next, path) && path in w.fs
  }

  ghost predicate Attempted(job: Job, fs: FileSystem, moves: seq<Move>, path: string, ok: bool)
  {
    exists k: nat :: k < |moves| && Attempt(job, fs, moves, k, path, ok)
  }

  lemma AttemptedLast(job: Job, fs: FileSystem, moves: seq<Move>, path: string, ok: bool)
    requires moves != []
    ensures var n := |moves| - 1;
            Attempted(job, fs, moves, path, ok) <==>
            Attempted(job, fs, moves[..n], path, ok) || Attempt(job, fs, moves, n, path, ok)
  {
    var n := |moves| - 1;
    forall k: nat | k < n
      ensures Attempt(job, fs, moves[..n], k, path, ok) <==> Attempt(job, fs, moves, k, path, ok)
    {
      assert moves[..n][..k] == moves[..k];
    }
  }

  lemma KeptStep(job: Job, w: World, m: Move, path: string)
    requires |w.tasks| == |job.files| && CanMove(job, w, m)
    ensures path in Next(job, w, m).kept <==> path in w.kept || (m == Delete(false) && Tries(job, w, path))
  {
    if w.coord.Deleting? {
      SupersededIs(job, w.coord.next, path);
    }
  }

  /** What is on record as kept is exactly what could not be removed. */
  lemma {:induction false} KeptExactly(job: Job, fs: FileSystem, moves: seq<Move>, path: string)
    ensures var r := Exec(job, fs, moves);
            r.Some? ==> (path in r.value.kept <==> Attempted(job, fs, moves, path, false))
  {
    if moves != [] {
      var n := |moves| - 1;
      var before := Exec(job, fs, moves[..n]);
      KeptExactly(job, fs, moves[..n], path);
      if before.Some? && |before.value.tasks| == |job.files| && CanMove(job, before.value, moves[n]) {
        AttemptedLast(job, fs, moves, path, false);
        KeptStep(job, before.value, moves[n], path);
      }
    }
  }

  lemma PresentStep(job: Job, w: World, m: Move, path: string)
    requires DistinctNames(job) && |w.tasks| == |job.files| && CanMove(job, w, m) && OldOnly(job, path)
    ensures path in Next(job, w, m).fs <==> path in w.fs && !(m == Delete(true) && Tries(job, w, path))
  {
    OldOnlyIsForeign(job, path);
    if w.coord.Deleting? {
      SupersededIs(job, w.coord.next, path);
    }
    if m.FileStep? {
      FileStepElsewhere(job, w, m.i, m.step, path);
    }
  }

  lemma FileStepElsewhere(job: Job, w: World, i: nat, a: FileProtocol.Step, path: string)
    requires |w.tasks| == |job.files| && CanMove(job, w, FileStep(i, a)) && Foreign(job, path)
    ensures Lookup(Next(job, w, FileStep(i, a)).fs, path) == Lookup(w.fs, path)
  {
    var d := FileProtocol.Apply(TaskOf(job, i), job.settings, LocalOf(job, w, i), a).disk;
    StoreElsewhere(w.fs, NameOf(job, i), d, path);
  }

  /** An obsolete file is gone exactly if it was never there or a removal of it succeeded. */
  lemma {:induction false} GoneExactly(job: Job, fs: FileSystem, moves: seq<Move>, path: string)
    requires DistinctNames(job) && OldOnly(job, path)
    ensures var r := Exec(job, fs, moves);
            r.Some? ==> (path in r.value.fs <==> path in fs && !Attempted(job, fs, moves, path, true))
  {
    if moves != [] {
      var n := |moves| - 1;
      var before := Exec(job, fs, moves[..n]);
      GoneExactly(job, fs, moves[..n], path);
      if before.Some? && |before.value.tasks| == |job.files| && CanMove(job, before.value, moves[n]) {
        AttemptedLast(job, fs, moves, path, true);
        PresentStep(job, before.value, moves[n], path);
      }
    }
  }
}
