/** Runs toward one manifest, down to the bytes (crates/depotdownloader/src/main.rs:745-794 over
    crates/steam-client/src/download.rs:170-568). */
module ConvergenceContent {
  import opened Base
  import opened Chunks
  import opened FileProtocol
  import opened FileTheorems
  import opened FileContent
  import opened Depot
  import opened DepotInvariant
  import opened Convergence

  // ---------------------------------------------------------------- one download

  /** A response in the run that passes the gate is the published chunk. */
  ghost predicate MoveGenuine(job: Job, content: File -> Bytes, m: Move)
  {
    m.FileStep? && m.step.FetchOk? && m.i < |job.files| && m.step.k < |job.files[m.i].chunks| ==>
      Genuine(job.settings, content(job.files[m.i]), job.files[m.i].chunks[m.step.k], m.step.raw)
  }

  ghost predicate AllDelivered(job: Job, content: File -> Bytes, w: World)
  {
    && |w.tasks| == |job.files|
    && forall i: nat | i < |w.tasks| && w.tasks[i].Some? :: EntryDelivered(job, content, w, i)
  }

  ghost predicate EntryDelivered(job: Job, content: File -> Bytes, w: World, i: nat)
    requires i < |w.tasks| == |job.files| && w.tasks[i].Some?
  {
    Named(job, i) && |w.tasks[i].value.ch| == |job.files[i].chunks|
    && Delivered(TaskOf(job, i), job.settings, content(job.files[i]), w.tasks[i].value.ch)
  }

  lemma DeliveredMove(job: Job, content: File -> Bytes, w: World, m: Move)
    requires AllDelivered(job, content, w) && CanMove(job, w, m) && MoveGenuine(job, content, m)
    ensures AllDelivered(job, content, Next(job, w, m))
  {
    var w' := Next(job, w, m);
    forall i: nat | i < |w'.tasks| && w'.tasks[i].Some?
      ensures EntryDelivered(job, content, w', i)
    {
      if m.FileStep? && m.i == i {
        assert EntryDelivered(job, content, w, i);
        DeliveredStep(TaskOf(job, i), job.settings, content(job.files[i]), LocalOf(job, w, i), m.step);
      } else if w'.tasks[i] == w.tasks[i] {
        assert EntryDelivered(job, content, w, i);
      }
    }
  }

  lemma {:induction false} ExecDelivered(job: Job, content: File -> Bytes, fs: FileSystem, moves: seq<Move>)
    requires forall m | m in moves :: MoveGenuine(job, content, m)
    ensures var r := Exec(job, fs, moves); r.Some? ==> AllDelivered(job, content, r.value)
  {
    if moves != [] {
      var n := |moves| - 1;
      ExecDelivered(job, content, fs, moves[..n]);
      var r := Exec(job, fs, moves[..n]);
      if r.Some? && CanMove(job, r.value, moves[n]) {
        DeliveredMove(job, content, r.value, moves[n]);
      }
    }
  }

  // ---------------------------------------------------------------- hypotheses about the bytes at hand

  function Entry(u: Update, i: nat): FileTask
    requires Target(u, i)
  {
    FileTask(u.newFiles[i].name.value, u.newFiles[i].size, u.newFiles[i].chunks, None)
  }

  /** The chunks of every target cover it. */
  ghost predicate Covering(u: Update)
  {
    forall i: nat | Target(u, i) :: Tiled(Entry(u, i))
  }

  /** No collision among the bytes one run meets: a staged chunk that verifies as the run starts, and a response that
      passes the gate, are the published chunk. */
  ghost predicate AtHand(u: Update, s: Machine, r: Run)
  {
    && (forall i: nat | Target(u, i) ::
          StagingGenuine(Entry(u, i), u.content(u.newFiles[i]), View(s.fs, u.newFiles[i].name.value)))
    && (forall m | m in r.moves :: MoveGenuine(JobOf(u, s, r), u.content, m))
  }

  /** Targets that verify hold the published bytes. */
  ghost predicate Exact(u: Update, fs: FileSystem)
  {
    forall i: nat | Target(u, i) && TargetVerifies(u, fs, i) ::
      Lookup(fs, u.newFiles[i].name.value) == Some(u.content(u.newFiles[i]))
  }

  // ---------------------------------------------------------------- proof

  lemma TargetContent(u: Update, s: Machine, r: Run, w: World, i: nat)
    requires Honest(u) && WellFormed(u) && Covering(u) && Underway(u, s.fs) && Exact(u, s.fs) && AtHand(u, s, r)
    requires WorldInv(JobOf(u, s, r), s.fs, w) && AllDelivered(JobOf(u, s, r), u.content, w) && Target(u, i)
    requires w.tasks[i].Some? && w.tasks[i].value.phase.Installed?
    ensures Lookup(w.fs, u.newFiles[i].name.value) == Some(u.content(u.newFiles[i]))
  {
    var job, name, content := JobOf(u, s, r), u.newFiles[i].name.value, u.content(u.newFiles[i]);
    assert TaskInv(job, s.fs, w, i) && EntryDelivered(job, u.content, w, i);
    var t, d := TaskOf(job, i), View(s.fs, name);
    EntryTiled(u, i, t);
    assert StagingGenuine(Entry(u, i), content, d);
    if !TargetVerifies(u, s.fs, i) && DeltaActive(t, d) {
      FindIn(u.oldFiles, name);
      OldContentMatches(u, i, OldFile(job, name).value, t, d);
    }
    InstalledContent(t, job.settings, content, d, LocalOf(job, w, i));
  }

  lemma EntryTiled(u: Update, i: nat, t: FileTask)
    requires Honest(u) && WellFormed(u) && Covering(u) && Target(u, i)
    requires t.size == u.newFiles[i].size && t.chunks == u.newFiles[i].chunks
    ensures Tiled(t) && WellDescribed(t.chunks) && |u.content(u.newFiles[i])| == t.size.value
  {
    var e := Entry(u, i);
    assert Tiled(e);
    forall p: nat | p < t.size.value
      ensures Covered(t, p)
    {
      assert Covered(e, p);
    }
  }

  /** Whatever a run does and wherever it stops, a target that verifies after it holds the published bytes. */
  lemma RunKeepsExact(u: Update, s: Machine, r: Run, s': Machine)
    requires Honest(u) && WellFormed(u) && Covering(u) && Underway(u, s.fs) && Exact(u, s.fs)
    requires RunStep(u, s, r, s') && !UpToDate(u, s, r) && AtHand(u, s, r)
    ensures Exact(u, s'.fs)
  {
    var job := JobOf(u, s, r);
    var w := Exec(job, s.fs, r.moves).value;
    ExecInv(job, s.fs, r.moves);
    ExecDelivered(job, u.content, s.fs, r.moves);
    forall i: nat | Target(u, i) && TargetVerifies(u, s'.fs, i)
      ensures Lookup(s'.fs, u.newFiles[i].name.value) == Some(u.content(u.newFiles[i]))
    {
      assert Named(job, i) && !UnderStaging(NameOf(job, i));
      assert TaskInv(job, s.fs, w, i);
      if w.tasks[i].Some? && w.tasks[i].value.phase.Installed? {
        TargetContent(u, s, r, w, i);
      } else {
        assert TargetVerifies(u, s.fs, i);
      }
    }
  }

  /** Over any number of runs toward one manifest, each cut off or failing anywhere, from a correctly installed old
      manifest or any tree on its way: after a run that returns Ok, and whenever the new id is recorded, every named
      file of the new manifest holds exactly its published bytes. */
  lemma {:induction false} ConvergesToContent(u: Update, states: seq<Machine>, runs: seq<Run>, n: nat)
    requires Honest(u) && WellFormed(u) && Covering(u) && History(u, states, runs) && n <= |runs|
    requires forall k | 0 <= k < n && ReturnedOk(u, states[k], runs[k]) && !UpToDate(u, states[k], runs[k]) ::
               Thorough(u, states[k], runs[k])
    requires states[0].installed in {None, Some(u.oldId), Some(u.newId)}
    requires Underway(u, states[0].fs) && (states[0].installed == Some(u.newId) ==> Reached(u, states[0].fs))
    requires Exact(u, states[0].fs) && forall k | 0 <= k < n && !UpToDate(u, states[k], runs[k]) ::
               AtHand(u, states[k], runs[k])
    ensures Exact(u, states[n].fs)
    ensures states[n].installed == Some(u.newId) || (exists k | 0 <= k < n :: ReturnedOk(u, states[k], runs[k])) ==>
              forall i: nat | Target(u, i) ::
                Lookup(states[n].fs, u.newFiles[i].name.value) == Some(u.content(u.newFiles[i]))
  {
    Converges(u, states, runs, n);
    if n > 0 {
      ConvergesToContent(u, states, runs, n - 1);
      Converges(u, states, runs, n - 1);
      if !UpToDate(u, states[n - 1], runs[n - 1]) {
        RunKeepsExact(u, states[n - 1], runs[n - 1], states[n]);
      }
    }
  }
}
