/** A depot download seen from one of its files: whatever the others do, the file's two paths and its task go through a
    run of the single-file machine (crates/steam-client/src/download.rs:170-339 over 348-568). */
module DepotRuns {
  import opened Base
  import opened Chunks
  import opened FileProtocol
  import opened FileTheorems
  import opened FileOrigins
  import opened Depot
  import opened DepotInvariant

  /** The steps of entry `i` among the moves. */
  function StepsOf(moves: seq<Move>, i: nat): seq<Step>
  {
    if moves == [] then [] else StepsOf(moves[..|moves| - 1], i) + StepOf(moves[|moves| - 1], i)
  }

  function StepOf(m: Move, i: nat): seq<Step>
  {
    if m.FileStep? && m.i == i then [m.step] else []
  }

  lemma {:induction false} StepsAreMoves(moves: seq<Move>, i: nat, a: Step)
    ensures a in StepsOf(moves, i) <==> FileStep(i, a) in moves
  {
    if moves != [] {
      var n := |moves| - 1;
      StepsAreMoves(moves[..n], i, a);
      assert moves == moves[..n] + [moves[n]];
    }
  }

  /** The entry's task is where its own steps lead from the disk the download found. */
  ghost predicate Follows(job: Job, fs: FileSystem, w: World, i: nat, steps: seq<Step>)
    requires Named(job, i) && i < |w.tasks|
  {
    match w.tasks[i]
    case None => steps == []
    case Some(_) =>
      Run(TaskOf(job, i), job.settings, View(fs, NameOf(job, i)), steps) == Some(LocalOf(job, w, i))
  }

  lemma OwnStepFollows(job: Job, fs: FileSystem, w: World, i: nat, a: Step, steps: seq<Step>)
    requires |w.tasks| == |job.files| && Named(job, i) && CanMove(job, w, FileStep(i, a))
    requires Follows(job, fs, w, i, steps)
    ensures Follows(job, fs, Next(job, w, FileStep(i, a)), i, steps + [a])
  {
    var t, s := TaskOf(job, i), LocalOf(job, w, i);
    assert (steps + [a])[..|steps|] == steps;
    ViewStore(w.fs, NameOf(job, i), Apply(t, job.settings, s, a).disk);
  }

  lemma OtherStepFollows(job: Job, fs: FileSystem, w: World, i: nat, j: nat, a: Step, steps: seq<Step>)
    requires DistinctNames(job) && |w.tasks| == |job.files| && Named(job, i) && j != i
    requires CanMove(job, w, FileStep(j, a)) && Follows(job, fs, w, i, steps)
    ensures Follows(job, fs, Next(job, w, FileStep(j, a)), i, steps)
  {
    var d := Apply(TaskOf(job, j), job.settings, LocalOf(job, w, j), a).disk;
    ViewElsewhere(w.fs, NameOf(job, j), d, NameOf(job, i));
  }

  lemma ScanFollows(job: Job, fs: FileSystem, w: World, i: nat, steps: seq<Step>)
    requires WorldInv(job, fs, w) && Named(job, i) && CanMove(job, w, Scan) && Follows(job, fs, w, i, steps)
    ensures Follows(job, fs, Next(job, w, Scan), i, steps)
  {
    assert TaskInv(job, fs, w, i);
  }

  lemma DeleteFollows(job: Job, fs: FileSystem, w: World, i: nat, ok: bool, steps: seq<Step>)
    requires DistinctNames(job) && |w.tasks| == |job.files| && Named(job, i)
    requires CanMove(job, w, Delete(ok)) && Follows(job, fs, w, i, steps)
    ensures Follows(job, fs, Next(job, w, Delete(ok)), i, steps)
  {
    var k, w' := w.coord.next, Next(job, w, Delete(ok));
    if w'.fs != w.fs {
      var path := job.previous.value[k].name.value;
      assert OldOnly(job, path);
      OldOnlyIsForeign(job, path);
      assert View(w'.fs, NameOf(job, i)) == View(w.fs, NameOf(job, i));
    }
  }

  lemma MoveFollows(job: Job, fs: FileSystem, w: World, i: nat, m: Move, steps: seq<Step>)
    requires DistinctNames(job) && WorldInv(job, fs, w) && Named(job, i) && CanMove(job, w, m)
    requires Follows(job, fs, w, i, steps)
    ensures i < |Next(job, w, m).tasks| && Follows(job, fs, Next(job, w, m), i, steps + StepOf(m, i))
  {
    assert steps + [] == steps;
    match m
    case Scan => ScanFollows(job, fs, w, i, steps);
    case AwaitFile =>
    case Delete(ok) => DeleteFollows(job, fs, w, i, ok, steps);
    case FileStep(j, a) =>
      if j == i {
        OwnStepFollows(job, fs, w, i, a, steps);
      } else {
        OtherStepFollows(job, fs, w, i, j, a, steps);
      }
  }

  /** Every interleaving of a whole download is, for each of its files, a run of that file alone. */
  lemma {:induction false} EntryRun(job: Job, fs: FileSystem, moves: seq<Move>, i: nat)
    requires DistinctNames(job) && Named(job, i)
    ensures var r := Exec(job, fs, moves);
            r.Some? ==> i < |r.value.tasks| && Follows(job, fs, r.value, i, StepsOf(moves, i))
  {
    if moves != [] {
      var n := |moves| - 1;
      EntryRun(job, fs, moves[..n], i);
      ExecInv(job, fs, moves[..n]);
      var r := Exec(job, fs, moves[..n]);
      if r.Some? && CanMove(job, r.value, moves[n]) {
        MoveFollows(job, fs, r.value, i, moves[n], StepsOf(moves[..n], i));
      }
    }
  }

  // ---------------------------------------------------------------- what a download installs, in the manifests' fields

  /** Entry `old` of the previous manifest is the first with that name; `None` if there is none. */
  ghost predicate FirstNamed(previous: Option<seq<File>>, name: string, at: Option<nat>)
  {
    match at
    case None => previous.Some? ==> forall j | 0 <= j < |previous.value| :: previous.value[j].name != Some(name)
    case Some(m) =>
      && previous.Some? && m < |previous.value| && previous.value[m].name == Some(name)
      && forall j | 0 <= j < m :: previous.value[j].name != Some(name)
  }

  lemma {:induction false} FindIsFirst(files: seq<File>, name: string, at: Option<nat>)
    requires FirstNamed(Some(files), name, at)
    ensures Find(files, name) == if at.Some? then Some(files[at.value]) else None
  {
    if files != [] && files[0].name != Some(name) {
      assert forall j | 0 <= j < |files| - 1 :: files[1..][j] == files[j + 1];
      FindIsFirst(files[1..], name, if at.Some? then Some(at.value - 1) else None);
    }
  }

  /** The file the new manifest's entry `i` asks for, with the chunk list of old entry `at` to copy from. */
  function Asked(files: seq<File>, i: nat, previous: Option<seq<File>>, at: Option<nat>): FileTask
    requires i < |files| && files[i].name.Some?
    requires at.Some? ==> previous.Some? && at.value < |previous.value|
  {
    FileTask(files[i].name.value, files[i].size, files[i].chunks,
             if at.Some? then Some(previous.value[at.value].chunks) else None)
  }

  /** The content hash is the one the old entry had. */
  predicate SameHash(f: File, previous: Option<seq<File>>, at: Option<nat>)
    requires at.Some? ==> previous.Some? && at.value < |previous.value|
  {
    at.Some? && f.sha.Some? && previous.value[at.value].sha == f.sha
  }

  /** The installed file under the name and the one under ".staging/". */
  function Both(fs: FileSystem, name: string): Disk
  {
    Disk(if ".staging/" + name in fs then Some(fs[".staging/" + name]) else None,
         if name in fs then Some(fs[name]) else None)
  }

  /** What the task `t` leaves of `d` when it returns Ok after `steps`. */
  ghost predicate Leaves(t: FileTask, g: Settings, d: Disk, steps: seq<Step>, d': Disk)
  {
    && (Verifies(d.final, t.size, t.chunks) ==> d' == d)
    && (!Verifies(d.final, t.size, t.chunks) && AllStaged(t, d) ==> d' == Disk(None, d.staged))
    && (!Verifies(d.final, t.size, t.chunks) && !AllStaged(t, d) ==>
          && d'.staged.None? && d'.final.Some? && t.size == Some(|d'.final.value|)
          && forall k: nat | k < |t.chunks| && HasRange(t.chunks[k]) ::
               t.chunks[k].offset.value + t.chunks[k].size.value <= |d'.final.value| &&
               Origin(t, g, d, steps, d'.final.value, k))
  }

  lemma JobFields(job: Job, fs: FileSystem, i: nat, at: Option<nat>)
    requires i < |job.files| && job.files[i].name.Some?
    requires FirstNamed(job.previous, job.files[i].name.value, at)
    ensures Named(job, i) && NameOf(job, i) == job.files[i].name.value
    ensures TaskOf(job, i) == Asked(job.files, i, job.previous, at)
    ensures HashSkipped(job, fs, i) <==> SameHash(job.files[i], job.previous, at) && job.files[i].name.value in fs
    ensures View(fs, NameOf(job, i)) == Both(fs, job.files[i].name.value)
  {
    if job.previous.Some? {
      FindIsFirst(job.previous.value, job.files[i].name.value, at);
    }
  }

  /** When `download` returns Ok, an entry that is wanted and no directory (bit 0x40 clear) is left alone if its hash is
      that of the first old entry of its name and its file is there; else its file was checked, resumed, copied from
      the old file and fetched as that entry's chunk list says. */
  lemma EntryInstalled(job: Job, fs: FileSystem, moves: seq<Move>, w: World, i: nat, at: Option<nat>)
    requires DistinctNames(job) && Exec(job, fs, moves) == Some(w) && w.coord.Succeeded?
    requires i < |job.files| && job.files[i].name.Some? && job.wanted(job.files[i].name.value)
    requires job.files[i].flags.None? || job.files[i].flags.value / 0x40 % 2 == 0
    requires FirstNamed(job.previous, job.files[i].name.value, at)
    ensures var name, t := job.files[i].name.value, Asked(job.files, i, job.previous, at);
            if SameHash(job.files[i], job.previous, at) && name in fs then Both(w.fs, name) == Both(fs, name)
            else Layout(t) ==> Leaves(t, job.settings, Both(fs, name), StepsOf(moves, i), Both(w.fs, name))
  {
    JobFields(job, fs, i, at);
    JobFields(job, w.fs, i, at);
    ExecInv(job, fs, moves);
    assert Selected(job, i) && TaskInv(job, fs, w, i) && Scanned(job, fs, w, i);
    if w.tasks[i].Some? && Layout(TaskOf(job, i)) {
      EntryRun(job, fs, moves, i);
      InstalledFrom(TaskOf(job, i), job.settings, View(fs, NameOf(job, i)), StepsOf(moves, i), LocalOf(job, w, i));
    }
  }

  /** An entry that is not wanted, or is a directory, is never touched. */
  lemma EntryIgnored(job: Job, fs: FileSystem, moves: seq<Move>, w: World, i: nat)
    requires DistinctNames(job) && Exec(job, fs, moves) == Some(w)
    requires i < |job.files| && job.files[i].name.Some?
    requires !job.wanted(job.files[i].name.value) ||
               (job.files[i].flags.Some? && job.files[i].flags.value / 0x40 % 2 == 1)
    ensures Both(w.fs, job.files[i].name.value) == Both(fs, job.files[i].name.value)
  {
    ExecInv(job, fs, moves);
    assert Named(job, i) && TaskInv(job, fs, w, i);
  }
}
