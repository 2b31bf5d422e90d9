/** Repeated runs toward one manifest (crates/depotdownloader/src/main.rs:745-794), each cut off anywhere, over the
    installed tree and the recorded manifest id. */
module Convergence {
  import opened Base
  import opened Checksum
  import opened Chunks
  import opened FileProtocol
  import opened FileTheorems
  import opened FileContent
  import opened Depot
  import opened DepotTheorems
  import DepotProgress
  import opened DepotRuns

  /** The manifest installed before, the one aimed at, and the bytes each entry was published with. */
  datatype Update = Update(oldId: nat, oldFiles: seq<File>, newId: nat, newFiles: seq<File>, content: File -> Bytes)

  /** The installed tree and `depot.json`'s entry for the depot. */
  datatype Machine = Machine(fs: FileSystem, installed: Option<nat>)

  /** `wanted` is the file filter; without one it accepts every name. */
  datatype Run = Run(verify: bool, cacheHit: bool, wanted: string -> bool, maxDownloads: nat, settings: Settings,
      moves: seq<Move>)

  predicate UpToDate(u: Update, s: Machine, r: Run)
  {
    s.installed == Some(u.newId) && !r.verify
  }

  /** The previous manifest is the recorded one, if it differs and is still cached. */
  function JobOf(u: Update, s: Machine, r: Run): Job
  {
    var previous := if s.installed == Some(u.oldId) && u.oldId != u.newId && r.cacheHit then Some(u.oldFiles) else None;
    Job(u.newFiles, previous, r.wanted, r.maxDownloads, r.settings)
  }

  ghost predicate ReturnedOk(u: Update, s: Machine, r: Run)
  {
    UpToDate(u, s, r) || (var w := Exec(JobOf(u, s, r), s.fs, r.moves); w.Some? && w.value.coord.Succeeded?)
  }

  /** One run, stopped after its moves. Staging files may be left holding anything. The id is recorded only after Ok,
      and then the write may succeed, fail, or be torn so that the next load finds nothing. */
  ghost predicate RunStep(u: Update, s: Machine, r: Run, s': Machine)
  {
    if UpToDate(u, s, r) then s' == s
    else
      var w := Exec(JobOf(u, s, r), s.fs, r.moves);
      && w.Some?
      && (forall path | !UnderStaging(path) :: Lookup(s'.fs, path) == Lookup(w.value.fs, path))
      && (s'.installed == s.installed || (w.value.coord.Succeeded? && s'.installed in {Some(u.newId), None}))
  }

  ghost predicate History(u: Update, states: seq<Machine>, runs: seq<Run>)
  {
    |states| == |runs| + 1 && forall i | 0 <= i < |runs| :: RunStep(u, states[i], runs[i], states[i + 1])
  }

  // ---------------------------------------------------------------- hypotheses

  predicate Target(u: Update, i: nat)
  {
    i < |u.newFiles| && u.newFiles[i].name.Some? && !IsDirectory(u.newFiles[i])
  }

  /** Every target the filter keeps out verifies before the run. */
  ghost predicate Thorough(u: Update, s: Machine, r: Run)
  {
    forall i: nat | Target(u, i) && !r.wanted(u.newFiles[i].name.value) :: TargetVerifies(u, s.fs, i)
  }

  ghost predicate SameChunk(f: Bytes, c: Chunk, h: Bytes, e: Chunk)
  {
    HasRange(c) && HasRange(e) && Part(f, c) == Part(h, e)
  }

  /** Published honestly: the new entries describe their content, equal content hashes mean equal content, and equal
      chunk ids mean equal chunk bytes. */
  ghost predicate Honest(u: Update)
  {
    && (forall i: nat | Target(u, i) ::
        Verifies(Some(u.content(u.newFiles[i])), u.newFiles[i].size, u.newFiles[i].chunks))
    && (forall f, h | f in u.oldFiles && h in u.newFiles && f.sha.Some? && f.sha == h.sha ::
        u.content(f) == u.content(h))
    && (forall f, h, c, e | f in u.oldFiles && h in u.newFiles && c in f.chunks && e in h.chunks && c.id.Some? &&
        c.id == e.id ::
          SameChunk(u.content(f), c, u.content(h), e))
  }

  /** The new manifest's entries are complete, their chunks tile without overlap, and names are proper. */
  ghost predicate WellFormed(u: Update)
  {
    && u.oldId != u.newId
    && (forall i: nat | Target(u, i) ::
          WellDescribed(u.newFiles[i].chunks) &&
              Layout(FileTask(u.newFiles[i].name.value, u.newFiles[i].size, u.newFiles[i].chunks, None)))
    && (forall s: Machine, r: Run :: DistinctNames(JobOf(u, s, r)))
  }

  ghost predicate TargetVerifies(u: Update, fs: FileSystem, i: nat)
    requires Target(u, i)
  {
    Verifies(Lookup(fs, u.newFiles[i].name.value), u.newFiles[i].size, u.newFiles[i].chunks)
  }

  /** Every target already verifies, or still is what the old manifest published under its name (or absent). */
  ghost predicate Underway(u: Update, fs: FileSystem)
  {
    forall i: nat | Target(u, i) ::
      || TargetVerifies(u, fs, i)
      || (var name, prev := u.newFiles[i].name.value, Find(u.oldFiles, u.newFiles[i].name.value);
          prev.Some? && name in fs ==> fs[name] == u.content(prev.value))
  }

  ghost predicate Reached(u: Update, fs: FileSystem)
  {
    forall i: nat | Target(u, i) :: TargetVerifies(u, fs, i)
  }

  // ---------------------------------------------------------------- proof

  lemma {:induction false} FindIn(files: seq<File>, name: string)
    ensures var f := Find(files, name); f.Some? ==> f.value in files && f.value.name == Some(name)
  {
    if files != [] && files[0].name != Some(name) {
      FindIn(files[1..], name);
    }
  }

  lemma {:induction false} OldMatchIn(chunks: seq<Chunk>, id: ChunkId)
    ensures var c := OldMatch(chunks, id); c.Some? ==> c.value in chunks && c.value.id == Some(id)
  {
    if chunks != [] && chunks[0].id != Some(id) {
      OldMatchIn(chunks[1..], id);
    }
  }

  /** Old content offers exactly the bytes the new chunks call for. */
  lemma OldContentMatches(u: Update, i: nat, f: File, t: FileTask, d: Disk)
    requires Honest(u) && WellFormed(u) && Target(u, i) && f in u.oldFiles
    requires t.chunks == u.newFiles[i].chunks && t.oldChunks == Some(f.chunks) && d.final == Some(u.content(f))
    ensures OldFileMatches(t, d) && ReuseGenuine(t, u.content(u.newFiles[i]), d)
  {
    var h := u.newFiles[i];
    forall k | 0 <= k < |t.chunks| && t.chunks[k].id.Some? && OldMatch(f.chunks, t.chunks[k].id.value).Some?
      ensures HasRange(t.chunks[k])
      ensures var b := OldBytes(u.content(f), f.chunks, t.chunks[k]);
              b.Some? && b == Part(u.content(h), t.chunks[k]) && t.chunks[k].checksum == Some(SteamAdler(b.value))
    {
      var e := t.chunks[k];
      OldMatchIn(f.chunks, e.id.value);
      var c := OldMatch(f.chunks, e.id.value).value;
      assert SameChunk(u.content(f), c, u.content(h), e);
      assert ChunkGood(u.content(h), h.chunks[k]);
      assert Part(u.content(f), c).value == Part(u.content(h), e).value;
      assert c.size.value == e.size.value;
    }
  }

  lemma UnderwayIsHealthy(u: Update, s: Machine, r: Run)
    requires Honest(u) && WellFormed(u) && Underway(u, s.fs)
    ensures Healthy(JobOf(u, s, r), s.fs)
  {
    var job := JobOf(u, s, r);
    forall i: nat | Selected(job, i)
      ensures Layout(TaskOf(job, i)) && Sound(TaskOf(job, i), View(s.fs, NameOf(job, i)))
    {
      var t, name := TaskOf(job, i), NameOf(job, i);
      assert Target(u, i);
      assert Layout(FileTask(name, u.newFiles[i].size, u.newFiles[i].chunks, None));
      if !TargetVerifies(u, s.fs, i) {
        var d, prev := View(s.fs, name), OldFile(job, name);
        if DeltaActive(t, d) {
          FindIn(u.oldFiles, name);
          OldContentMatches(u, i, prev.value, t, d);
        }
        FaithfulIsSound(t, d);
      }
    }
  }

  /** However a run ends, each target verifies or is still what it was. */
  lemma RunKeepsUnderway(u: Update, s: Machine, r: Run, s': Machine)
    requires Honest(u) && WellFormed(u) && Underway(u, s.fs) && RunStep(u, s, r, s') && !UpToDate(u, s, r)
    ensures forall i: nat | Target(u, i) ::
              TargetVerifies(u, s'.fs, i) ||
                  Lookup(s'.fs, u.newFiles[i].name.value) == Lookup(s.fs, u.newFiles[i].name.value)
  {
    var job := JobOf(u, s, r);
    var w := Exec(job, s.fs, r.moves).value;
    UnderwayIsHealthy(u, s, r);
    forall i: nat | Target(u, i)
      ensures TargetVerifies(u, s'.fs, i) ||
                Lookup(s'.fs, u.newFiles[i].name.value) == Lookup(s.fs, u.newFiles[i].name.value)
    {
      var name := u.newFiles[i].name.value;
      assert Named(job, i) && NameOf(job, i) == name && NewName(job, name);
      TreeCrashAtomic(job, s.fs, r.moves, w, name);
      if InstalledAs(job, w.fs, name) {
        var j: nat :| Selected(job, j) && NameOf(job, j) == name && EntryVerifies(job, w.fs, j);
        assert i == j;
      }
    }
  }

  /** A run that returns Ok leaves every target verified if and only if those its filter kept out verified before: the
      others were installed, or skipped for an unchanged hash. Its id is recorded either way. */
  lemma OkReachesIff(u: Update, s: Machine, r: Run, s': Machine)
    requires Honest(u) && WellFormed(u) && Underway(u, s.fs) && RunStep(u, s, r, s')
    requires !UpToDate(u, s, r) && ReturnedOk(u, s, r)
    ensures Reached(u, s'.fs) <==> Thorough(u, s, r)
  {
    forall i: nat | Target(u, i)
      ensures TargetVerifies(u, s'.fs, i) <==> r.wanted(u.newFiles[i].name.value) || TargetVerifies(u, s.fs, i)
    {
      if r.wanted(u.newFiles[i].name.value) {
        WantedReached(u, s, r, s', i);
      } else {
        UnwantedUntouched(u, s, r, s', i);
      }
    }
  }

  lemma WantedReached(u: Update, s: Machine, r: Run, s': Machine, i: nat)
    requires Honest(u) && WellFormed(u) && Underway(u, s.fs) && RunStep(u, s, r, s')
    requires !UpToDate(u, s, r) && ReturnedOk(u, s, r) && Target(u, i) && r.wanted(u.newFiles[i].name.value)
    ensures TargetVerifies(u, s'.fs, i)
  {
    var job, name := JobOf(u, s, r), u.newFiles[i].name.value;
    var w := Exec(job, s.fs, r.moves).value;
    UnderwayIsHealthy(u, s, r);
    DownloadOk(job, s.fs, r.moves, w);
    assert Selected(job, i) && NameOf(job, i) == name;
    assert EntryOutcome(job, s.fs, w.fs, i) && !UnderStaging(name);
    FindIn(u.oldFiles, name);
    if HashUnchanged(job, i) {
      assert u.content(OldFile(job, name).value) == u.content(u.newFiles[i]);
    }
  }

  lemma UnwantedUntouched(u: Update, s: Machine, r: Run, s': Machine, i: nat)
    requires WellFormed(u) && RunStep(u, s, r, s')
    requires !UpToDate(u, s, r) && ReturnedOk(u, s, r) && Target(u, i) && !r.wanted(u.newFiles[i].name.value)
    ensures Lookup(s'.fs, u.newFiles[i].name.value) == Lookup(s.fs, u.newFiles[i].name.value)
  {
    var job, name := JobOf(u, s, r), u.newFiles[i].name.value;
    DownloadOk(job, s.fs, r.moves, Exec(job, s.fs, r.moves).value);
    assert Named(job, i) && NameOf(job, i) == name && NewName(job, name) && !UnderStaging(name);
    forall j: nat | Selected(job, j)
      ensures name != NameOf(job, j) && name != Staged(NameOf(job, j))
    {
      assert UnderStaging(Staged(NameOf(job, j)));
    }
    assert OutOfScope(job, name);
  }

  /** A run is skipped exactly if the id aimed at is on record and no verification is asked for; and then it changes
      nothing. */
  lemma OnlyUpToDateIdles(u: Update, s: Machine, r: Run, s': Machine)
    requires RunStep(u, s, r, s')
    ensures s.installed == Some(u.newId) && !r.verify ==> s' == s && ReturnedOk(u, s, r)
    ensures s.installed != Some(u.newId) || r.verify ==> Exec(JobOf(u, s, r), s.fs, r.moves).Some?
  {
  }

  /** What a run that returns Ok installs under a wanted entry's name, in the manifests' fields: the old manifest is
      used exactly if it is the one on record, is not the one aimed at, and is in the cache. */
  lemma RunInstalls(u: Update, s: Machine, r: Run, s': Machine, i: nat, usable: Option<seq<File>>, at: Option<nat>)
    requires RunStep(u, s, r, s') && (s.installed != Some(u.newId) || r.verify) && ReturnedOk(u, s, r)
    requires DistinctNames(JobOf(u, s, r))
    requires usable == if s.installed == Some(u.oldId) && u.oldId != u.newId && r.cacheHit then Some(u.oldFiles)
                       else None
    requires i < |u.newFiles| && u.newFiles[i].name.Some? && r.wanted(u.newFiles[i].name.value)
    requires u.newFiles[i].flags.None? || u.newFiles[i].flags.value / 0x40 % 2 == 0
    requires FirstNamed(usable, u.newFiles[i].name.value, at)
    ensures var name, t := u.newFiles[i].name.value, Asked(u.newFiles, i, usable, at);
            if SameHash(u.newFiles[i], usable, at) && name in s.fs
            then Both(s'.fs, name).final == Both(s.fs, name).final
            else Layout(t) ==>
                   exists staged ::
                     Leaves(t, r.settings, Both(s.fs, name), StepsOf(r.moves, i), Disk(staged, Both(s'.fs, name).final))
  {
    var job, name := JobOf(u, s, r), u.newFiles[i].name.value;
    var w := Exec(job, s.fs, r.moves).value;
    EntryInstalled(job, s.fs, r.moves, w, i, at);
    assert Named(job, i) && NameOf(job, i) == name && !UnderStaging(name);
    assert Lookup(s'.fs, name) == Lookup(w.fs, name);
    var d := Both(w.fs, name);
    assert Disk(d.staged, Both(s'.fs, name).final) == d;
  }

  /** What makes target `i` verify after a run that returns Ok, over any tree at all. */
  ghost predicate Arrives(u: Update, s: Machine, r: Run, i: nat)
    requires Target(u, i)
  {
    var job, name := JobOf(u, s, r), u.newFiles[i].name.value;
    if !r.wanted(name) || HashSkipped(job, s.fs, i) then TargetVerifies(u, s.fs, i)
    else Sound(TaskOf(job, i), View(s.fs, name))
  }

  /** Over any tree, on its way or not: after a run that returns Ok a target that was filtered out, or skipped for an
      unchanged hash, verifies exactly if it did before, and any other exactly if its start was sound. */
  lemma OkReachesExactly(u: Update, s: Machine, r: Run, s': Machine)
    requires WellFormed(u) && RunStep(u, s, r, s') && !UpToDate(u, s, r) && ReturnedOk(u, s, r)
    ensures forall i: nat | Target(u, i) :: TargetVerifies(u, s'.fs, i) <==> Arrives(u, s, r, i)
    ensures Reached(u, s'.fs) <==> forall i: nat | Target(u, i) :: Arrives(u, s, r, i)
  {
    forall i: nat | Target(u, i)
      ensures TargetVerifies(u, s'.fs, i) <==> Arrives(u, s, r, i)
    {
      if r.wanted(u.newFiles[i].name.value) {
        WantedArrives(u, s, r, s', i);
      } else {
        UnwantedUntouched(u, s, r, s', i);
      }
    }
  }

  lemma WantedArrives(u: Update, s: Machine, r: Run, s': Machine, i: nat)
    requires WellFormed(u) && RunStep(u, s, r, s') && !UpToDate(u, s, r) && ReturnedOk(u, s, r)
    requires Target(u, i) && r.wanted(u.newFiles[i].name.value)
    ensures TargetVerifies(u, s'.fs, i) <==> Arrives(u, s, r, i)
  {
    var job, name := JobOf(u, s, r), u.newFiles[i].name.value;
    var w := Exec(job, s.fs, r.moves).value;
    DownloadOk(job, s.fs, r.moves, w);
    assert Selected(job, i) && NameOf(job, i) == name && EntryOutcome(job, s.fs, w.fs, i) && !UnderStaging(name);
    assert Layout(FileTask(name, u.newFiles[i].size, u.newFiles[i].chunks, None));
  }

  /** What aiming at another manifest costs: a file left by an interrupted run toward a third manifest is skipped when
      its hash is equal in the recorded manifest and the new one. Some run returns Ok over it and has the new id
      recorded, and the file still does not verify. */
  lemma RetargetedRunIsRecorded(u: Update, s: Machine, i: nat, settings: Settings) returns (r: Run, s': Machine)
    requires WellFormed(u) && Target(u, i) && !TargetVerifies(u, s.fs, i) && s.installed == Some(u.oldId)
    requires var name := u.newFiles[i].name.value;
             && name in s.fs && Find(u.oldFiles, name).Some?
             && u.newFiles[i].sha.Some? && Find(u.oldFiles, name).value.sha == u.newFiles[i].sha
    requires settings.maxAttempts >= 1
    requires DepotProgress.Supplied(Job(u.newFiles, Some(u.oldFiles), _ => true, 1, settings))
    ensures RunStep(u, s, r, s') && ReturnedOk(u, s, r) && s'.installed == Some(u.newId)
    ensures (forall name :: r.wanted(name)) && !TargetVerifies(u, s'.fs, i)
    ensures forall later: Run | !later.verify :: UpToDate(u, s', later)
  {
    r := Run(false, true, _ => true, 1, settings, []);
    var job := JobOf(u, s, r);
    AllSupplied(job, Job(u.newFiles, Some(u.oldFiles), _ => true, 1, settings));
    var moves := DepotProgress.SomeScheduleSucceeds(job, s.fs, [], Start(job, s.fs));
    r := r.(moves := moves);
    assert JobOf(u, s, r) == job && HashSkipped(job, s.fs, i);
    s' := Machine(Exec(job, s.fs, moves).value.fs, Some(u.newId));
    OkReachesExactly(u, s, r, s');
    assert !Arrives(u, s, r, i);
  }

  /** Supply does not depend on how a filter that lets everything through is written. */
  lemma AllSupplied(job: Job, other: Job)
    requires DepotProgress.Supplied(other) && other.files == job.files && other.settings == job.settings
    requires forall name: string :: other.wanted(name)
    ensures DepotProgress.Supplied(job)
  {
    assert forall i: nat | Selected(job, i) :: Selected(other, i);
  }

  /** What a filter costs: over any tree where some target does not verify, there is a filtered run that returns Ok and
      has the new id recorded, and every later run without verify takes the tree for up to date. */
  lemma FilteredRunIsRecorded(u: Update, s: Machine, i: nat, settings: Settings) returns (r: Run, s': Machine)
    requires WellFormed(u) && Target(u, i) && !TargetVerifies(u, s.fs, i)
    requires s.installed != Some(u.newId) && settings.maxAttempts >= 1
    ensures RunStep(u, s, r, s') && ReturnedOk(u, s, r) && s'.installed == Some(u.newId)
    ensures !TargetVerifies(u, s'.fs, i) && forall later: Run | !later.verify :: UpToDate(u, s', later)
  {
    r := Run(false, false, _ => false, 1, settings, []);
    var job := JobOf(u, s, r);
    assert DistinctNames(job);
    assert forall name: string :: !job.wanted(name);
    DepotProgress.NothingToSupply(job);
    var moves := DepotProgress.SomeScheduleSucceeds(job, s.fs, [], Start(job, s.fs));
    r := r.(moves := moves);
    assert JobOf(u, s, r) == job;
    s' := Machine(Exec(job, s.fs, moves).value.fs, Some(u.newId));
    UnwantedUntouched(u, s, r, s', i);
  }

  /** Any number of runs toward one manifest, each stopped anywhere, from a tree on its way there: the tree stays on its
      way, the new id is recorded only over a tree that has arrived, and after the first run that returns Ok every
      named file of the new manifest verifies for good. A filter is no harm in runs that do not return Ok. */
  lemma {:induction false} Converges(u: Update, states: seq<Machine>, runs: seq<Run>, n: nat)
    requires Honest(u) && WellFormed(u) && History(u, states, runs) && n <= |runs|
    requires forall k | 0 <= k < n && ReturnedOk(u, states[k], runs[k]) && !UpToDate(u, states[k], runs[k]) ::
               Thorough(u, states[k], runs[k])
    requires states[0].installed in {None, Some(u.oldId), Some(u.newId)}
    requires Underway(u, states[0].fs) && (states[0].installed == Some(u.newId) ==> Reached(u, states[0].fs))
    ensures states[n].installed in {None, Some(u.oldId), Some(u.newId)} && Underway(u, states[n].fs)
    ensures states[n].installed == Some(u.newId) ==>
              states[0].installed == Some(u.newId) || exists k | 0 <= k < n :: ReturnedOk(u, states[k], runs[k])
    ensures states[n].installed == Some(u.newId) ==> Reached(u, states[n].fs)
    ensures forall k | 0 <= k < n && ReturnedOk(u, states[k], runs[k]) :: Reached(u, states[n].fs)
    ensures Reached(u, states[0].fs) ==> Reached(u, states[n].fs)
  {
    if n > 0 {
      Converges(u, states, runs, n - 1);
      var s, r, s' := states[n - 1], runs[n - 1], states[n];
      if !UpToDate(u, s, r) {
        RunKeepsUnderway(u, s, r, s');
        if ReturnedOk(u, s, r) {
          OkReachesIff(u, s, r, s');
        }
      }
    }
  }

  /** A correct installation of the old manifest is a tree on its way. */
  lemma InstalledOldIsUnderway(u: Update, fs: FileSystem)
    requires forall f | f in u.oldFiles && f.name.Some? && f.name.value in fs :: fs[f.name.value] == u.content(f)
    ensures Underway(u, fs)
  {
    forall i: nat | Target(u, i)
      ensures var name := u.newFiles[i].name.value;
              var prev := Find(u.oldFiles, name);
              prev.Some? && name in fs ==> fs[name] == u.content(prev.value)
    {
      FindIn(u.oldFiles, u.newFiles[i].name.value);
    }
  }
}
