/** What every interleaving of one file's tasks guarantees. */
module FileTheorems {
  import opened Base
  import opened Files
  import opened Checksum
  import opened Chunks
  import opened FileProtocol

  /** The state after the steps, from a freshly spawned task; `None` when some step was not enabled. */
  ghost function Run(t: FileTask, g: Settings, d: Disk, steps: seq<Step>): Option<Local>
  {
    if steps == [] then Some(Local(d, NewTask(t)))
    else
      var n := |steps| - 1;
      match Run(t, g, d, steps[..n])
      case None => None
      case Some(s) =>
        if |s.task.ch| == |t.chunks| && Enabled(t, g, s, steps[n]) then Some(Apply(t, g, s, steps[n])) else None
  }

  lemma {:induction false} RunInv(t: FileTask, g: Settings, d: Disk, steps: seq<Step>)
    ensures var r := Run(t, g, d, steps); r.Some? ==> Inv(t, d, r.value)
  {
    if steps == [] {
      InvInit(t, d);
    } else {
      var n := |steps| - 1;
      RunInv(t, g, d, steps[..n]);
      var r := Run(t, g, d, steps[..n]);
      if r.Some? && Enabled(t, g, r.value, steps[n]) {
        InvStep(t, g, d, r.value, steps[n]);
      }
    }
  }

  // ---------------------------------------------------------------- correctness of the installed file

  /** The delta copy finds bytes for chunk `k` in the installed file. */
  predicate Reused(t: FileTask, d: Disk, k: nat)
    requires k < |t.chunks|
  {
    DeltaActive(t, d) && OldBytes(d.final.value, t.oldChunks.value, t.chunks[k]).Some?
  }

  /** Chunk `k` is fully described, and unless it will be fetched, the bytes it is given carry its checksum:
      those of the old file if the delta copy finds some, else those the staging file had when opened. */
  ghost predicate ChunkSound(t: FileTask, d: Disk, k: nat)
    requires k < |t.chunks|
  {
    var c := t.chunks[k];
    && HasRange(c) && c.checksum.Some?
    && (Fetches(t, d, k) ||
        if Reused(t, d, k) then SteamAdler(OldBytes(d.final.value, t.oldChunks.value, c).value) == c.checksum.value
        else ChunkGood(OpenedBytes(t, d), c))
  }

  /** Decided by the disk before the task starts. */
  ghost predicate Sound(t: FileTask, d: Disk)
  {
    || Verifies(d.final, t.size, t.chunks)
    || (Resumes(t, d) && |ResumedIds(t, d)| == |t.chunks|)
    || forall k | 0 <= k < |t.chunks| :: ChunkSound(t, d, k)
  }

  lemma {:induction false} BasePart(t: FileTask, d: Disk, n: nat, k: nat)
    requires Layout(t) && n <= |t.chunks| && k < |t.chunks| && HasRange(t.chunks[k])
    ensures Part(CopiedBytes(t, d, n), t.chunks[k]) ==
            if k < n && Reused(t, d, k) then OldBytes(d.final.value, t.oldChunks.value, t.chunks[k])
            else Part(OpenedBytes(t, d), t.chunks[k])
  {
    if DeltaActive(t, d) && n > 0 {
      var i, c := n - 1, t.chunks[n - 1];
      BasePart(t, d, i, k);
      CopiedLength(t, d, i);
      var f, b := CopiedBytes(t, d, i), OldBytes(d.final.value, t.oldChunks.value, c);
      if b.Some? {
        WriteInside(f, c.offset.value, b.value);
        if k != i {
          assert Apart(t.chunks[if i < k then i else k], t.chunks[if i < k then k else i]);
          WriteElsewhere(f, c.offset.value, b.value, t.chunks[k].offset.value, t.chunks[k].size.value);
        }
      }
    }
  }

  lemma InstalledIffSound(t: FileTask, d: Disk, s: Local)
    requires Layout(t) && Inv(t, d, s) && s.task.phase.Installed?
    ensures Verifies(s.disk.final, t.size, t.chunks) <==> Sound(t, d)
  {
    if NoShortcut(t, d) {
      CopiedLength(t, d, |t.chunks|);
      forall k | 0 <= k < |t.chunks|
        ensures ChunkGood(s.disk.final.value, t.chunks[k]) <==> ChunkSound(t, d, k)
      {
        if HasRange(t.chunks[k]) {
          BasePart(t, d, |t.chunks|, k);
          assert Part(s.disk.final.value, t.chunks[k]) ==
                 if Landed(s.task.ch[k]) then Some(s.task.ch[k].data) else Part(BaseBytes(t, d), t.chunks[k]);
        }
      }
    } else if !Verifies(d.final, t.size, t.chunks) {
      FullResumeExact(d.staged.value, t.chunks);
    }
  }

  /** When `download_file` returns Ok, the installed file verifies if and only if the disk it started from was sound. */
  lemma InstallCorrect(t: FileTask, g: Settings, d: Disk, steps: seq<Step>)
    requires Layout(t)
    requires var r := Run(t, g, d, steps); r.Some? && r.value.task.phase.Installed?
    ensures Verifies(Run(t, g, d, steps).value.disk.final, t.size, t.chunks) <==> Sound(t, d)
  {
    RunInv(t, g, d, steps);
    InstalledIffSound(t, d, Run(t, g, d, steps).value);
  }

  /** A manifest entry with every chunk field present and no id used twice. */
  ghost predicate WellDescribed(chunks: seq<Chunk>)
  {
    && (forall k | 0 <= k < |chunks| :: chunks[k].id.Some? && HasRange(chunks[k]) && chunks[k].checksum.Some?)
    && (forall j, k | 0 <= j < k < |chunks| :: chunks[j].id != chunks[k].id)
  }

  /** Wherever the old manifest offers a chunk for reuse, the installed file really holds its bytes. */
  ghost predicate OldFileMatches(t: FileTask, d: Disk)
  {
    DeltaActive(t, d) ==>
      forall k | 0 <= k < |t.chunks| && t.chunks[k].id.Some? &&
          OldMatch(t.oldChunks.value, t.chunks[k].id.value).Some? ::
        var b := OldBytes(d.final.value, t.oldChunks.value, t.chunks[k]);
        b.Some? && t.chunks[k].checksum == Some(SteamAdler(b.value))
  }

  /** With distinct chunk ids and a faithful old file every start is sound, whatever the staging file holds. */
  lemma FaithfulIsSound(t: FileTask, d: Disk)
    requires WellDescribed(t.chunks) && OldFileMatches(t, d)
    ensures Sound(t, d)
  {
    forall k | 0 <= k < |t.chunks|
      ensures ChunkSound(t, d, k)
    {
      var c := t.chunks[k];
      if !Fetches(t, d, k) && !Reused(t, d, k) {
        assert c.id.value in ResumedIds(t, d);
        var m := Marks(d.staged.value, t.chunks);
        var j :| 0 <= j < |m| && m[j] == Some(c.id.value);
        assert ChunkGood(d.staged.value, t.chunks[j]) && j == k;
      }
    }
  }

  /** Until the task returns Ok its final path holds what it held; after Ok from a sound start it verifies. */
  lemma CrashAtomic(t: FileTask, g: Settings, d: Disk, steps: seq<Step>)
    requires Layout(t) && Sound(t, d)
    requires Run(t, g, d, steps).Some?
    ensures var s := Run(t, g, d, steps).value;
            && (!s.task.phase.Installed? ==> s.disk.final == d.final)
            && (s.task.phase.Installed? ==> Verifies(s.disk.final, t.size, t.chunks))
  {
    RunInv(t, g, d, steps);
    if Run(t, g, d, steps).value.task.phase.Installed? {
      InstallCorrect(t, g, d, steps);
    }
  }

  /** A task whose installed file already verifies never touches the disk and never spawns a chunk task. */
  lemma SecondRunIdle(t: FileTask, g: Settings, d: Disk, steps: seq<Step>)
    requires Verifies(d.final, t.size, t.chunks) && Run(t, g, d, steps).Some?
    ensures var s := Run(t, g, d, steps).value;
            s.disk == d && forall k | 0 <= k < |s.task.ch| :: s.task.ch[k].Unspawned?
  {
    RunInv(t, g, d, steps);
    IdleState(t, d, Run(t, g, d, steps).value);
  }

  lemma IdleState(t: FileTask, d: Disk, s: Local)
    requires Verifies(d.final, t.size, t.chunks) && Inv(t, d, s)
    ensures s.disk == d && forall k | 0 <= k < |s.task.ch| :: s.task.ch[k].Unspawned?
  {
    IdlePhase(t, d, s);
    NothingDecided(t, d, s.task.ch);
  }

  lemma IdlePhase(t: FileTask, d: Disk, s: Local)
    requires Verifies(d.final, t.size, t.chunks) && |s.task.ch| == |t.chunks| && PhaseInv(t, d, s)
    ensures s.disk == d && Decided(t, d, s.task.ch, 0)
  {
  }

  lemma NothingDecided(t: FileTask, d: Disk, ch: seq<ChunkPhase>)
    requires |ch| == |t.chunks| && Decided(t, d, ch, 0)
    ensures forall k | 0 <= k < |ch| :: ch[k].Unspawned?
  {
  }

  /** In every reachable state at most one chunk task holds the file lock, a task about to write finds the shared
      cursor at its own offset, and its write puts its data in its own range and changes no other chunk's range. */
  lemma HandleIsolation(t: FileTask, g: Settings, d: Disk, steps: seq<Step>, k: nat)
    requires Layout(t) && Run(t, g, d, steps).Some?
    requires k < |t.chunks| && Enabled(t, g, Run(t, g, d, steps).value, Write(k))
    ensures var s := Run(t, g, d, steps).value;
            && (forall i | 0 <= i < |t.chunks| && HoldsLock(s.task.ch[i]) :: i == k)
            && t.chunks[k].offset == Some(s.task.cursor)
    ensures var s := Run(t, g, d, steps).value;
            var f, f' := s.disk.staged.value, Apply(t, g, s, Write(k)).disk.staged.value;
            forall i | 0 <= i < |t.chunks| && HasRange(t.chunks[i]) ::
              Part(f', t.chunks[i]) == if i == k then Some(s.task.ch[k].data) else Part(f, t.chunks[i])
  {
    RunInv(t, g, d, steps);
    var s := Run(t, g, d, steps).value;
    LiveIsWorking(t, d, s, k);
    CopiedLength(t, d, |t.chunks|);
    var f, c := s.disk.staged.value, t.chunks[k];
    WriteInside(f, c.offset.value, s.task.ch[k].data);
    forall i | 0 <= i < |t.chunks| && HasRange(t.chunks[i]) && i != k
      ensures Part(WriteAt(f, c.offset.value, s.task.ch[k].data), t.chunks[i]) == Part(f, t.chunks[i])
    {
      assert Apart(t.chunks[if i < k then i else k], t.chunks[if i < k then k else i]);
      WriteElsewhere(f, c.offset.value, s.task.ch[k].data, t.chunks[i].offset.value, t.chunks[i].size.value);
    }
  }

  lemma SeekedInPlace(t: FileTask, g: Settings, d: Disk, steps: seq<Step>, s: Local, k: nat)
    requires Layout(t) && Run(t, g, d, steps) == Some(s) && k < |t.chunks| == |s.task.ch| && HasRange(t.chunks[k])
    requires s.task.ch[k].Seeked?
    ensures t.chunks[k].offset == Some(s.task.cursor) && |s.task.ch[k].data| == t.chunks[k].size.value
    ensures s.disk.staged.Some? && s.task.cursor + |s.task.ch[k].data| <= |s.disk.staged.value|
  {
    RunInv(t, g, d, steps);
    LiveIsWorking(t, d, s, k);
    CopiedLength(t, d, |t.chunks|);
  }

  /** A write that fails has put out some first part of the chunk's data in its place, and no other byte has changed. */
  lemma TornWrite(t: FileTask, g: Settings, d: Disk, steps: seq<Step>, s: Local, k: nat, n: nat)
    requires Layout(t) && Run(t, g, d, steps) == Some(s) && k < |t.chunks| == |s.task.ch| && HasRange(t.chunks[k])
    requires s.task.ch[k].Seeked? && Enabled(t, g, s, Abort(k, n))
    ensures s.disk.staged.Some? && n <= |s.task.ch[k].data| == t.chunks[k].size.value
    ensures var after := Apply(t, g, s, Abort(k, n)).disk.staged;
            after.Some? &&
            Overwritten(s.disk.staged.value, after.value, t.chunks[k].offset.value, s.task.ch[k].data[..n])
  {
    SeekedInPlace(t, g, d, steps, s, k);
    TornBytes(t, g, s, k, n);
    InPlace(s.disk.staged.value, s.task.cursor, s.task.ch[k].data[..n]);
  }

  /** `g` is `f` with `data` at the offset. */
  predicate Overwritten(f: Bytes, g: Bytes, off: nat, data: Bytes)
  {
    |g| == |f| && forall i | 0 <= i < |f| :: g[i] == if off <= i < off + |data| then data[i - off] else f[i]
  }

  lemma InPlace(f: Bytes, off: nat, data: Bytes)
    requires off + |data| <= |f|
    ensures Overwritten(f, WriteAt(f, off, data), off, data)
  {
    WriteInside(f, off, data);
  }

  lemma TornBytes(t: FileTask, g: Settings, s: Local, k: nat, n: nat)
    requires |s.task.ch| == |t.chunks| && Enabled(t, g, s, Abort(k, n)) && s.task.ch[k].Seeked?
    ensures Apply(t, g, s, Abort(k, n)).disk.staged ==
            Some(WriteAt(s.disk.staged.value, s.task.cursor, s.task.ch[k].data[..n]))
  {
  }

  /** The ranges also cover the file. */
  ghost predicate Tiled(t: FileTask)
  {
    Layout(t) && forall p: nat | p < t.size.value :: Covered(t, p)
  }

  ghost predicate Covered(t: FileTask, p: nat)
  {
    exists k | 0 <= k < |t.chunks| ::
      HasRange(t.chunks[k]) && t.chunks[k].offset.value <= p < t.chunks[k].offset.value + t.chunks[k].size.value
  }

  lemma SameParts(t: FileTask, f: Bytes, h: Bytes)
    requires Tiled(t) && |f| == |h| == t.size.value
    requires forall k | 0 <= k < |t.chunks| && HasRange(t.chunks[k]) :: Part(f, t.chunks[k]) == Part(h, t.chunks[k])
    ensures f == h
  {
    forall p: nat | p < |f|
      ensures f[p] == h[p]
    {
      assert Covered(t, p);
      var k :| 0 <= k < |t.chunks| && HasRange(t.chunks[k]) &&
               t.chunks[k].offset.value <= p < t.chunks[k].offset.value + t.chunks[k].size.value;
      var o, c := t.chunks[k].offset.value, t.chunks[k];
      assert Part(f, c).value[p - o] == Part(h, c).value[p - o];
    }
  }

  /** Two complete schedules from the same disk that fetched the same data install the same bytes. */
  lemma ScheduleIndependent(t: FileTask, g: Settings, d: Disk, a: seq<Step>, b: seq<Step>, x: Local, y: Local)
    requires Tiled(t) && Run(t, g, d, a) == Some(x) && Run(t, g, d, b) == Some(y)
    requires x.task.phase.Installed? && y.task.phase.Installed? && |x.task.ch| == |y.task.ch| == |t.chunks|
    requires forall k | 0 <= k < |t.chunks| && HasData(x.task.ch[k]) && HasData(y.task.ch[k]) ::
               x.task.ch[k].data == y.task.ch[k].data
    ensures x.disk == y.disk
  {
    RunInv(t, g, d, a);
    RunInv(t, g, d, b);
    if NoShortcut(t, d) {
      CopiedLength(t, d, |t.chunks|);
      SameInstall(t, d, x, y);
    }
  }

  lemma SameInstall(t: FileTask, d: Disk, x: Local, y: Local)
    requires Tiled(t) && NoShortcut(t, d) && |BaseBytes(t, d)| == t.size.value
    requires Inv(t, d, x) && x.task.phase.Installed? && Inv(t, d, y) && y.task.phase.Installed?
    requires forall k | 0 <= k < |t.chunks| && HasData(x.task.ch[k]) && HasData(y.task.ch[k]) ::
               x.task.ch[k].data == y.task.ch[k].data
    ensures x.disk == y.disk
  {
    var f, h := x.disk.final.value, y.disk.final.value;
    forall k | 0 <= k < |t.chunks| && HasRange(t.chunks[k])
      ensures Part(f, t.chunks[k]) == Part(h, t.chunks[k])
    {
      assert x.task.ch[k].Skipped? == y.task.ch[k].Skipped?;
      assert x.task.ch[k].Skipped? || x.task.ch[k].Complete?;
    }
    SameParts(t, f, h);
  }
}
