/** Where the bytes of an installed file come from, chunk by chunk, in terms of the manifests, the two files the task
    found and the responses it was given (crates/steam-client/src/download.rs:348-568). */
module FileOrigins {
  import opened Base
  import opened Chunks
  import opened FileProtocol
  import opened FileTheorems
  import opened FileRetries

  /** The staging file has the manifest's size, and chunk `k` lies in it with its checksum. */
  predicate StagedGood(t: FileTask, d: Disk, k: nat)
    requires k < |t.chunks|
  {
    d.staged.Some? && t.size == Some(|d.staged.value|) && HasChunk(d.staged.value, t.chunks[k])
  }

  /** Some chunk with that id does. */
  ghost predicate Kept(t: FileTask, d: Disk, id: Option<ChunkId>)
  {
    exists j: nat :: j < |t.chunks| && t.chunks[j].id == id && StagedGood(t, d, j)
  }

  /** Every chunk does, and all have ids, no two the same. */
  ghost predicate AllStaged(t: FileTask, d: Disk)
  {
    && d.staged.Some? && t.size == Some(|d.staged.value|)
    && (forall k: nat | k < |t.chunks| :: StagedGood(t, d, k) && t.chunks[k].id.Some?)
    && (forall j: nat, k: nat | j < k < |t.chunks| :: t.chunks[j].id != t.chunks[k].id)
  }

  /** Entry `m` is the first of the old chunk list with that id. */
  ghost predicate FirstOld(t: FileTask, id: Option<ChunkId>, m: nat)
  {
    && id.Some? && t.oldChunks.Some? && m < |t.oldChunks.value| && t.oldChunks.value[m].id == id
    && forall j: nat | j < m :: t.oldChunks.value[j].id != id
  }

  ghost predicate HasOld(t: FileTask, id: Option<ChunkId>)
  {
    exists m: nat :: FirstOld(t, id, m)
  }

  /** Chunk `c` can be copied from the installed file, where old chunk `m` says it is. */
  ghost predicate Offered(t: FileTask, d: Disk, c: Chunk, m: nat)
  {
    && d.final.Some? && FirstOld(t, c.id, m)
    && t.oldChunks.value[m].offset.Some? && c.offset.Some? && c.size.Some?
    && (c.size.value == 0 || t.oldChunks.value[m].offset.value + c.size.value <= |d.final.value|)
  }

  /** Chunk `k` has an id, no chunk of that id is kept from the staging file, and there is no old file or no old chunk
      of that id. */
  ghost predicate Needed(t: FileTask, d: Disk, k: nat)
    requires k < |t.chunks|
  {
    var id := t.chunks[k].id;
    id.Some? && !Kept(t, d, id) && !(d.final.Some? && HasOld(t, id))
  }

  /** The bytes of chunk `k` in the installed file `f` come from a fetch, from the old file, or from the staging file as
      it was opened. */
  ghost predicate Origin(t: FileTask, g: Settings, d: Disk, steps: seq<Step>, f: Bytes, k: nat)
    requires k < |t.chunks| && HasRange(t.chunks[k])
    requires t.size == Some(|f|) && t.chunks[k].offset.value + t.chunks[k].size.value <= |f|
  {
    var c := t.chunks[k];
    var o, n := c.offset.value, c.size.value;
    if Needed(t, d, k) then exists raw :: FetchOk(k, raw) in steps && Passes(g, c, raw, f[o..o + n])
    else
      && (forall raw :: FetchOk(k, raw) !in steps)
      && (forall m: nat | Offered(t, d, c, m) && n > 0 ::
            var p := t.oldChunks.value[m].offset.value; f[o..o + n] == d.final.value[p..p + n])
      && ((forall m: nat :: !Offered(t, d, c, m)) ==>
            if d.staged.Some? && t.size == Some(|d.staged.value|) then f[o..o + n] == d.staged.value[o..o + n]
            else forall i | o <= i < o + n :: f[i] == 0)
  }

  // ---------------------------------------------------------------- the definitions, spelled out

  lemma {:induction false} MatchIsFirst(olds: seq<Chunk>, id: ChunkId) returns (m: Option<nat>)
    ensures m.None? ==> OldMatch(olds, id).None? && forall j | 0 <= j < |olds| :: olds[j].id != Some(id)
    ensures m.Some? ==> m.value < |olds| && olds[m.value].id == Some(id) && OldMatch(olds, id) == Some(olds[m.value])
    ensures m.Some? ==> forall j | 0 <= j < m.value :: olds[j].id != Some(id)
  {
    if olds == [] {
      m := None;
    } else if olds[0].id == Some(id) {
      m := Some(0);
    } else {
      var k := MatchIsFirst(olds[1..], id);
      assert forall j | 1 <= j < |olds| :: olds[j] == olds[1..][j - 1];
      m := if k.Some? then Some(k.value + 1) else None;
    }
  }

  lemma FirstOldOnce(t: FileTask, id: Option<ChunkId>, m: nat, k: nat)
    requires FirstOld(t, id, m) && FirstOld(t, id, k)
    ensures m == k
  {
  }

  lemma OldIsFirst(t: FileTask, c: Chunk)
    requires t.oldChunks.Some? && c.id.Some?
    ensures OldMatch(t.oldChunks.value, c.id.value).Some? <==> HasOld(t, c.id)
    ensures forall m: nat | FirstOld(t, c.id, m) ::
              OldMatch(t.oldChunks.value, c.id.value) == Some(t.oldChunks.value[m])
  {
    var k := MatchIsFirst(t.oldChunks.value, c.id.value);
    if k.Some? {
      assert FirstOld(t, c.id, k.value);
      forall m: nat | FirstOld(t, c.id, m)
        ensures m == k.value
      {
        FirstOldOnce(t, c.id, m, k.value);
      }
    }
  }

  lemma StagedGoodIs(t: FileTask, d: Disk, k: nat)
    requires k < |t.chunks|
    ensures StagedGood(t, d, k) <==> Resumes(t, d) && ChunkGood(d.staged.value, t.chunks[k])
  {
    if d.staged.Some? {
      GoodExactly(d.staged.value, t.chunks[k]);
    }
  }

  lemma KeptIs(t: FileTask, d: Disk, id: ChunkId)
    ensures id in ResumedIds(t, d) <==> Kept(t, d, Some(id))
  {
    if Resumes(t, d) {
      var m := Marks(d.staged.value, t.chunks);
      forall j: nat | j < |t.chunks|
        ensures StagedGood(t, d, j) <==> ChunkGood(d.staged.value, t.chunks[j])
      {
        StagedGoodIs(t, d, j);
      }
      if Kept(t, d, Some(id)) {
        var j: nat :| j < |t.chunks| && t.chunks[j].id == Some(id) && StagedGood(t, d, j);
        assert m[j] == Some(id);
      }
      if id in ResumedIds(t, d) {
        var j :| 0 <= j < |m| && m[j] == Some(id);
        assert t.chunks[j].id == Some(id) && StagedGood(t, d, j);
      }
    }
  }

  lemma NeededIs(t: FileTask, d: Disk, k: nat)
    requires k < |t.chunks|
    ensures Fetches(t, d, k) <==> Needed(t, d, k)
  {
    var c := t.chunks[k];
    if c.id.Some? {
      KeptIs(t, d, c.id.value);
      if t.oldChunks.Some? {
        OldIsFirst(t, c);
      }
    }
  }

  lemma AllStagedIs(t: FileTask, d: Disk)
    ensures AllStaged(t, d) <==> Resumes(t, d) && |ResumedIds(t, d)| == |t.chunks|
  {
    if Resumes(t, d) {
      FullResumeExact(d.staged.value, t.chunks);
      forall j: nat | j < |t.chunks|
        ensures StagedGood(t, d, j) <==> ChunkGood(d.staged.value, t.chunks[j])
      {
        StagedGoodIs(t, d, j);
      }
    }
  }

  /** What the delta copy finds. */
  lemma OfferedIs(t: FileTask, d: Disk, k: nat)
    requires k < |t.chunks| && HasRange(t.chunks[k])
    ensures Reused(t, d, k) <==> exists m: nat :: Offered(t, d, t.chunks[k], m)
    ensures forall m: nat | Offered(t, d, t.chunks[k], m) && t.chunks[k].size.value > 0 ::
              var p := t.oldChunks.value[m].offset.value;
              OldBytes(d.final.value, t.oldChunks.value, t.chunks[k]) ==
              Some(d.final.value[p..p + t.chunks[k].size.value])
  {
    var c := t.chunks[k];
    if c.id.Some? && t.oldChunks.Some? {
      OldIsFirst(t, c);
      if Reused(t, d, k) {
        assert HasOld(t, c.id);
        var m: nat :| FirstOld(t, c.id, m);
        assert Offered(t, d, c, m);
      }
    }
  }

  // ---------------------------------------------------------------- the theorem

  lemma {:induction false} AnswersAreSteps(steps: seq<Step>, k: nat, raw: Bytes)
    ensures Some(raw) in Answers(steps, k) <==> FetchOk(k, raw) in steps
  {
    if steps != [] {
      var n := |steps| - 1;
      AnswersAreSteps(steps[..n], k, raw);
      assert steps == steps[..n] + [steps[n]];
    }
  }

  lemma NeverFetched(steps: seq<Step>, k: nat)
    requires Answers(steps, k) == []
    ensures forall raw :: FetchOk(k, raw) !in steps
  {
    forall raw
      ensures FetchOk(k, raw) !in steps
    {
      AnswersAreSteps(steps, k, raw);
    }
  }

  lemma OriginFetched(t: FileTask, g: Settings, d: Disk, steps: seq<Step>, s: Local, k: nat)
    requires Run(t, g, d, steps) == Some(s) && k < |t.chunks| == |s.task.ch| && s.task.ch[k].Complete?
    ensures exists raw :: FetchOk(k, raw) in steps && Passes(g, t.chunks[k], raw, s.task.ch[k].data)
  {
    DataIsFetched(t, g, d, steps, s, k);
    var answers := Answers(steps, k);
    var raw := answers[|answers| - 1].value;
    assert Some(raw) in answers;
    AnswersAreSteps(steps, k, raw);
  }

  lemma OpenedPart(t: FileTask, d: Disk, k: nat)
    requires Layout(t) && k < |t.chunks| && HasRange(t.chunks[k])
    ensures var o, n, r := t.chunks[k].offset.value, t.chunks[k].size.value, Part(OpenedBytes(t, d), t.chunks[k]);
            && r.Some?
            && (d.staged.Some? && t.size == Some(|d.staged.value|) ==> r.value == d.staged.value[o..o + n])
            && (!(d.staged.Some? && t.size == Some(|d.staged.value|)) ==> forall i | 0 <= i < n :: r.value[i] == 0)
  {
  }

  /** What the staging file is opened with: its own bytes if they are as many as the manifest says, else as many zeros,
      or nothing when the manifest gives no size. */
  lemma StagingOpened(t: FileTask, g: Settings, d: Disk, steps: seq<Step>, s: Local)
    requires Run(t, g, d, steps) == Some(s) && s.task.phase == Copying(0)
    ensures s.disk.staged.Some?
    ensures if d.staged.Some? && t.size == Some(|d.staged.value|) then s.disk.staged == d.staged
            else
              && |s.disk.staged.value| == (if t.size.Some? then t.size.value else 0)
              && forall i | 0 <= i < |s.disk.staged.value| :: s.disk.staged.value[i] == 0
  {
    RunInv(t, g, d, steps);
  }

  lemma InstalledPart(t: FileTask, d: Disk, s: Local, k: nat)
    requires Layout(t) && Inv(t, d, s) && s.task.phase.Installed? && NoShortcut(t, d)
    requires k < |t.chunks| && HasRange(t.chunks[k])
    ensures s.task.ch[k].Skipped? <==> !Fetches(t, d, k)
    ensures s.task.ch[k].Skipped? || s.task.ch[k].Complete?
    ensures s.disk.final.Some?
    ensures Part(s.disk.final.value, t.chunks[k]) ==
            if Fetches(t, d, k) then Some(s.task.ch[k].data) else Part(BaseBytes(t, d), t.chunks[k])
  {
  }

  lemma SkippedOrigin(t: FileTask, d: Disk, steps: seq<Step>, g: Settings, f: Bytes, k: nat)
    requires Layout(t) && k < |t.chunks| && HasRange(t.chunks[k]) && t.size == Some(|f|)
    requires !Needed(t, d, k) && (forall raw :: FetchOk(k, raw) !in steps)
    requires Part(f, t.chunks[k]) == Part(BaseBytes(t, d), t.chunks[k])
    ensures Origin(t, g, d, steps, f, k)
  {
    var c := t.chunks[k];
    var o, n := c.offset.value, c.size.value;
    assert Part(f, c) == Some(f[o..o + n]);
    BasePart(t, d, |t.chunks|, k);
    OfferedIs(t, d, k);
    OpenedPart(t, d, k);
  }

  lemma SkippedIsUnfetched(t: FileTask, g: Settings, d: Disk, steps: seq<Step>, s: Local, k: nat)
    requires Run(t, g, d, steps) == Some(s) && k < |t.chunks| == |s.task.ch| && s.task.ch[k].Skipped?
    ensures forall raw :: FetchOk(k, raw) !in steps
  {
    RunAnswers(t, g, d, steps, k);
    NeverFetched(steps, k);
  }

  lemma FetchedOrigin(t: FileTask, g: Settings, d: Disk, steps: seq<Step>, f: Bytes, k: nat, data: Bytes)
    requires Layout(t) && k < |t.chunks| && HasRange(t.chunks[k]) && t.size == Some(|f|) && Needed(t, d, k)
    requires Part(f, t.chunks[k]) == Some(data)
    requires exists raw :: FetchOk(k, raw) in steps && Passes(g, t.chunks[k], raw, data)
    ensures Origin(t, g, d, steps, f, k)
  {
    var o, n := t.chunks[k].offset.value, t.chunks[k].size.value;
    assert n == 0 ==> f[o..o + n] == [];
  }

  lemma ChunkOrigin(t: FileTask, g: Settings, d: Disk, steps: seq<Step>, s: Local, k: nat)
    requires Layout(t) && Run(t, g, d, steps) == Some(s) && Inv(t, d, s) && s.task.phase.Installed?
    requires NoShortcut(t, d) && k < |t.chunks| && HasRange(t.chunks[k])
    requires s.disk.final.Some? && t.size == Some(|s.disk.final.value|)
    ensures Origin(t, g, d, steps, s.disk.final.value, k)
  {
    NeededIs(t, d, k);
    InstalledPart(t, d, s, k);
    if s.task.ch[k].Skipped? {
      SkippedIsUnfetched(t, g, d, steps, s, k);
      SkippedOrigin(t, d, steps, g, s.disk.final.value, k);
    } else {
      OriginFetched(t, g, d, steps, s, k);
      FetchedOrigin(t, g, d, steps, s.disk.final.value, k, s.task.ch[k].data);
    }
  }

  /** What `download_file` leaves when it returns Ok, whatever the schedule: the installed file as it was if that
      verified; else the staging file if all of it did; else a file of the manifest's size in which every chunk is, byte
      for byte, what a fetch delivered, what the old file has where the old manifest puts the chunk, or what the staging
      file had, and which of the three is decided by the disk and the manifests alone. */
  lemma InstalledFrom(t: FileTask, g: Settings, d: Disk, steps: seq<Step>, s: Local)
    requires Layout(t) && Run(t, g, d, steps) == Some(s) && s.task.phase.Installed?
    ensures Verifies(d.final, t.size, t.chunks) ==> s.disk == d
    ensures !Verifies(d.final, t.size, t.chunks) && AllStaged(t, d) ==> s.disk == Disk(None, d.staged)
    ensures !Verifies(d.final, t.size, t.chunks) && !AllStaged(t, d) ==>
              && s.disk.staged.None? && s.disk.final.Some? && t.size == Some(|s.disk.final.value|)
              && forall k: nat | k < |t.chunks| && HasRange(t.chunks[k]) ::
                   t.chunks[k].offset.value + t.chunks[k].size.value <= |s.disk.final.value| &&
                   Origin(t, g, d, steps, s.disk.final.value, k)
  {
    RunInv(t, g, d, steps);
    AllStagedIs(t, d);
    if NoShortcut(t, d) {
      CopiedLength(t, d, |t.chunks|);
      forall k: nat | k < |t.chunks| && HasRange(t.chunks[k])
        ensures Origin(t, g, d, steps, s.disk.final.value, k)
      {
        ChunkOrigin(t, g, d, steps, s, k);
      }
    }
  }
}
