/** The bytes a file ends with, when the bytes at hand are the published ones. */
module FileContent {
  import opened Base
  import opened Chunks
  import opened FileProtocol
  import opened FileTheorems

  /** A response that passes the gate for chunk `c` carries that chunk's part of `content`. */
  ghost predicate Genuine(g: Settings, content: Bytes, c: Chunk, raw: Bytes)
  {
    HasRange(c) && c.checksum.Some? ==>
      var r := ProcessChunk(g.codec, raw, c.size.value, c.checksum.value);
      r.Ok? ==> Part(content, c) == Some(r.value)
  }

  /** What the chunk tasks hold is the published data. */
  ghost predicate Delivered(t: FileTask, g: Settings, content: Bytes, ch: seq<ChunkPhase>)
    requires |ch| == |t.chunks|
  {
    forall k | 0 <= k < |ch| && HasRange(t.chunks[k]) ::
      && (ch[k].Fetched? ==> Genuine(g, content, t.chunks[k], ch[k].raw))
      && (HasData(ch[k]) ==> Part(content, t.chunks[k]) == Some(ch[k].data))
  }

  lemma DeliveredStep(t: FileTask, g: Settings, content: Bytes, s: Local, a: Step)
    requires |s.task.ch| == |t.chunks| && Delivered(t, g, content, s.task.ch) && Enabled(t, g, s, a)
    requires a.FetchOk? ==> Genuine(g, content, t.chunks[a.k], a.raw)
    ensures |Apply(t, g, s, a).task.ch| == |t.chunks| && Delivered(t, g, content, Apply(t, g, s, a).task.ch)
  {
  }

  /** A chunk of the staging file that verifies holds its part of `content`. */
  ghost predicate StagingGenuine(t: FileTask, content: Bytes, d: Disk)
  {
    Resumes(t, d) ==>
      forall k | 0 <= k < |t.chunks| && ChunkGood(d.staged.value, t.chunks[k]) ::
        Part(d.staged.value, t.chunks[k]) == Part(content, t.chunks[k])
  }

  /** Whatever the old manifest offers for reuse, the installed file holds as the chunk's part of `content`. */
  ghost predicate ReuseGenuine(t: FileTask, content: Bytes, d: Disk)
  {
    DeltaActive(t, d) ==>
      forall k | 0 <= k < |t.chunks| && HasRange(t.chunks[k]) && t.chunks[k].id.Some?
                 && OldMatch(t.oldChunks.value, t.chunks[k].id.value).Some? ::
        OldBytes(d.final.value, t.oldChunks.value, t.chunks[k]).Some?
        && OldBytes(d.final.value, t.oldChunks.value, t.chunks[k]) == Part(content, t.chunks[k])
  }

  lemma ResumedIsGood(t: FileTask, d: Disk, k: nat)
    requires WellDescribed(t.chunks) && k < |t.chunks| && t.chunks[k].id.value in ResumedIds(t, d)
    ensures Resumes(t, d) && ChunkGood(d.staged.value, t.chunks[k])
  {
    var m := Marks(d.staged.value, t.chunks);
    var j :| 0 <= j < |m| && m[j] == Some(t.chunks[k].id.value);
    assert ChunkGood(d.staged.value, t.chunks[j]) && j == k;
  }

  /** A chunk that is not fetched already lies in the base with its published bytes. */
  lemma SkippedIsGenuine(t: FileTask, content: Bytes, d: Disk, k: nat)
    requires Layout(t) && WellDescribed(t.chunks) && StagingGenuine(t, content, d) && ReuseGenuine(t, content, d)
    requires k < |t.chunks| && !Fetches(t, d, k)
    ensures Part(BaseBytes(t, d), t.chunks[k]) == Part(content, t.chunks[k])
  {
    BasePart(t, d, |t.chunks|, k);
    if !Reused(t, d, k) {
      ResumedIsGood(t, d, k);
    }
  }

  /** Ok from genuine bytes installs exactly the published file: every byte, not only the checksums. */
  lemma InstalledContent(t: FileTask, g: Settings, content: Bytes, d: Disk, s: Local)
    requires Tiled(t) && WellDescribed(t.chunks) && |content| == t.size.value
    requires StagingGenuine(t, content, d)
    requires if Verifies(d.final, t.size, t.chunks) then d.final == Some(content) else ReuseGenuine(t, content, d)
    requires Inv(t, d, s) && s.task.phase.Installed? && Delivered(t, g, content, s.task.ch)
    ensures s.disk.final == Some(content)
  {
    if NoShortcut(t, d) {
      CopiedLength(t, d, |t.chunks|);
      forall k | 0 <= k < |t.chunks|
        ensures Part(s.disk.final.value, t.chunks[k]) == Part(content, t.chunks[k])
      {
        if s.task.ch[k].Skipped? {
          SkippedIsGenuine(t, content, d, k);
        } else {
          assert s.task.ch[k].Complete?;
        }
      }
      SameParts(t, s.disk.final.value, content);
    } else if !Verifies(d.final, t.size, t.chunks) {
      FullResumeExact(d.staged.value, t.chunks);
      SameParts(t, d.staged.value, content);
    }
  }
}
