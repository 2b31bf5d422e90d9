/** The soundness condition is needed: starts that are not sound, from which `download_file` returns Ok over bad
    bytes. */
module FileFailures {
  import opened Base
  import opened Files
  import opened Checksum
  import opened Chunks
  import opened FileProtocol
  import opened FileTheorems

  lemma Extend(t: FileTask, g: Settings, d: Disk, steps: seq<Step>, s: Local, a: Step) returns (more: seq<Step>)
    requires Run(t, g, d, steps) == Some(s) && |s.task.ch| == |t.chunks| && Enabled(t, g, s, a)
    ensures Run(t, g, d, more) == Some(Apply(t, g, s, a))
  {
    more := steps + [a];
    assert more[..|steps|] == steps;
  }

  function AfterOpen(t: FileTask, d: Disk, f: Bytes, phase: Phase, skipped: nat, valid: set<ChunkId>): Local
  {
    Local(d.(staged := Some(f)),
          Task(phase, valid, seq(|t.chunks|, i => if i < skipped then Skipped else Unspawned), None, 0))
  }

  lemma {:induction false} OpenAndCopy(t: FileTask, g: Settings, d: Disk, n: nat) returns (steps: seq<Step>)
    requires NoShortcut(t, d) && n <= |t.chunks| && (n > 0 ==> DeltaActive(t, d))
    ensures Run(t, g, d, steps) == Some(AfterOpen(t, d, CopiedBytes(t, d, n), Copying(n), 0, ResumedIds(t, d)))
  {
    if n == 0 {
      var k := NewTask(t);
      assert k.ch == seq(|t.chunks|, i => if i < 0 then Skipped else Unspawned);
      steps := Extend(t, g, d, [], Local(d, k), CheckFinal);
      steps := Extend(t, g, d, steps, Local(d, k.(phase := Examining)), CheckStaging);
      if !Resumes(t, d) {
        steps := Extend(t, g, d, steps, Local(d.(staged := Some([])), k.(phase := Sizing)), SetLen);
      }
    } else {
      var before := AfterOpen(t, d, CopiedBytes(t, d, n - 1), Copying(n - 1), 0, ResumedIds(t, d));
      steps := OpenAndCopy(t, g, d, n - 1);
      steps := Extend(t, g, d, steps, before, Copy);
    }
  }

  lemma {:induction false} SkipSome(t: FileTask, g: Settings, d: Disk, n: nat) returns (steps: seq<Step>)
    requires NoShortcut(t, d) && n <= |t.chunks| && forall k | 0 <= k < n :: !Fetches(t, d, k)
    ensures Run(t, g, d, steps) == Some(AfterOpen(t, d, BaseBytes(t, d), Spawning(n), n, ResumedIds(t, d)))
  {
    var ids, base := ResumedIds(t, d), BaseBytes(t, d);
    if n == 0 {
      var c := if DeltaActive(t, d) then |t.chunks| else 0;
      var before := AfterOpen(t, d, base, Copying(c), 0, ids);
      assert CopiedBytes(t, d, c) == base;
      steps := OpenAndCopy(t, g, d, c);
      steps := Extend(t, g, d, steps, before, Copy);
      assert Apply(t, g, before, Copy) == AfterOpen(t, d, base, Spawning(0), 0, ids);
    } else {
      var before, after :=
          AfterOpen(t, d, base, Spawning(n - 1), n - 1, ids), AfterOpen(t, d, base, Spawning(n), n, ids);
      steps := SkipSome(t, g, d, n - 1);
      assert !Fetches(t, d, n - 1);
      assert before.task.ch[n - 1 := Skipped] == after.task.ch;
      assert Apply(t, g, before, Spawn) == after;
      steps := Extend(t, g, d, steps, before, Spawn);
    }
  }

  lemma {:induction false} AwaitSome(t: FileTask, g: Settings, d: Disk, n: nat) returns (steps: seq<Step>)
    requires NoShortcut(t, d) && n <= |t.chunks| && forall k | 0 <= k < |t.chunks| :: !Fetches(t, d, k)
    ensures Run(t, g, d, steps) == Some(AfterOpen(t, d, BaseBytes(t, d), Waiting(n), |t.chunks|, ResumedIds(t, d)))
  {
    var ids := ResumedIds(t, d);
    if n == 0 {
      steps := SkipSome(t, g, d, |t.chunks|);
      steps := Extend(t, g, d, steps, AfterOpen(t, d, BaseBytes(t, d), Spawning(|t.chunks|), |t.chunks|, ids), Spawn);
    } else {
      steps := AwaitSome(t, g, d, n - 1);
      steps := Extend(t, g, d, steps, AfterOpen(t, d, BaseBytes(t, d), Waiting(n - 1), |t.chunks|, ids), Await);
    }
  }

  /** If no chunk is left to fetch, some schedule makes the task return Ok, sound or not. */
  lemma NothingToFetchInstalls(t: FileTask, g: Settings, d: Disk) returns (steps: seq<Step>)
    requires NoShortcut(t, d) && forall k | 0 <= k < |t.chunks| :: !Fetches(t, d, k)
    ensures var r := Run(t, g, d, steps);
            r.Some? && r.value.task.phase.Installed? && r.value.disk.final == Some(BaseBytes(t, d))
  {
    var n := |t.chunks|;
    steps := AwaitSome(t, g, d, n);
    steps := Extend(t, g, d, steps, AfterOpen(t, d, BaseBytes(t, d), Waiting(n), n, ResumedIds(t, d)), Await);
  }

  lemma AdlerOne(b: Byte)
    ensures SteamAdler([b]) == b * 0x1_0000 + b
  {
    assert PerByte([b][..0]) == Sums(0, 0);
    assert PerByte([b]) == Reduce(Add(Sums(0, 0), b)) == Sums(b, b);
  }

  lemma ReadOne(f: Bytes, off: nat)
    requires off < |f|
    ensures ReadAt(f, off, 1) == Some([f[off]])
  {
    assert f[off..off + 1] == [f[off]];
  }

  /** A one-byte chunk whose content is `b`. */
  function OneByte(id: ChunkId, offset: nat, b: Byte): Chunk
  {
    Chunk(Some(id), Some(SteamAdler([b])), Some(offset), Some(1), Some(1))
  }

  lemma OneByteGood(f: Bytes, id: ChunkId, offset: nat, b: Byte)
    requires offset < |f|
    ensures ChunkGood(f, OneByte(id, offset, b)) <==> f[offset] == b
  {
    ReadOne(f, offset);
    AdlerOne(b);
    AdlerOne(f[offset]);
  }

  /** Old and new manifest agree on the file's one chunk, a byte `b`; the installed file holds another byte there. */
  function StaleTask(id: ChunkId, b: Byte): FileTask
  {
    FileTask("f", Some(1), [OneByte(id, 0, b)], Some([OneByte(id, 0, b)]))
  }

  lemma StaleUnsound(id: ChunkId, b: Byte, stale: Byte)
    requires b != stale
    ensures var t, d := StaleTask(id, b), Disk(None, Some([stale]));
            Layout(t) && NoShortcut(t, d) && !Fetches(t, d, 0) && !Sound(t, d)
  {
    var t, d, c := StaleTask(id, b), Disk(None, Some([stale])), OneByte(id, 0, b);
    OneByteGood([stale], id, 0, b);
    ReadOne([stale], 0);
    AdlerOne(b);
    AdlerOne(stale);
    assert t.chunks[0] == c && OldMatch([c], id) == Some(c);
    assert !ChunkSound(t, d, 0);
  }

  /** Its bytes are copied and installed unchecked. */
  lemma StaleOldFileIsInstalled(g: Settings, id: ChunkId, b: Byte, stale: Byte) returns (steps: seq<Step>)
    requires b != stale
    ensures var t := StaleTask(id, b);
            var r := Run(t, g, Disk(None, Some([stale])), steps);
            r.Some? && r.value.task.phase.Installed? && !Verifies(r.value.disk.final, t.size, t.chunks)
  {
    var t, d := StaleTask(id, b), Disk(None, Some([stale]));
    StaleUnsound(id, b, stale);
    steps := NothingToFetchInstalls(t, g, d);
    InstallCorrect(t, g, d, steps);
  }

  /** The same chunk at two places. */
  function RepeatedTask(id: ChunkId, b: Byte): FileTask
  {
    FileTask("f", Some(2), [OneByte(id, 0, b), OneByte(id, 1, b)], None)
  }

  /** The interrupted run's staging file holds it at the first place only. */
  lemma RepeatedUnsound(id: ChunkId, b: Byte, other: Byte)
    requires b != other
    ensures var t, d := RepeatedTask(id, b), Disk(Some([b, other]), None);
            Layout(t) && NoShortcut(t, d) && !Fetches(t, d, 0) && !Fetches(t, d, 1) && !Sound(t, d)
  {
    var t, f := RepeatedTask(id, b), [b, other];
    var d := Disk(Some(f), None);
    OneByteGood(f, id, 0, b);
    OneByteGood(f, id, 1, b);
    assert t.chunks[0] == OneByte(id, 0, b) && t.chunks[1] == OneByte(id, 1, b);
    assert Marks(f, t.chunks)[0] == Some(id);
    assert id in GoodIds(f, t.chunks);
    FullResumeExact(f, t.chunks);
    assert t.chunks[0].id == t.chunks[1].id;
    assert !ChunkSound(t, d, 1);
  }

  /** Both places are skipped, and the second is installed wrong. */
  lemma RepeatedIdIsSkipped(g: Settings, id: ChunkId, b: Byte, other: Byte) returns (steps: seq<Step>)
    requires b != other
    ensures var t := RepeatedTask(id, b);
            var r := Run(t, g, Disk(Some([b, other]), None), steps);
            r.Some? && r.value.task.phase.Installed? && !Verifies(r.value.disk.final, t.size, t.chunks)
  {
    var t, d := RepeatedTask(id, b), Disk(Some([b, other]), None);
    RepeatedUnsound(id, b, other);
    steps := NothingToFetchInstalls(t, g, d);
    InstallCorrect(t, g, d, steps);
  }
}
