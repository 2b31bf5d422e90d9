/** A depot download never gets stuck: permits and the file locks cannot deadlock, and with fetches that decode some
    schedule returns Ok (crates/steam-client/src/download.rs:170-568). */
module DepotProgress {
  import opened Base
  import opened Chunks
  import opened FileProtocol
  import opened Depot
  import opened DepotInvariant

  // ---------------------------------------------------------------- what has not failed

  predicate IsFailure(m: Move)
  {
    m.FileStep? && (m.step.Fail? || m.step.Abort? || m.step.FetchErr?)
  }

  predicate Unbroken(k: Task)
  {
    !k.phase.Failed? && forall i | 0 <= i < |k.ch| :: !k.ch[i].Broken?
  }

  predicate Returned(w: World)
  {
    w.coord.Succeeded? || w.coord.Errored?
  }

  /** No file and no chunk has failed so far, and the download has not returned. */
  predicate Going(w: World)
  {
    && !Returned(w)
    && forall i | 0 <= i < |w.tasks| && w.tasks[i].Some? :: Unbroken(w.tasks[i].value)
  }

  /** A fetch under way has attempts left. */
  predicate AttemptsLeft(g: Settings, k: Task)
  {
    forall i | 0 <= i < |k.ch| && k.ch[i].Fetching? :: k.ch[i].attempt < g.maxAttempts
  }

  lemma AttemptsStep(t: FileTask, g: Settings, s: Local, a: Step)
    requires |s.task.ch| == |t.chunks| && Enabled(t, g, s, a) && g.maxAttempts >= 1 && AttemptsLeft(g, s.task)
    ensures AttemptsLeft(g, Apply(t, g, s, a).task)
  {
  }

  lemma {:induction false} ExecAttempts(job: Job, fs: FileSystem, moves: seq<Move>)
    requires job.settings.maxAttempts >= 1
    ensures var r := Exec(job, fs, moves);
            r.Some? ==> forall i | 0 <= i < |r.value.tasks| && r.value.tasks[i].Some? ::
                AttemptsLeft(job.settings, r.value.tasks[i].value)
  {
    if moves != [] {
      var n := |moves| - 1;
      ExecAttempts(job, fs, moves[..n]);
      var r, m := Exec(job, fs, moves[..n]), moves[n];
      if r.Some? && |r.value.tasks| == |job.files| && CanMove(job, r.value, m) && m.FileStep? {
        AttemptsStep(TaskOf(job, m.i), job.settings, LocalOf(job, r.value, m.i), m.step);
      }
    }
  }

  // ---------------------------------------------------------------- some step is always enabled

  /** A response for the chunk; one that decodes, if there is any. */
  ghost function RawFor(g: Settings, c: Chunk): Bytes
  {
    if Obtainable(g, c) then var raw :| Decodes(g, c, raw); raw else []
  }

  ghost predicate Obtainable(g: Settings, c: Chunk)
  {
    exists raw :: Decodes(g, c, raw)
  }

  predicate Decodes(g: Settings, c: Chunk, raw: Bytes)
  {
    c.size.Some? && c.checksum.Some? && ProcessChunk(g.codec, raw, c.size.value, c.checksum.value).Ok?
  }

  /** What a chunk task does next: a step of its own, or of the task that holds the lock it waits for. */
  ghost function ChunkStep(t: FileTask, g: Settings, k: Task, i: nat): Step
    requires i < |k.ch| == |t.chunks| && (k.lock.Some? ==> k.lock.value < |k.ch|)
  {
    match k.ch[i]
    case Fetching(_) => FetchOk(i, RawFor(g, t.chunks[i]))
    case Fetched(_) => Decode(i)
    case Decoded(_) =>
      if t.chunks[i].offset.None? then SkipWrite(i)
      else if k.lock.Some? then HolderStep(k, k.lock.value) else Lock(i)
    case Released(_) => Finish(i)
    case Queued => Acquire(i)
    case _ => HolderStep(k, i)
  }

  function HolderStep(k: Task, i: nat): Step
    requires i < |k.ch|
  {
    if k.ch[i].Locked? then Seek(i) else if k.ch[i].Seeked? then Write(i) else Unlock(i)
  }

  /** The step makes the task's rank smaller: it gets on, and nothing fails. */
  ghost predicate GetsOn(t: FileTask, g: Settings, s: Local, a: Step)
    requires |s.task.ch| == |t.chunks|
  {
    && Enabled(t, g, s, a) && !a.Fail? && !a.Abort? && !a.FetchErr?
    && TaskRank(g.maxAttempts, Apply(t, g, s, a).task) < TaskRank(g.maxAttempts, s.task)
  }

  /** `max` is the number of attempts. */
  function ChunkRank(max: nat, p: ChunkPhase): nat
  {
    match p
    case Unspawned => 9 + max
    case Queued => 8 + max
    case Fetching(a) => if a <= max then 7 + max - a else 7
    case Fetched(_) => 6
    case Decoded(_) => 5
    case Locked(_) => 4
    case Seeked(_) => 3
    case Written(_) => 2
    case Released(_) => 1
    case Skipped | Complete(_) | Broken => 0
  }

  function Sum(s: seq<nat>): nat
  {
    if s == [] then 0 else Sum(s[..|s| - 1]) + s[|s| - 1]
  }

  function ChunkRanks(max: nat, ch: seq<ChunkPhase>): (r: seq<nat>)
    ensures |r| == |ch|
  {
    seq(|ch|, i requires 0 <= i < |ch| => ChunkRank(max, ch[i]))
  }

  function PhaseRank(p: Phase, n: nat): nat
  {
    match p
    case Ready => 3 * n + 7
    case Examining => 3 * n + 6
    case Sizing => 3 * n + 5
    case Copying(i) => if i <= n then 3 * n + 4 - i else 0
    case Spawning(i) => if i <= n then 2 * n + 2 - i else 0
    case Waiting(i) => if i <= n then n + 1 - i else 0
    case Installed | Failed(_) => 0
  }

  /** Steps ahead of a file task, at most. */
  function TaskRank(max: nat, k: Task): nat
  {
    PhaseRank(k.phase, |k.ch|) + Sum(ChunkRanks(max, k.ch))
  }

  lemma {:induction false} SumUpdate(s: seq<nat>, i: nat, x: nat)
    requires i < |s|
    ensures Sum(s[i := x]) + s[i] == Sum(s) + x
  {
    var n := |s| - 1;
    if i == n {
      assert s[i := x][..n] == s[..n];
    } else {
      SumUpdate(s[..n], i, x);
      assert s[i := x][..n] == s[..n][i := x];
    }
  }

  lemma RankUpdate(max: nat, ch: seq<ChunkPhase>, i: nat, p: ChunkPhase)
    requires i < |ch|
    ensures Sum(ChunkRanks(max, ch[i := p])) + ChunkRank(max, ch[i]) == Sum(ChunkRanks(max, ch)) + ChunkRank(max, p)
  {
    assert ChunkRanks(max, ch[i := p]) == ChunkRanks(max, ch)[i := ChunkRank(max, p)];
    SumUpdate(ChunkRanks(max, ch), i, ChunkRank(max, p));
  }

  /** Every step brings a file task nearer its end, a failing one too. */
  lemma StepRank(t: FileTask, g: Settings, d: Disk, s: Local, a: Step)
    requires Inv(t, d, s) && Enabled(t, g, s, a)
    ensures TaskRank(g.maxAttempts, Apply(t, g, s, a).task) < TaskRank(g.maxAttempts, s.task)
  {
    if ChunkOf(a).Some? {
      ChunkStepRank(t, g, s, a);
    } else {
      OwnPhaseHolds(t, d, s);
      OwnStepRank(t, g, s, a);
    }
  }

  lemma ChunkStepRank(t: FileTask, g: Settings, s: Local, a: Step)
    requires |s.task.ch| == |t.chunks| && Enabled(t, g, s, a) && ChunkOf(a).Some?
    ensures TaskRank(g.maxAttempts, Apply(t, g, s, a).task) < TaskRank(g.maxAttempts, s.task)
  {
    var s', k := Apply(t, g, s, a), a.k;
    assert s'.task.ch == s.task.ch[k := s'.task.ch[k]] && s'.task.phase == s.task.phase;
    RankUpdate(g.maxAttempts, s.task.ch, k, s'.task.ch[k]);
  }

  predicate OwnPhase(p: Phase, n: nat)
  {
    p.Copying? || p.Spawning? || p.Waiting? ==> p.next <= n
  }

  lemma OwnPhaseHolds(t: FileTask, d: Disk, s: Local)
    requires Inv(t, d, s)
    ensures OwnPhase(s.task.phase, |t.chunks|)
    ensures s.task.phase.Spawning? && s.task.phase.next < |s.task.ch| ==> s.task.ch[s.task.phase.next].Unspawned?
  {
  }

  lemma OwnStepRank(t: FileTask, g: Settings, s: Local, a: Step)
    requires |s.task.ch| == |t.chunks| && OwnPhase(s.task.phase, |t.chunks|) && Enabled(t, g, s, a) && ChunkOf(a).None?
    requires s.task.phase.Spawning? && s.task.phase.next < |s.task.ch| ==> s.task.ch[s.task.phase.next].Unspawned?
    ensures TaskRank(g.maxAttempts, Apply(t, g, s, a).task) < TaskRank(g.maxAttempts, s.task)
  {
    var p, ch, s' := s.task.phase, s.task.ch, Apply(t, g, s, a);
    if a.Spawn? && p.next < |ch| {
      RankUpdate(g.maxAttempts, ch, p.next, s'.task.ch[p.next]);
    } else {
      assert s'.task.ch == ch;
    }
  }

  /** A chunk task that holds a permit can move, or the holder of the lock it waits for can. */
  lemma HolderGetsOn(t: FileTask, g: Settings, d: Disk, s: Local, i: nat)
    requires Inv(t, d, s) && AttemptsLeft(g, s.task) && i < |s.task.ch| && HoldsPermit(s.task.ch[i])
    ensures GetsOn(t, g, s, ChunkStep(t, g, s.task, i)) && !ChunkStep(t, g, s.task, i).Acquire?
  {
    LiveIsWorking(t, d, s, i);
    var a := ChunkStep(t, g, s.task, i);
    assert Enabled(t, g, s, a);
    ChunkStepRank(t, g, s, a);
  }

  lemma QueuedGetsOn(t: FileTask, g: Settings, s: Local, i: nat)
    requires |s.task.ch| == |t.chunks| && i < |s.task.ch| && s.task.ch[i].Queued?
    ensures GetsOn(t, g, s, Acquire(i))
  {
    ChunkStepRank(t, g, s, Acquire(i));
  }

  /** Until it waits for its chunk tasks a file task moves on its own. */
  function OwnStep(p: Phase): Step
  {
    match p
    case Ready => CheckFinal
    case Examining => CheckStaging
    case Sizing => SetLen
    case Copying(_) => Copy
    case Spawning(_) => Spawn
    case _ => Await
  }

  /** Which chunk task, if any, a file task waits for. */
  predicate WaitsFor(k: Task, i: nat)
  {
    k.phase == Waiting(i) && i < |k.ch| && !k.ch[i].Skipped? && !k.ch[i].Complete? && !k.ch[i].Broken?
  }

  lemma OwnStepGetsOn(t: FileTask, g: Settings, d: Disk, s: Local)
    requires Inv(t, d, s) && !s.task.phase.Failed? && !s.task.phase.Installed?
    requires forall i: nat :: !WaitsFor(s.task, i)
    ensures GetsOn(t, g, s, OwnStep(s.task.phase))
  {
    OwnStepEnabled(t, g, d, s);
    StepRank(t, g, d, s, OwnStep(s.task.phase));
  }

  lemma OwnStepEnabled(t: FileTask, g: Settings, d: Disk, s: Local)
    requires Inv(t, d, s) && !s.task.phase.Failed? && !s.task.phase.Installed?
    requires forall i: nat :: !WaitsFor(s.task, i)
    ensures Enabled(t, g, s, OwnStep(s.task.phase))
  {
    if s.task.phase.Waiting? {
      assert !WaitsFor(s.task, s.task.phase.next);
    }
  }

  // ---------------------------------------------------------------- over all files

  ghost predicate Alive(job: Job, fs: FileSystem, w: World)
  {
    && WorldInv(job, fs, w) && !Returned(w)
    && forall i | 0 <= i < |w.tasks| && w.tasks[i].Some? :: AttemptsLeft(job.settings, w.tasks[i].value)
  }

  lemma {:induction false} SomeChunkHolds(ch: seq<ChunkPhase>) returns (k: nat)
    requires HeldIn(ch) > 0
    ensures k < |ch| && HoldsPermit(ch[k])
  {
    k := |ch| - 1;
    if !HoldsPermit(ch[k]) {
      k := SomeChunkHolds(ch[..k]);
    }
  }

  lemma {:induction false} SomeTaskHolds(tasks: seq<Option<Task>>) returns (i: nat, k: nat)
    requires Holders(tasks) > 0
    ensures i < |tasks| && tasks[i].Some? && k < |tasks[i].value.ch| && HoldsPermit(tasks[i].value.ch[k])
  {
    i := |tasks| - 1;
    if tasks[i].Some? && HeldIn(tasks[i].value.ch) > 0 {
      k := SomeChunkHolds(tasks[i].value.ch);
    } else {
      i, k := SomeTaskHolds(tasks[..i]);
    }
  }

  /** A move is possible that is no failure, and if it is a file's step it gets that file on. */
  ghost predicate Advances(job: Job, w: World, m: Move)
    requires |w.tasks| == |job.files|
  {
    && CanMove(job, w, m) && !IsFailure(m)
    && (m.FileStep? ==> GetsOn(TaskOf(job, m.i), job.settings, LocalOf(job, w, m.i), m.step))
    && (m.FileStep? && m.step.FetchOk? ==> m.step.raw == RawFor(job.settings, job.files[m.i].chunks[m.step.k]))
  }

  lemma HolderMoves(job: Job, fs: FileSystem, w: World, i: nat, k: nat) returns (m: Move)
    requires Alive(job, fs, w) && i < |w.tasks| && w.tasks[i].Some? && k < |w.tasks[i].value.ch| &&
               HoldsPermit(w.tasks[i].value.ch[k])
    ensures Advances(job, w, m)
  {
    assert TaskInv(job, fs, w, i);
    var t, s := TaskOf(job, i), LocalOf(job, w, i);
    HolderGetsOn(t, job.settings, View(fs, NameOf(job, i)), s, k);
    m := FileStep(i, ChunkStep(t, job.settings, s.task, k));
  }

  /** The awaited file gets on, or a chunk task somewhere does. */
  lemma FileMoves(job: Job, fs: FileSystem, w: World, i: nat) returns (m: Move)
    requires Alive(job, fs, w) && job.maxDownloads >= 1 && i < |w.tasks| && w.tasks[i].Some?
    requires !w.tasks[i].value.phase.Installed? && !w.tasks[i].value.phase.Failed?
    ensures Advances(job, w, m)
  {
    assert TaskInv(job, fs, w, i);
    var t, s, d := TaskOf(job, i), LocalOf(job, w, i), View(fs, NameOf(job, i));
    if k: nat :| WaitsFor(s.task, k) {
      assert Live(s.task.ch[k]);
      if HoldsPermit(s.task.ch[k]) {
        m := HolderMoves(job, fs, w, i, k);
      } else if w.free > 0 {
        QueuedGetsOn(t, job.settings, s, k);
        m := FileStep(i, Acquire(k));
      } else {
        var j, l := SomeTaskHolds(w.tasks);
        m := HolderMoves(job, fs, w, j, l);
      }
    } else {
      OwnStepGetsOn(t, job.settings, d, s);
      m := FileStep(i, OwnStep(s.task.phase));
    }
  }

  lemma SomeMove(job: Job, fs: FileSystem, w: World) returns (m: Move)
    requires Alive(job, fs, w) && job.maxDownloads >= 1
    ensures Advances(job, w, m)
  {
    match w.coord
    case Scanning(_) => m := Scan;
    case Deleting(_) => m := Delete(true);
    case Awaiting(i) =>
      if i < |w.tasks| && w.tasks[i].Some? && !w.tasks[i].value.phase.Installed? && !w.tasks[i].value.phase.Failed? {
        m := FileMoves(job, fs, w, i);
      } else {
        m := AwaitFile;
      }
  }

  /** No deadlock: in every reachable state, whatever has failed so far, with at least one permit and one attempt, some
      move other than a failure is possible until the download returns. */
  lemma NoDeadlock(job: Job, fs: FileSystem, moves: seq<Move>, w: World)
    requires DistinctNames(job) && Exec(job, fs, moves) == Some(w) && !Returned(w)
    requires job.maxDownloads >= 1 && job.settings.maxAttempts >= 1
    ensures |w.tasks| == |job.files| && exists m :: CanMove(job, w, m) && !IsFailure(m)
  {
    ExecInv(job, fs, moves);
    ExecAttempts(job, fs, moves);
    var m := SomeMove(job, fs, w);
  }

  // ---------------------------------------------------------------- and some schedule succeeds

  /** Every selected chunk has a response that decodes. */
  ghost predicate Supplied(job: Job)
  {
    forall i: nat, k: nat | Selected(job, i) && k < |job.files[i].chunks| ::
      Obtainable(job.settings, job.files[i].chunks[k])
  }

  lemma NothingToSupply(job: Job)
    requires forall name: string :: !job.wanted(name)
    ensures Supplied(job)
  {
    assert forall i: nat | Named(job, i) :: !job.wanted(NameOf(job, i));
  }

  /** Responses in hand decode. */
  ghost predicate Decodable(job: Job, w: World)
    requires |w.tasks| == |job.files|
  {
    forall i: nat, k: nat | i < |w.tasks| && w.tasks[i].Some? && k < |w.tasks[i].value.ch| &&
        w.tasks[i].value.ch[k].Fetched? ::
      k < |job.files[i].chunks| && Decodes(job.settings, job.files[i].chunks[k], w.tasks[i].value.ch[k].raw)
  }

  lemma StepUnbroken(t: FileTask, g: Settings, s: Local, a: Step)
    requires |s.task.ch| == |t.chunks| && Enabled(t, g, s, a) && Unbroken(s.task) && !a.Fail? && !a.Abort? &&
               !a.FetchErr?
    requires a.Decode? ==> Decodes(g, t.chunks[a.k], s.task.ch[a.k].raw)
    ensures Unbroken(Apply(t, g, s, a).task)
  {
  }

  lemma StepDecodable(t: FileTask, g: Settings, s: Local, a: Step)
    requires |s.task.ch| == |t.chunks| && Enabled(t, g, s, a) && (a.FetchOk? ==> Decodes(g, t.chunks[a.k], a.raw))
    requires forall k: nat | k < |s.task.ch| && s.task.ch[k].Fetched? :: Decodes(g, t.chunks[k], s.task.ch[k].raw)
    ensures var ch := Apply(t, g, s, a).task.ch;
            |ch| == |t.chunks| && forall k: nat | k < |ch| && ch[k].Fetched? :: Decodes(g, t.chunks[k], ch[k].raw)
  {
  }

  /** The file's step leaves the file going. */
  lemma FileKeepsGoing(job: Job, fs: FileSystem, w: World, i: nat, a: Step)
    requires Alive(job, fs, w) && Going(w) && Supplied(job) && Decodable(job, w) && Advances(job, w, FileStep(i, a)) &&
               job.settings.maxAttempts >= 1
    ensures var k := Apply(TaskOf(job, i), job.settings, LocalOf(job, w, i), a).task;
            && Unbroken(k) && AttemptsLeft(job.settings, k) && |k.ch| == |job.files[i].chunks|
            && forall l: nat | l < |k.ch| && k.ch[l].Fetched? ::
                Decodes(job.settings, job.files[i].chunks[l], k.ch[l].raw)
  {
    var t, s := TaskOf(job, i), LocalOf(job, w, i);
    assert TaskInv(job, fs, w, i) && Selected(job, i);
    if a.FetchOk? {
      assert a.k < |job.files[i].chunks|;
    }
    StepUnbroken(t, job.settings, s, a);
    AttemptsStep(t, job.settings, s, a);
    StepDecodable(t, job.settings, s, a);
  }

  lemma TasksKeepGoing(job: Job, fs: FileSystem, w: World, m: Move)
    requires Alive(job, fs, w) && Going(w) && Supplied(job) && Decodable(job, w) && Advances(job, w, m) &&
               job.settings.maxAttempts >= 1
    ensures var w' := Next(job, w, m);
            && |w'.tasks| == |job.files| && Decodable(job, w')
            && forall i | 0 <= i < |w'.tasks| && w'.tasks[i].Some? ::
                 Unbroken(w'.tasks[i].value) && AttemptsLeft(job.settings, w'.tasks[i].value)
  {
    if m.FileStep? {
      FileKeepsGoing(job, fs, w, m.i, m.step);
      OneTaskReplaced(job, w, Next(job, w, m), m.i);
    } else {
      CoordKeepsTasks(job, w, m);
    }
  }

  lemma CoordKeepsTasks(job: Job, w: World, m: Move)
    requires |w.tasks| == |job.files| && CanMove(job, w, m) && !m.FileStep? && Decodable(job, w)
    requires forall j | 0 <= j < |w.tasks| && w.tasks[j].Some? ::
               Unbroken(w.tasks[j].value) && AttemptsLeft(job.settings, w.tasks[j].value)
    ensures var w' := Next(job, w, m);
            && |w'.tasks| == |job.files| && Decodable(job, w')
            && forall j | 0 <= j < |w'.tasks| && w'.tasks[j].Some? ::
                 Unbroken(w'.tasks[j].value) && AttemptsLeft(job.settings, w'.tasks[j].value)
  {
  }

  lemma OneTaskReplaced(job: Job, w: World, w': World, i: nat)
    requires i < |w.tasks| == |w'.tasks| == |job.files| && w'.tasks == w.tasks[i := w'.tasks[i]] && w'.tasks[i].Some? &&
               Decodable(job, w)
    requires forall j | 0 <= j < |w.tasks| && w.tasks[j].Some? ::
               Unbroken(w.tasks[j].value) && AttemptsLeft(job.settings, w.tasks[j].value)
    requires var k := w'.tasks[i].value;
             && Unbroken(k) && AttemptsLeft(job.settings, k) && |k.ch| == |job.files[i].chunks|
             && forall l: nat | l < |k.ch| && k.ch[l].Fetched? ::
                 Decodes(job.settings, job.files[i].chunks[l], k.ch[l].raw)
    ensures Decodable(job, w')
    ensures forall j | 0 <= j < |w'.tasks| && w'.tasks[j].Some? ::
              Unbroken(w'.tasks[j].value) && AttemptsLeft(job.settings, w'.tasks[j].value)
  {
  }

  lemma MoveKeepsGoing(job: Job, fs: FileSystem, w: World, m: Move)
    requires DistinctNames(job) && Alive(job, fs, w) && Going(w) && Supplied(job) && Decodable(job, w) &&
               Advances(job, w, m) && job.settings.maxAttempts >= 1
    ensures var w' := Next(job, w, m);
            WorldInv(job, fs, w') && Decodable(job, w') && (w'.coord.Succeeded? || (Alive(job, fs, w') && Going(w')))
  {
    MoveInv(job, fs, w, m);
    TasksKeepGoing(job, fs, w, m);
    CoordGoesOn(job, w, m);
  }

  lemma CoordGoesOn(job: Job, w: World, m: Move)
    requires |w.tasks| == |job.files| && Going(w) && CanMove(job, w, m)
    ensures !Next(job, w, m).coord.Errored?
  {
  }

  // ---------------------------------------------------------------- the measure

  function EntryRank(job: Job, w: World, j: nat): nat
    requires j < |w.tasks| == |job.files|
  {
    if w.tasks[j].Some? then TaskRank(job.settings.maxAttempts, w.tasks[j].value)
    else if w.coord.Scanning? && j >= w.coord.next then FreshRank(job, j)
    else 0
  }

  /** Steps of a file task from its start, at most: those of its own, and of each chunk task with every attempt used. */
  function FreshRank(job: Job, j: nat): nat
    requires j < |job.files|
  {
    var n := |job.files[j].chunks|;
    3 * n + 7 + n * (9 + job.settings.maxAttempts)
  }

  lemma {:induction false} UnspawnedRank(max: nat, ch: seq<ChunkPhase>)
    requires forall i | 0 <= i < |ch| :: ch[i].Unspawned?
    ensures Sum(ChunkRanks(max, ch)) == |ch| * (9 + max)
  {
    if ch != [] {
      var n := |ch| - 1;
      UnspawnedRank(max, ch[..n]);
      assert ChunkRanks(max, ch)[..n] == ChunkRanks(max, ch[..n]);
    }
  }

  function EntryRanks(job: Job, w: World): (r: seq<nat>)
    requires |w.tasks| == |job.files|
    ensures |r| == |w.tasks|
  {
    seq(|w.tasks|, j requires 0 <= j < |w.tasks| => EntryRank(job, w, j))
  }

  function CoordRank(job: Job, c: Coordinator): nat
  {
    var n, d := |job.files|, if job.previous.Some? then |job.previous.value| else 0;
    match c
    case Scanning(i) => if i <= n then (n - i) + n + d + 4 else 0
    case Awaiting(i) => if i <= n then (n - i) + d + 3 else 0
    case Deleting(k) => if k <= d then d - k + 1 else 1
    case Succeeded | Errored => 0
  }

  /** Moves ahead, at most. */
  function Rank(job: Job, w: World): nat
    requires |w.tasks| == |job.files|
  {
    CoordRank(job, w.coord) + Sum(EntryRanks(job, w))
  }

  lemma {:induction false} SumMonotone(a: seq<nat>, b: seq<nat>)
    requires |a| == |b| && forall i | 0 <= i < |a| :: a[i] <= b[i]
    ensures Sum(a) <= Sum(b)
  {
    if a != [] {
      SumMonotone(a[..|a| - 1], b[..|a| - 1]);
    }
  }

  lemma FileStepRank(job: Job, fs: FileSystem, w: World, m: Move)
    requires WorldInv(job, fs, w) && m.FileStep? && CanMove(job, w, m)
    ensures var w' := Next(job, w, m); |w'.tasks| == |job.files| && Rank(job, w') < Rank(job, w)
  {
    EntryFalls(job, fs, w, m.i, m.step);
    OneRankFalls(job, w, Next(job, w, m), m.i);
  }

  lemma EntryFalls(job: Job, fs: FileSystem, w: World, i: nat, a: Step)
    requires WorldInv(job, fs, w) && CanMove(job, w, FileStep(i, a))
    ensures var w' := Next(job, w, FileStep(i, a));
            && |w'.tasks| == |job.files| && w'.coord == w.coord && w'.tasks == w.tasks[i := w'.tasks[i]]
            && EntryRank(job, w', i) < EntryRank(job, w, i)
  {
    StepShape(job, w, i, a);
    assert TaskInv(job, fs, w, i);
    StepRank(TaskOf(job, i), job.settings, View(fs, NameOf(job, i)), LocalOf(job, w, i), a);
  }

  lemma OneRankFalls(job: Job, w: World, w': World, i: nat)
    requires i < |w.tasks| == |w'.tasks| == |job.files| && w'.coord == w.coord
    requires w'.tasks == w.tasks[i := w'.tasks[i]] && EntryRank(job, w', i) < EntryRank(job, w, i)
    ensures Rank(job, w') < Rank(job, w)
  {
    assert EntryRanks(job, w') == EntryRanks(job, w)[i := EntryRank(job, w', i)];
    SumUpdate(EntryRanks(job, w), i, EntryRank(job, w', i));
  }

  /** A coordinator's move that leaves no entry more to do and has less to do itself. */
  lemma RankFalls(job: Job, w: World, w': World)
    requires |w.tasks| == |w'.tasks| == |job.files| && CoordRank(job, w'.coord) < CoordRank(job, w.coord)
    requires forall j | 0 <= j < |w.tasks| :: EntryRank(job, w', j) <= EntryRank(job, w, j)
    ensures Rank(job, w') < Rank(job, w)
  {
    SumMonotone(EntryRanks(job, w'), EntryRanks(job, w));
  }

  lemma ScanRank(job: Job, w: World)
    requires |w.tasks| == |job.files| && w.coord.Scanning? && w.coord.next <= |w.tasks|
    requires w.coord.next < |w.tasks| ==> w.tasks[w.coord.next].None?
    ensures var w' := Next(job, w, Scan); |w'.tasks| == |job.files| && Rank(job, w') < Rank(job, w)
  {
    var i, w' := w.coord.next, Next(job, w, Scan);
    if i < |job.files| && w'.tasks[i].Some? {
      assert w'.tasks[i].value == NewTask(TaskOf(job, i));
      UnspawnedRank(job.settings.maxAttempts, NewTask(TaskOf(job, i)).ch);
    }
    RankFalls(job, w, w');
  }

  lemma OtherRank(job: Job, w: World, m: Move)
    requires |w.tasks| == |job.files| && CanMove(job, w, m) && (m.AwaitFile? || m.Delete?)
    requires w.coord.Awaiting? ==> w.coord.next <= |w.tasks|
    ensures var w' := Next(job, w, m); |w'.tasks| == |job.files| && Rank(job, w') < Rank(job, w)
  {
    RankFalls(job, w, Next(job, w, m));
  }

  lemma CoordMoveRank(job: Job, fs: FileSystem, w: World, m: Move)
    requires WorldInv(job, fs, w) && CanMove(job, w, m) && !m.FileStep?
    ensures var w' := Next(job, w, m); |w'.tasks| == |job.files| && Rank(job, w') < Rank(job, w)
  {
    if m.Scan? {
      ScanRank(job, w);
    } else {
      OtherRank(job, w, m);
    }
  }

  lemma MoveRank(job: Job, fs: FileSystem, w: World, m: Move)
    requires WorldInv(job, fs, w) && CanMove(job, w, m)
    ensures var w' := Next(job, w, m); |w'.tasks| == |job.files| && Rank(job, w') < Rank(job, w)
  {
    if m.FileStep? {
      FileStepRank(job, fs, w, m);
    } else {
      CoordMoveRank(job, fs, w, m);
    }
  }

  /** Moves of a whole download, at most. */
  function Bound(job: Job): nat
  {
    2 * |job.files| + (if job.previous.Some? then |job.previous.value| else 0) + 4
    + Sum(seq(|job.files|, j requires 0 <= j < |job.files| => FreshRank(job, j)))
  }

  /** No run is longer than a bound computed from the manifests and the settings: whatever the schedule and whatever
      fails, the download comes to an end. */
  lemma {:induction false} RunsAreBounded(job: Job, fs: FileSystem, moves: seq<Move>)
    requires DistinctNames(job)
    ensures var r := Exec(job, fs, moves);
            r.Some? ==> |r.value.tasks| == |job.files| && |moves| + Rank(job, r.value) <= Bound(job)
  {
    if moves == [] {
      var w := Start(job, fs);
      assert EntryRanks(job, w) == seq(|job.files|, j requires 0 <= j < |job.files| => FreshRank(job, j));
    } else {
      var n := |moves| - 1;
      RunsAreBounded(job, fs, moves[..n]);
      ExecInv(job, fs, moves[..n]);
      var r := Exec(job, fs, moves[..n]);
      if r.Some? && CanMove(job, r.value, moves[n]) {
        MoveRank(job, fs, r.value, moves[n]);
      }
    }
  }

  /** So a run kept going for as long as something other than a failure is possible is finite, and ends with the
      download returned. */
  lemma StuckIsReturned(job: Job, fs: FileSystem, moves: seq<Move>, w: World)
    requires DistinctNames(job) && Exec(job, fs, moves) == Some(w) && job.maxDownloads >= 1 &&
               job.settings.maxAttempts >= 1
    requires |w.tasks| == |job.files| ==> forall m | CanMove(job, w, m) :: IsFailure(m)
    ensures Returned(w) && |moves| <= Bound(job)
  {
    RunsAreBounded(job, fs, moves);
    if !Returned(w) {
      NoDeadlock(job, fs, moves, w);
    }
  }

  lemma ExecMore(job: Job, fs: FileSystem, moves: seq<Move>, w: World, m: Move)
    requires Exec(job, fs, moves) == Some(w) && |w.tasks| == |job.files| && CanMove(job, w, m)
    ensures Exec(job, fs, moves + [m]) == Some(Next(job, w, m))
  {
    assert (moves + [m])[..|moves|] == moves;
  }

  lemma {:induction false} RunToOk(job: Job, fs: FileSystem, moves: seq<Move>, w: World) returns (all: seq<Move>)
    requires DistinctNames(job) && job.maxDownloads >= 1 && job.settings.maxAttempts >= 1 && Supplied(job)
    requires Exec(job, fs, moves) == Some(w) && WorldInv(job, fs, w) && Decodable(job, w) &&
               (w.coord.Succeeded? || (Alive(job, fs, w) && Going(w)))
    ensures moves <= all && Exec(job, fs, all).Some? && Exec(job, fs, all).value.coord.Succeeded?
    decreases Rank(job, w)
  {
    if w.coord.Succeeded? {
      return moves;
    }
    var m := SomeMove(job, fs, w);
    MoveRank(job, fs, w, m);
    MoveKeepsGoing(job, fs, w, m);
    ExecMore(job, fs, moves, w, m);
    all := RunToOk(job, fs, moves + [m], Next(job, w, m));
  }

  /** From every reachable state without a failure, whose responses so far decode, some schedule goes on to return
      Ok. */
  lemma SomeScheduleSucceeds(job: Job, fs: FileSystem, moves: seq<Move>, w: World) returns (all: seq<Move>)
    requires DistinctNames(job) && job.maxDownloads >= 1 && job.settings.maxAttempts >= 1 && Supplied(job)
    requires Exec(job, fs, moves) == Some(w) && Going(w) && |w.tasks| == |job.files| && Decodable(job, w)
    ensures moves <= all && Exec(job, fs, all).Some? && Exec(job, fs, all).value.coord.Succeeded?
  {
    ExecInv(job, fs, moves);
    ExecAttempts(job, fs, moves);
    all := RunToOk(job, fs, moves, w);
  }
}
