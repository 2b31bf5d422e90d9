/** One `download_file` task and its chunk tasks (crates/steam-client/src/download.rs:348-568), as a step machine
    over the two paths the task touches. A run is any interleaving of the steps below, stopped anywhere. */
module FileProtocol {
  import opened Base
  import opened Files
  import opened Checksum
  import opened Chunks

  datatype FileTask = FileTask(name: string, size: Option<nat>, chunks: seq<Chunk>, oldChunks: Option<seq<Chunk>>)

  /** The staging file and the installed file. */
  datatype Disk = Disk(staged: Option<Bytes>, final: Option<Bytes>)

  datatype Settings = Settings(maxAttempts: nat, codec: Codec)

  datatype ChunkPhase =
    | Unspawned
    | Skipped
    | Queued                    // spawned, waiting for a permit
    | Fetching(attempt: nat)    // from here to Released: holds a permit
    | Fetched(raw: Bytes)
    | Decoded(data: Bytes)
    | Locked(data: Bytes)       // from here to Written: holds the file lock
    | Seeked(data: Bytes)
    | Written(data: Bytes)
    | Released(data: Bytes)
    | Complete(data: Bytes)
    | Broken

  datatype Phase =
    | Ready
    | Examining                 // the installed file did not verify
    | Sizing                    // staging truncated, length not set yet
    | Copying(next: nat)        // delta copy loop
    | Spawning(next: nat)       // spawn loop
    | Waiting(next: nat)        // awaiting chunk tasks in order
    | Installed                 // returned Ok
    | Failed(spawned: nat)      // returned Err; `spawned` chunk tasks were left running

  datatype Task = Task(phase: Phase, valid: set<ChunkId>, ch: seq<ChunkPhase>, lock: Option<nat>, cursor: nat)

  datatype Local = Local(disk: Disk, task: Task)

  datatype Step =
    | CheckFinal | CheckStaging | SetLen | Copy | Spawn | Await | Fail
    | Acquire(k: nat) | FetchOk(k: nat, raw: Bytes) | FetchErr(k: nat) | Decode(k: nat)
    | Lock(k: nat) | Seek(k: nat) | Write(k: nat) | Unlock(k: nat) | SkipWrite(k: nat)
    | Finish(k: nat)
    | Abort(k: nat, written: nat)   // any other error of a chunk task; a failing write may have put out a prefix

  function NewTask(t: FileTask): Task
  {
    Task(Ready, {}, seq(|t.chunks|, _ => Unspawned), None, 0)
  }

  predicate HoldsPermit(p: ChunkPhase)
  {
    p.Fetching? || p.Fetched? || p.Decoded? || p.Locked? || p.Seeked? || p.Written? || p.Released?
  }

  predicate HoldsLock(p: ChunkPhase)
  {
    p.Locked? || p.Seeked? || p.Written?
  }

  // ---------------------------------------------------------------- delta copying

  /** `find` on the old chunk list: the first chunk with the id. */
  function OldMatch(oldChunks: seq<Chunk>, id: ChunkId): Option<Chunk>
  {
    if oldChunks == [] then None
    else if oldChunks[0].id == Some(id) then Some(oldChunks[0])
    else OldMatch(oldChunks[1..], id)
  }

  /** The bytes the delta copy takes for chunk `c`, if it takes any. */
  function OldBytes(prev: Bytes, oldChunks: seq<Chunk>, c: Chunk): Option<Bytes>
  {
    if c.id.None? then None
    else
      var m := OldMatch(oldChunks, c.id.value);
      if m.Some? && m.value.offset.Some? && c.offset.Some? && c.size.Some?
      then ReadAt(prev, m.value.offset.value, c.size.value)
      else None
  }

  function CopyOne(staged: Bytes, prev: Bytes, oldChunks: seq<Chunk>, c: Chunk): Bytes
  {
    var b := OldBytes(prev, oldChunks, c);
    if b.Some? && c.offset.Some? then WriteAt(staged, c.offset.value, b.value) else staged
  }

  function CopyUpTo(staged: Bytes, prev: Bytes, oldChunks: seq<Chunk>, chunks: seq<Chunk>, n: nat): Bytes
    requires n <= |chunks|
  {
    if n == 0 then staged
    else CopyOne(CopyUpTo(staged, prev, oldChunks, chunks, n - 1), prev, oldChunks, chunks[n - 1])
  }

  /** The copy loop over the two open files. */
  method DeltaCopy(staged: Handle, prev: Handle, oldChunks: seq<Chunk>, chunks: seq<Chunk>)
    requires staged != prev
    modifies staged, prev`pos
    ensures staged.bytes == CopyUpTo(old(staged.bytes), prev.bytes, oldChunks, chunks, |chunks|)
  {
    for i := 0 to |chunks|
      invariant prev.bytes == old(prev.bytes)
      invariant staged.bytes == CopyUpTo(old(staged.bytes), prev.bytes, oldChunks, chunks, i)
    {
      var c := chunks[i];
      if c.id.Some? {
        var m := OldMatch(oldChunks, c.id.value);
        if m.Some? && m.value.offset.Some? && c.offset.Some? && c.size.Some? {
          prev.Seek(m.value.offset.value);
          var buf := prev.ReadExact(c.size.value);
          if buf.Some? {
            staged.Seek(c.offset.value);
            staged.WriteAll(buf.value);
          }
        }
      }
    }
  }

  // ---------------------------------------------------------------- what the start of the task decides

  predicate Resumes(t: FileTask, d: Disk)
  {
    SizeMatches(d.staged, t.size)
  }

  ghost function ResumedIds(t: FileTask, d: Disk): set<ChunkId>
  {
    if Resumes(t, d) then GoodIds(d.staged.value, t.chunks) else {}
  }

  predicate DeltaActive(t: FileTask, d: Disk)
  {
    t.oldChunks.Some? && d.final.Some?
  }

  /** The staging bytes when the file has been opened. */
  function OpenedBytes(t: FileTask, d: Disk): Bytes
  {
    if Resumes(t, d) then d.staged.value else if t.size.Some? then Zeros(t.size.value) else []
  }

  function CopiedBytes(t: FileTask, d: Disk, n: nat): Bytes
    requires n <= |t.chunks|
  {
    if DeltaActive(t, d) then CopyUpTo(OpenedBytes(t, d), d.final.value, t.oldChunks.value, t.chunks, n)
    else OpenedBytes(t, d)
  }

  /** The staging bytes the chunk tasks start from. */
  function BaseBytes(t: FileTask, d: Disk): Bytes
  {
    CopiedBytes(t, d, |t.chunks|)
  }

  /** Whether the spawn loop spawns chunk `c`. `final` is the installed file as the loop sees it. */
  ghost predicate WillFetch(t: FileTask, valid: set<ChunkId>, final: Option<Bytes>, c: Chunk)
  {
    && c.id.Some?
    && c.id.value !in valid
    && !(t.oldChunks.Some? && final.Some? && OldMatch(t.oldChunks.value, c.id.value).Some?)
  }

  ghost predicate Fetches(t: FileTask, d: Disk, k: nat)
    requires k < |t.chunks|
  {
    WillFetch(t, ResumedIds(t, d), d.final, t.chunks[k])
  }

  // ---------------------------------------------------------------- steps

  ghost predicate Enabled(t: FileTask, g: Settings, s: Local, a: Step)
    requires |s.task.ch| == |t.chunks|
  {
    var p, ch := s.task.phase, s.task.ch;
    match a
    case CheckFinal => p.Ready?
    case CheckStaging => p.Examining?
    case SetLen => p.Sizing?
    case Copy => p.Copying? && s.disk.staged.Some?
    case Spawn => p.Spawning?
    case Await => p.Waiting? && (if p.next < |ch| then ch[p.next].Skipped? || ch[p.next].Complete? || ch[p.next].Broken?
                                 else s.disk.staged.Some?)
    case Fail => !p.Installed? && !p.Failed?
    case Acquire(k) => k < |ch| && ch[k].Queued?
    case FetchOk(k, _) => k < |ch| && ch[k].Fetching? && ch[k].attempt < g.maxAttempts
    case FetchErr(k) => k < |ch| && ch[k].Fetching? && ch[k].attempt < g.maxAttempts
    case Decode(k) => k < |ch| && ch[k].Fetched?
    case Lock(k) => k < |ch| && ch[k].Decoded? && t.chunks[k].offset.Some? && s.task.lock.None?
    case Seek(k) => k < |ch| && ch[k].Locked? && t.chunks[k].offset.Some?
    case Write(k) => k < |ch| && ch[k].Seeked? && s.disk.staged.Some?
    case Unlock(k) => k < |ch| && ch[k].Written?
    case SkipWrite(k) => k < |ch| && ch[k].Decoded? && t.chunks[k].offset.None?
    case Finish(k) => k < |ch| && ch[k].Released?
    case Abort(k, n) =>
      && k < |ch| && (ch[k].Queued? || HoldsPermit(ch[k]))
      && (if ch[k].Seeked? then n <= |ch[k].data| && s.disk.staged.Some? else n == 0)
  }

  /** Anything that can fail may: the file task until it has returned, every chunk task once it is spawned, a fetch with
      an error or any bytes at all, and a write after any part of its data. */
  lemma AnythingMayFail(t: FileTask, g: Settings, s: Local, k: nat)
    requires |s.task.ch| == |t.chunks|
    ensures Enabled(t, g, s, Fail) <==> !s.task.phase.Installed? && !s.task.phase.Failed?
    ensures k < |t.chunks| ==>
              var p := s.task.ch[k];
              && (Enabled(t, g, s, FetchErr(k)) <==> p.Fetching? && p.attempt < g.maxAttempts)
              && (forall raw :: Enabled(t, g, s, FetchOk(k, raw)) <==> p.Fetching? && p.attempt < g.maxAttempts)
              && (Enabled(t, g, s, Abort(k, 0)) <==>
                    && !p.Unspawned? && !p.Skipped? && !p.Complete? && !p.Broken?
                    && (p.Seeked? ==> s.disk.staged.Some?))
              && (p.Seeked? && s.disk.staged.Some? ==>
                    forall n: nat | n <= |p.data| :: Enabled(t, g, s, Abort(k, n)))
  {
  }

  function Spawned(t: FileTask, p: Phase): nat
  {
    match p
    case Spawning(n) => n
    case Waiting(_) => |t.chunks|
    case Failed(n) => n
    case _ => 0
  }

  ghost function Apply(t: FileTask, g: Settings, s: Local, a: Step): Local
    requires |s.task.ch| == |t.chunks| && Enabled(t, g, s, a)
  {
    var d, k := s.disk, s.task;
    match a
    case CheckFinal =>
      Local(d, k.(phase := if Verifies(d.final, t.size, t.chunks) then Installed else Examining))
    case CheckStaging =>
      if Resumes(t, d) then
        var valid := GoodIds(d.staged.value, t.chunks);
        if |valid| == |t.chunks| then Local(Disk(None, d.staged), k.(phase := Installed))
        else Local(d, k.(phase := Copying(0), valid := valid))
      else Local(d.(staged := Some([])), k.(phase := Sizing))
    case SetLen =>
      Local(d.(staged := Some(if t.size.Some? then Zeros(t.size.value) else [])), k.(phase := Copying(0)))
    case Copy =>
      if DeltaActive(t, d) && k.phase.next < |t.chunks| then
        Local(d.(staged := Some(CopyOne(d.staged.value, d.final.value, t.oldChunks.value, t.chunks[k.phase.next]))),
              k.(phase := Copying(k.phase.next + 1)))
      else Local(d, k.(phase := Spawning(0)))
    case Spawn =>
      var n := k.phase.next;
      if n < |t.chunks| then
        var c := if WillFetch(t, k.valid, d.final, t.chunks[n]) then Queued else Skipped;
        Local(d, k.(phase := Spawning(n + 1), ch := k.ch[n := c]))
      else Local(d, k.(phase := Waiting(0)))
    case Await =>
      var n := k.phase.next;
      if n < |t.chunks| then
        Local(d, k.(phase := if k.ch[n].Broken? then Failed(|t.chunks|) else Waiting(n + 1)))
      else Local(Disk(None, d.staged), k.(phase := Installed))
    case Fail => Local(d, k.(phase := Failed(Spawned(t, k.phase))))
    case Acquire(i) => Local(d, k.(ch := k.ch[i := Fetching(0)]))
    case FetchOk(i, raw) => Local(d, k.(ch := k.ch[i := Fetched(raw)]))
    case FetchErr(i) =>
      var n := k.ch[i].attempt + 1;
      Local(d, k.(ch := k.ch[i := if n < g.maxAttempts then Fetching(n) else Broken]))
    case Decode(i) =>
      var c := t.chunks[i];
      var next :=
        if c.size.None? || c.checksum.None? then Broken
        else
          match ProcessChunk(g.codec, k.ch[i].raw, c.size.value, c.checksum.value)
          case Ok(data) => Decoded(data)
          case Err(_) => Broken;
      Local(d, k.(ch := k.ch[i := next]))
    case Lock(i) => Local(d, k.(ch := k.ch[i := Locked(k.ch[i].data)], lock := Some(i)))
    case Seek(i) => Local(d, k.(ch := k.ch[i := Seeked(k.ch[i].data)], cursor := t.chunks[i].offset.value))
    case Write(i) =>
      var data := k.ch[i].data;
      Local(d.(staged := Some(WriteAt(d.staged.value, k.cursor, data))),
            k.(ch := k.ch[i := Written(data)], cursor := k.cursor + |data|))
    case Unlock(i) => Local(d, k.(ch := k.ch[i := Released(k.ch[i].data)], lock := None))
    case SkipWrite(i) => Local(d, k.(ch := k.ch[i := Released(k.ch[i].data)]))
    case Finish(i) => Local(d, k.(ch := k.ch[i := Complete(k.ch[i].data)]))
    case Abort(i, n) =>
      var d' := if k.ch[i].Seeked? then d.(staged := Some(WriteAt(d.staged.value, k.cursor, k.ch[i].data[..n]))) else d;
      Local(d', k.(ch := k.ch[i := Broken], lock := if HoldsLock(k.ch[i]) then None else k.lock))
  }

  // ---------------------------------------------------------------- the layout hypothesis

  predicate HasRange(c: Chunk)
  {
    c.offset.Some? && c.size.Some?
  }

  predicate Apart(c: Chunk, e: Chunk)
    requires HasRange(c) && HasRange(e)
  {
    c.offset.value + c.size.value <= e.offset.value || e.offset.value + e.size.value <= c.offset.value
  }

  /** Chunk ranges lie inside the file and do not overlap. */
  ghost predicate Layout(t: FileTask)
  {
    && t.size.Some?
    && (forall k | 0 <= k < |t.chunks| && HasRange(t.chunks[k]) ::
          t.chunks[k].offset.value + t.chunks[k].size.value <= t.size.value)
    && (forall j, k | 0 <= j < k < |t.chunks| && HasRange(t.chunks[j]) && HasRange(t.chunks[k]) ::
          Apart(t.chunks[j], t.chunks[k]))
  }

  /** What `f` holds in the range of `c`. */
  function Part(f: Bytes, c: Chunk): Option<Bytes>
    requires HasRange(c)
  {
    ReadAt(f, c.offset.value, c.size.value)
  }

  // ---------------------------------------------------------------- the invariant

  predicate HasData(p: ChunkPhase)
  {
    p.Decoded? || p.Locked? || p.Seeked? || p.Written? || p.Released? || p.Complete?
  }

  predicate Landed(p: ChunkPhase)
  {
    p.Written? || p.Released? || p.Complete?
  }

  /** Data in hand passed the size and checksum gate. */
  predicate Gated(c: Chunk, p: ChunkPhase)
  {
    HasData(p) ==> c.size == Some(|p.data|) && c.checksum == Some(SteamAdler(p.data))
  }

  /** Every chunk's range holds its fetched data once written, and the base bytes before it is touched. */
  ghost predicate Contents(t: FileTask, base: Bytes, ch: seq<ChunkPhase>, f: Bytes)
    requires |ch| == |t.chunks|
  {
    && |f| == |base|
    && (forall k | 0 <= k < |ch| && HasRange(t.chunks[k]) && !ch[k].Broken? ::
          Part(f, t.chunks[k]) == if Landed(ch[k]) then Some(ch[k].data) else Part(base, t.chunks[k]))
  }

  /** The lock is held by at most one chunk task, and between its seek and its write the shared cursor is that chunk's
      offset. */
  ghost predicate LockSafe(t: FileTask, k: Task)
    requires |k.ch| == |t.chunks|
  {
    && (k.lock.Some? ==> k.lock.value < |k.ch|)
    && (forall i | 0 <= i < |k.ch| :: HoldsLock(k.ch[i]) <==> k.lock == Some(i))
    && (forall i | 0 <= i < |k.ch| && HoldsLock(k.ch[i]) :: t.chunks[i].offset.Some?)
    && (forall i | 0 <= i < |k.ch| && k.ch[i].Seeked? :: k.cursor == t.chunks[i].offset.value)
  }

  /** Past the two early exits. */
  ghost predicate NoShortcut(t: FileTask, d: Disk)
  {
    !Verifies(d.final, t.size, t.chunks) && (Resumes(t, d) ==> |ResumedIds(t, d)| != |t.chunks|)
  }

  ghost predicate Decided(t: FileTask, d: Disk, ch: seq<ChunkPhase>, n: nat)
    requires |ch| == |t.chunks|
  {
    && n <= |ch|
    && (forall k | 0 <= k < n :: !ch[k].Unspawned? && (ch[k].Skipped? <==> !Fetches(t, d, k)))
    && (forall k | n <= k < |ch| :: ch[k].Unspawned?)
  }

  ghost predicate Settled(ch: seq<ChunkPhase>, n: nat)
    requires n <= |ch|
  {
    forall k | 0 <= k < n :: ch[k].Skipped? || ch[k].Complete?
  }

  /** The chunk tasks are working on the open staging file. */
  ghost predicate Working(t: FileTask, d: Disk, s: Local)
    requires |s.task.ch| == |t.chunks|
  {
    NoShortcut(t, d) && s.disk.staged.Some? &&
        (Layout(t) ==> Contents(t, BaseBytes(t, d), s.task.ch, s.disk.staged.value))
  }

  ghost predicate PhaseInv(t: FileTask, d: Disk, s: Local)
    requires |s.task.ch| == |t.chunks|
  {
    var ch := s.task.ch;
    match s.task.phase
    case Ready => s.disk == d && Decided(t, d, ch, 0) && s.task.valid == {}
    case Examining => s.disk == d && Decided(t, d, ch, 0) && s.task.valid == {} && !Verifies(d.final, t.size, t.chunks)
    case Sizing => NoShortcut(t, d) && !Resumes(t, d) && s.disk.staged.Some? && Decided(t, d, ch, 0) &&
        s.task.valid == {}
    case Copying(n) =>
      && NoShortcut(t, d) && Decided(t, d, ch, 0) && s.task.valid == ResumedIds(t, d)
      && n <= |t.chunks| && s.disk.staged == Some(CopiedBytes(t, d, n))
    case Spawning(n) => Decided(t, d, ch, n) && Working(t, d, s) && s.task.valid == ResumedIds(t, d)
    case Waiting(n) => Decided(t, d, ch, |ch|) && Working(t, d, s) && n <= |ch| && Settled(ch, n)
    case Failed(n) =>
      && Decided(t, d, ch, n) && (n > 0 ==> Working(t, d, s))
      && (Verifies(d.final, t.size, t.chunks) ==> s.disk == d && n == 0)
    case Installed =>
      && (|| (Verifies(d.final, t.size, t.chunks) && s.disk == d && Decided(t, d, ch, 0))
          || (Resumes(t, d) && |ResumedIds(t, d)| == |t.chunks| && s.disk == Disk(None, d.staged) &&
              Decided(t, d, ch, 0)
              && !Verifies(d.final, t.size, t.chunks))
          || (NoShortcut(t, d) && Decided(t, d, ch, |ch|) && Settled(ch, |ch|) && s.disk.staged.None? &&
              s.disk.final.Some?
              && (Layout(t) ==> Contents(t, BaseBytes(t, d), ch, s.disk.final.value))))
  }

  ghost predicate Inv(t: FileTask, d: Disk, s: Local)
  {
    && |s.task.ch| == |t.chunks|
    && (forall k | 0 <= k < |t.chunks| :: Gated(t.chunks[k], s.task.ch[k]))
    && LockSafe(t, s.task)
    && (!s.task.phase.Installed? ==> s.disk.final == d.final)
    && PhaseInv(t, d, s)
  }

  lemma InvInit(t: FileTask, d: Disk)
    ensures Inv(t, d, Local(d, NewTask(t)))
  {
  }

  lemma {:induction false} CopiedLength(t: FileTask, d: Disk, n: nat)
    requires Layout(t) && n <= |t.chunks|
    ensures |CopiedBytes(t, d, n)| == t.size.value
  {
    if DeltaActive(t, d) && n > 0 {
      CopiedLength(t, d, n - 1);
      var c := t.chunks[n - 1];
      var b := OldBytes(d.final.value, t.oldChunks.value, c);
      if b.Some? {
        WriteInside(CopiedBytes(t, d, n - 1), c.offset.value, b.value);
      }
    }
  }

  /** Writing a prefix of one chunk's data at its offset disturbs no other chunk. */
  lemma ContentsWrite(t: FileTask, base: Bytes, ch: seq<ChunkPhase>, f: Bytes, i: nat, n: nat, p: ChunkPhase)
    requires Layout(t) && |ch| == |t.chunks| && |base| == t.size.value && Contents(t, base, ch, f)
    requires i < |ch| && ch[i].Seeked? && n <= |ch[i].data| && HasRange(t.chunks[i]) && Gated(t.chunks[i], ch[i])
    requires p.Broken? || (p == Written(ch[i].data) && n == |ch[i].data|)
    ensures Contents(t, base, ch[i := p], WriteAt(f, t.chunks[i].offset.value, ch[i].data[..n]))
  {
    var c, data := t.chunks[i], ch[i].data[..n];
    var g := WriteAt(f, c.offset.value, data);
    WriteInside(f, c.offset.value, data);
    if n == |ch[i].data| {
      assert data == ch[i].data;
    }
    forall k | 0 <= k < |ch| && k != i && HasRange(t.chunks[k]) && !ch[k].Broken?
      ensures Part(g, t.chunks[k]) == Part(f, t.chunks[k])
    {
      assert Apart(t.chunks[if i < k then i else k], t.chunks[if i < k then k else i]);
      WriteElsewhere(f, c.offset.value, data, t.chunks[k].offset.value, t.chunks[k].size.value);
    }
  }

  lemma InvOpening(t: FileTask, g: Settings, d: Disk, s: Local, a: Step)
    requires Inv(t, d, s) && Enabled(t, g, s, a) && (a.CheckFinal? || a.CheckStaging? || a.SetLen? || a.Fail?)
    ensures Inv(t, d, Apply(t, g, s, a))
  {
  }

  lemma InvCopy(t: FileTask, g: Settings, d: Disk, s: Local)
    requires Inv(t, d, s) && Enabled(t, g, s, Copy)
    ensures Inv(t, d, Apply(t, g, s, Copy))
  {
  }

  lemma InvSpawn(t: FileTask, g: Settings, d: Disk, s: Local)
    requires Inv(t, d, s) && Enabled(t, g, s, Spawn)
    ensures Inv(t, d, Apply(t, g, s, Spawn))
  {
    var n := s.task.phase.next;
    var ch := s.task.ch;
    if n < |ch| {
      var ch' := Apply(t, g, s, Spawn).task.ch;
      assert ch' == ch[n := ch'[n]] && !Landed(ch'[n]) && !ch'[n].Broken?;
      assert Layout(t) ==> Contents(t, BaseBytes(t, d), ch', s.disk.staged.value);
    }
  }

  lemma InvAwait(t: FileTask, g: Settings, d: Disk, s: Local)
    requires Inv(t, d, s) && Enabled(t, g, s, Await)
    ensures Inv(t, d, Apply(t, g, s, Await))
  {
  }

  predicate Live(p: ChunkPhase)
  {
    p.Queued? || HoldsPermit(p)
  }

  /** A live chunk task moving to another spawned phase keeps the file-level invariant, given the contents. */
  lemma ChunkUpdate(t: FileTask, d: Disk, s: Local, i: nat, p: ChunkPhase, s': Local)
    requires Inv(t, d, s) && i < |s.task.ch| && Live(s.task.ch[i]) && !p.Unspawned? && !p.Skipped?
    requires s'.disk.final == s.disk.final && s'.disk.staged.Some? && s'.task.ch == s.task.ch[i := p]
    requires s'.task.phase == s.task.phase && s'.task.valid == s.task.valid
    requires Layout(t) ==> Contents(t, BaseBytes(t, d), s'.task.ch, s'.disk.staged.value)
    ensures PhaseInv(t, d, s') && !s'.task.phase.Installed?
  {
  }

  /** A chunk task that neither writes nor changes its landed data leaves the contents described. */
  lemma ContentsStep(t: FileTask, base: Bytes, ch: seq<ChunkPhase>, f: Bytes, i: nat, p: ChunkPhase)
    requires |ch| == |t.chunks| && i < |ch| && Contents(t, base, ch, f)
    requires p.Broken? || !HasRange(t.chunks[i]) ||
               (!ch[i].Broken? && Landed(p) == Landed(ch[i]) && (Landed(p) ==> p.data == ch[i].data))
    ensures Contents(t, base, ch[i := p], f)
  {
  }

  lemma LiveIsWorking(t: FileTask, d: Disk, s: Local, i: nat)
    requires Inv(t, d, s) && i < |s.task.ch| && Live(s.task.ch[i])
    ensures Working(t, d, s)
  {
  }

  predicate IsChunkStep(a: Step)
  {
    a.Acquire? || a.FetchOk? || a.FetchErr? || a.Decode? || a.Lock? || a.Seek? || a.Unlock? || a.SkipWrite? || a.Finish?
  }

  lemma ChunkStepEffect(t: FileTask, g: Settings, d: Disk, s: Local, a: Step)
    requires Inv(t, d, s) && Enabled(t, g, s, a) && IsChunkStep(a)
    ensures var s', i := Apply(t, g, s, a), a.k;
            && i < |s.task.ch| && Live(s.task.ch[i])
            && s'.disk == s.disk && s'.task.phase == s.task.phase && s'.task.valid == s.task.valid
            && |s'.task.ch| == |s.task.ch| && s'.task.ch == s.task.ch[i := s'.task.ch[i]]
            && (Live(s'.task.ch[i]) || s'.task.ch[i].Complete? || s'.task.ch[i].Broken?)
            && Gated(t.chunks[i], s'.task.ch[i])
            && (HasRange(t.chunks[i]) && !s'.task.ch[i].Broken? ==>
                  && !s.task.ch[i].Broken? && Landed(s'.task.ch[i]) == Landed(s.task.ch[i])
                  && (Landed(s.task.ch[i]) ==> s'.task.ch[i].data == s.task.ch[i].data))
  {
  }

  lemma LockStep(t: FileTask, g: Settings, s: Local, a: Step)
    requires |s.task.ch| == |t.chunks| && LockSafe(t, s.task) && Enabled(t, g, s, a) && !a.Spawn?
    ensures LockSafe(t, Apply(t, g, s, a).task)
  {
    if IsChunkStep(a) || a.Write? || a.Abort? {
      LockAt(t, s.task, Apply(t, g, s, a).task, a.k);
    }
  }

  /** Only the chunk that steps takes or gives up the lock, or moves the cursor. */
  lemma LockAt(t: FileTask, k: Task, k': Task, i: nat)
    requires |k.ch| == |k'.ch| == |t.chunks| && LockSafe(t, k) && i < |k.ch| && k'.ch == k.ch[i := k'.ch[i]]
    requires k'.lock == if HoldsLock(k'.ch[i]) then Some(i) else if HoldsLock(k.ch[i]) then None else k.lock
    requires HoldsLock(k'.ch[i]) && !HoldsLock(k.ch[i]) ==> k.lock.None? && t.chunks[i].offset.Some?
    requires k'.ch[i].Seeked? && t.chunks[i].offset.Some? ==> k'.cursor == t.chunks[i].offset.value
    requires k'.cursor != k.cursor ==> HoldsLock(k.ch[i])
    ensures LockSafe(t, k')
  {
  }

  lemma InvChunkStep(t: FileTask, g: Settings, d: Disk, s: Local, a: Step)
    requires Inv(t, d, s) && Enabled(t, g, s, a) && IsChunkStep(a)
    ensures Inv(t, d, Apply(t, g, s, a))
  {
    var i, s' := a.k, Apply(t, g, s, a);
    ChunkStepEffect(t, g, d, s, a);
    LiveIsWorking(t, d, s, i);
    if Layout(t) {
      ContentsStep(t, BaseBytes(t, d), s.task.ch, s.disk.staged.value, i, s'.task.ch[i]);
    }
    ChunkUpdate(t, d, s, i, s'.task.ch[i], s');
    LockStep(t, g, s, a);
  }

  lemma InvWriteStep(t: FileTask, g: Settings, d: Disk, s: Local, a: Step)
    requires Inv(t, d, s) && Enabled(t, g, s, a) && (a.Write? || a.Abort?)
    ensures Inv(t, d, Apply(t, g, s, a))
  {
    var i, s' := a.k, Apply(t, g, s, a);
    LiveIsWorking(t, d, s, i);
    WriteContents(t, g, d, s, a);
    WriteGated(t, g, s, a);
    LockStep(t, g, s, a);
    ChunkUpdate(t, d, s, i, s'.task.ch[i], s');
  }

  lemma WriteContents(t: FileTask, g: Settings, d: Disk, s: Local, a: Step)
    requires Inv(t, d, s) && Working(t, d, s) && Enabled(t, g, s, a) && (a.Write? || a.Abort?)
    ensures var s' := Apply(t, g, s, a);
            s'.disk.staged.Some? && |s'.task.ch| == |t.chunks| &&
            (Layout(t) ==> Contents(t, BaseBytes(t, d), s'.task.ch, s'.disk.staged.value))
  {
    var i, p := a.k, Apply(t, g, s, a).task.ch[a.k];
    if Layout(t) {
      CopiedLength(t, d, |t.chunks|);
      if s.task.ch[i].Seeked? {
        var data := s.task.ch[i].data;
        assert data[..|data|] == data;
        ContentsWrite(t, BaseBytes(t, d), s.task.ch, s.disk.staged.value, i, if a.Write? then |data| else a.written, p);
      } else {
        ContentsStep(t, BaseBytes(t, d), s.task.ch, s.disk.staged.value, i, p);
      }
    }
  }

  lemma WriteGated(t: FileTask, g: Settings, s: Local, a: Step)
    requires |s.task.ch| == |t.chunks| && Enabled(t, g, s, a) && (a.Write? || a.Abort?)
    requires forall k | 0 <= k < |t.chunks| :: Gated(t.chunks[k], s.task.ch[k])
    ensures var ch := Apply(t, g, s, a).task.ch;
            |ch| == |t.chunks| && forall k | 0 <= k < |t.chunks| :: Gated(t.chunks[k], ch[k])
  {
  }

  lemma InvStep(t: FileTask, g: Settings, d: Disk, s: Local, a: Step)
    requires Inv(t, d, s) && Enabled(t, g, s, a)
    ensures Inv(t, d, Apply(t, g, s, a))
  {
    match a
    case CheckFinal | CheckStaging | SetLen | Fail => InvOpening(t, g, d, s, a);
    case Copy => InvCopy(t, g, d, s);
    case Spawn => InvSpawn(t, g, d, s);
    case Await => InvAwait(t, g, d, s);
    case Write(_) | Abort(_, _) => InvWriteStep(t, g, d, s, a);
    case _ => InvChunkStep(t, g, d, s, a);
  }
}
