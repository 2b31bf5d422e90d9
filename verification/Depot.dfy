/** A whole depot download (crates/steam-client/src/download.rs:170-339): the coordinating loop, all file tasks over
    one file system, and the semaphore they share. */
module Depot {
  import opened Base
  import opened Chunks
  import opened FileProtocol

  type FileSystem = map<string, Bytes>

  datatype Job = Job(files: seq<File>, previous: Option<seq<File>>, wanted: string -> bool, maxDownloads: nat,
      settings: Settings)

  datatype Event = FileSkipped(name: string) | FileStarted(name: string) | Progress(completed: nat)

  datatype Coordinator = Scanning(next: nat) | Awaiting(next: nat) | Deleting(next: nat) | Succeeded | Errored

  /** `kept` are the paths whose removal failed. */
  datatype World = World(fs: FileSystem, free: nat, tasks: seq<Option<Task>>, coord: Coordinator,
                         completed: nat, events: seq<Event>, kept: set<string>)

  datatype Move = Scan | AwaitFile | Delete(ok: bool) | FileStep(i: nat, step: Step)

  // ---------------------------------------------------------------- paths

  const STAGING := ".staging/"

  function Staged(name: string): string
  {
    STAGING + name
  }

  predicate UnderStaging(path: string)
  {
    STAGING <= path
  }

  function Lookup(fs: FileSystem, path: string): Option<Bytes>
  {
    if path in fs then Some(fs[path]) else None
  }

  function Put(fs: FileSystem, path: string, b: Option<Bytes>): FileSystem
  {
    if b.Some? then fs[path := b.value] else fs - {path}
  }

  function View(fs: FileSystem, name: string): Disk
  {
    Disk(Lookup(fs, Staged(name)), Lookup(fs, name))
  }

  function Store(fs: FileSystem, name: string, d: Disk): FileSystem
  {
    Put(Put(fs, Staged(name), d.staged), name, d.final)
  }

  lemma StoreElsewhere(fs: FileSystem, name: string, d: Disk, path: string)
    requires path != name && path != Staged(name)
    ensures Lookup(Store(fs, name, d), path) == Lookup(fs, path)
  {
  }

  lemma ViewStore(fs: FileSystem, name: string, d: Disk)
    ensures View(Store(fs, name, d), name) == d
  {
    assert |Staged(name)| > |name|;
  }

  lemma StagedApart(name: string, other: string)
    requires name != other && !UnderStaging(name) && !UnderStaging(other)
    ensures Staged(name) != Staged(other) && Staged(name) != other && Staged(other) != name
  {
    assert Staged(name)[|STAGING|..] == name && Staged(other)[|STAGING|..] == other;
    assert STAGING <= Staged(name) && STAGING <= Staged(other);
  }

  lemma ViewElsewhere(fs: FileSystem, name: string, d: Disk, other: string)
    requires name != other && !UnderStaging(name) && !UnderStaging(other)
    ensures View(Store(fs, name, d), other) == View(fs, other)
  {
    StagedApart(name, other);
  }

  // ---------------------------------------------------------------- the job

  /** The first entry with the name. */
  function Find(files: seq<File>, name: string): Option<File>
  {
    if files == [] then None else if files[0].name == Some(name) then Some(files[0]) else Find(files[1..], name)
  }

  function OldFile(job: Job, name: string): Option<File>
  {
    if job.previous.None? then None else Find(job.previous.value, name)
  }

  predicate Named(job: Job, i: nat)
  {
    i < |job.files| && job.files[i].name.Some?
  }

  function NameOf(job: Job, i: nat): string
    requires Named(job, i)
  {
    job.files[i].name.value
  }

  /** An entry the download is asked to install. */
  predicate Selected(job: Job, i: nat)
  {
    Named(job, i) && job.wanted(NameOf(job, i)) && !IsDirectory(job.files[i])
  }

  predicate HashUnchanged(job: Job, i: nat)
    requires Named(job, i)
  {
    var prev := OldFile(job, NameOf(job, i));
    prev.Some? && prev.value.sha == job.files[i].sha && job.files[i].sha.Some?
  }

  /** The hash is unchanged and the file is there. */
  predicate HashSkipped(job: Job, fs: FileSystem, i: nat)
    requires Named(job, i)
  {
    HashUnchanged(job, i) && NameOf(job, i) in fs
  }

  function TaskOf(job: Job, i: nat): FileTask
    requires Named(job, i)
  {
    var f, prev := job.files[i], OldFile(job, NameOf(job, i));
    FileTask(f.name.value, f.size, f.chunks, if prev.Some? then Some(prev.value.chunks) else None)
  }

  ghost predicate NewName(job: Job, name: string)
  {
    exists i: nat :: Named(job, i) && NameOf(job, i) == name
  }

  /** Names are unique and none lies in the staging directory. */
  ghost predicate DistinctNames(job: Job)
  {
    && (forall i: nat, j: nat | i < j && Named(job, i) && Named(job, j) :: NameOf(job, i) != NameOf(job, j))
    && (forall i: nat | Named(job, i) :: !UnderStaging(NameOf(job, i)))
    && (forall name | OldOnly(job, name) :: !UnderStaging(name))
  }

  /** An old entry the deletion loop considers. */
  ghost predicate Obsolete(job: Job, f: File)
  {
    f.name.Some? && !IsDirectory(f) && !NewName(job, f.name.value)
  }

  /** The non-directory names of the previous manifest that the new one lacks. */
  ghost predicate OldOnly(job: Job, name: string)
  {
    job.previous.Some? && exists k :: 0 <= k < |job.previous.value| && Obsolete(job, job.previous.value[k])
                                      && job.previous.value[k].name == Some(name)
  }

  // ---------------------------------------------------------------- moves

  function Start(job: Job, fs: FileSystem): World
  {
    World(fs, job.maxDownloads, seq(|job.files|, _ => None), Scanning(0), 0, [], {})
  }

  function LocalOf(job: Job, w: World, i: nat): Local
    requires Named(job, i) && i < |w.tasks| && w.tasks[i].Some?
  {
    Local(View(w.fs, NameOf(job, i)), w.tasks[i].value)
  }

  ghost predicate CanMove(job: Job, w: World, m: Move)
    requires |w.tasks| == |job.files|
  {
    match m
    case Scan => w.coord.Scanning?
    case AwaitFile =>
      w.coord.Awaiting? &&
      (w.coord.next < |w.tasks| && w.tasks[w.coord.next].Some? ==>
         w.tasks[w.coord.next].value.phase.Installed? || w.tasks[w.coord.next].value.phase.Failed?)
    case Delete(_) => w.coord.Deleting?
    case FileStep(i, a) =>
      && i < |w.tasks| && w.tasks[i].Some? && Named(job, i)
      && |w.tasks[i].value.ch| == |job.files[i].chunks|
      && Enabled(TaskOf(job, i), job.settings, LocalOf(job, w, i), a)
      && (a.Acquire? ==> w.free > 0)
  }

  function ScanEntry(job: Job, w: World, i: nat): World
    requires i < |job.files| == |w.tasks|
  {
    var next := w.(coord := Scanning(i + 1));
    if job.files[i].name.None? then next
    else
      var name := NameOf(job, i);
      var skip := next.(events := w.events + [FileSkipped(name)], completed := w.completed + 1);
      if !job.wanted(name) then skip
      else if IsDirectory(job.files[i]) then skip.(events := skip.events + [Progress(w.completed + 1)])
      else if HashSkipped(job, w.fs, i) then skip
      else next.(events := w.events + [FileStarted(name)], tasks := w.tasks[i := Some(NewTask(TaskOf(job, i)))])
  }

  ghost function Next(job: Job, w: World, m: Move): World
    requires |w.tasks| == |job.files| && CanMove(job, w, m)
  {
    match m
    case Scan =>
      if w.coord.next < |job.files| then ScanEntry(job, w, w.coord.next) else w.(coord := Awaiting(0))
    case AwaitFile =>
      var i := w.coord.next;
      if i >= |w.tasks| then w.(coord := Deleting(0))
      else if w.tasks[i].None? then w.(coord := Awaiting(i + 1))
      else if w.tasks[i].value.phase.Failed? then w.(coord := Errored)
      else w.(coord := Awaiting(i + 1), completed := w.completed + 1, events := w.events + [Progress(w.completed + 1)])
    case Delete(ok) =>
      var k := w.coord.next;
      if job.previous.None? || k >= |job.previous.value| then w.(coord := Succeeded)
      else
        var f, next := job.previous.value[k], w.(coord := Deleting(k + 1));
        if Obsolete(job, f) && f.name.value in w.fs then
          if ok then next.(fs := w.fs - {f.name.value}) else next.(kept := w.kept + {f.name.value})
        else next
    case FileStep(i, a) =>
      var s := LocalOf(job, w, i);
      var s' := Apply(TaskOf(job, i), job.settings, s, a);
      w.(fs := Store(w.fs, NameOf(job, i), s'.disk), tasks := w.tasks[i := Some(s'.task)],
         free := if a.Acquire? then w.free - 1
                 else if ChunkOf(a).Some? then
                     Released(w.free, s.task.ch[ChunkOf(a).value], s'.task.ch[ChunkOf(a).value])
                 else w.free)
  }

  /** The chunk a chunk step is about. */
  function ChunkOf(a: Step): Option<nat>
  {
    match a
    case CheckFinal | CheckStaging | SetLen | Copy | Spawn | Await | Fail => None
    case _ => Some(a.k)
  }

  function Released(free: nat, before: ChunkPhase, after: ChunkPhase): nat
  {
    if HoldsPermit(before) && !HoldsPermit(after) then free + 1 else free
  }

  /** The world after the moves; `None` when one was impossible. */
  ghost function Exec(job: Job, fs: FileSystem, moves: seq<Move>): Option<World>
  {
    if moves == [] then Some(Start(job, fs))
    else
      var n := |moves| - 1;
      match Exec(job, fs, moves[..n])
      case None => None
      case Some(w) => if |w.tasks| == |job.files| &&
          CanMove(job, w, moves[n]) then Some(Next(job, w, moves[n])) else None
  }
}
