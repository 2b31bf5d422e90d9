/** The events of a depot download: one Skipped or Started per named entry, in manifest order, and growing progress. */
module DepotEvents {
  import opened Base
  import opened Chunks
  import opened FileProtocol
  import opened Depot
  import opened DepotInvariant

  /** The names in Skipped and Started events, in order. */
  function Announced(events: seq<Event>): seq<string>
  {
    if events == [] then []
    else
      var rest := Announced(events[..|events| - 1]);
      match events[|events| - 1]
      case FileSkipped(name) => rest + [name]
      case FileStarted(name) => rest + [name]
      case Progress(_) => rest
  }

  /** The names of the named entries, in manifest order. */
  function NamesOf(files: seq<File>): seq<string>
  {
    if files == [] then []
    else
      var last := files[|files| - 1];
      NamesOf(files[..|files| - 1]) + if last.name.Some? then [last.name.value] else []
  }

  function ProgressOf(events: seq<Event>): seq<nat>
  {
    if events == [] then []
    else
      var rest := ProgressOf(events[..|events| - 1]);
      if events[|events| - 1].Progress? then rest + [events[|events| - 1].completed] else rest
  }

  ghost predicate Increasing(s: seq<nat>)
  {
    forall i, j | 0 <= i < j < |s| :: s[i] < s[j]
  }

  /** Spawned tasks from index `from` on. */
  function TasksFrom(tasks: seq<Option<Task>>, from: nat): nat
    requires from <= |tasks|
    decreases |tasks| - from
  {
    if from == |tasks| then 0 else (if tasks[from].Some? then 1 else 0) + TasksFrom(tasks, from + 1)
  }

  lemma {:induction false} TasksFromUpdate(tasks: seq<Option<Task>>, from: nat, i: nat, k: Task)
    requires from <= |tasks| && i < |tasks|
    ensures TasksFrom(tasks[i := Some(k)], from) ==
            TasksFrom(tasks, from) + if from <= i && tasks[i].None? then 1 else 0
    decreases |tasks| - from
  {
    if from < |tasks| {
      TasksFromUpdate(tasks, from + 1, i, k);
    }
  }

  lemma {:induction false} NoTasks(tasks: seq<Option<Task>>, from: nat)
    requires from <= |tasks| && forall i | from <= i < |tasks| :: tasks[i].None?
    ensures TasksFrom(tasks, from) == 0
    decreases |tasks| - from
  {
    if from < |tasks| {
      NoTasks(tasks, from + 1);
    }
  }

  /** Entries scanned so far; all of them once the scan is over. */
  function ScannedFiles(job: Job, w: World): seq<File>
  {
    if w.coord.Scanning? && w.coord.next <= |job.files| then job.files[..w.coord.next] else job.files
  }

  /** Spawned tasks whose end has not been counted yet. */
  function Uncounted(w: World): nat
  {
    match w.coord
    case Scanning(_) => TasksFrom(w.tasks, 0)
    case Awaiting(i) => if i <= |w.tasks| then TasksFrom(w.tasks, i) else 0
    case Deleting(_) => 0
    case Succeeded => 0
    case Errored => 0
  }

  ghost predicate EventInv(job: Job, w: World)
  {
    && |w.tasks| == |job.files|
    && (w.coord.Scanning? ==> w.coord.next <= |w.tasks| && forall i | w.coord.next <= i < |w.tasks| :: w.tasks[i].None?)
    && (w.coord.Awaiting? ==> w.coord.next <= |w.tasks|)
    && Announced(w.events) == NamesOf(ScannedFiles(job, w))
    && (!w.coord.Errored? ==> w.completed + Uncounted(w) == |NamesOf(ScannedFiles(job, w))|)
    && w.completed <= |NamesOf(ScannedFiles(job, w))|
    && Increasing(ProgressOf(w.events))
    && (forall p | p in ProgressOf(w.events) :: p <= w.completed)
  }

  lemma Append(events: seq<Event>, e: Event)
    ensures Announced(events + [e]) == Announced(events) + if e.Progress? then [] else [e.name]
    ensures ProgressOf(events + [e]) == ProgressOf(events) + if e.Progress? then [e.completed] else []
  {
    assert (events + [e])[..|events|] == events;
  }

  lemma IncreasingAppend(s: seq<nat>, n: nat)
    requires Increasing(s) && forall p | p in s :: p < n
    ensures Increasing(s + [n])
  {
    assert forall i | 0 <= i < |s| :: s[i] in s;
  }

  lemma NamesStep(files: seq<File>, i: nat)
    requires i < |files|
    ensures NamesOf(files[..i + 1]) == NamesOf(files[..i]) + if files[i].name.Some? then [files[i].name.value] else []
  {
    assert files[..i + 1][..i] == files[..i];
  }

  lemma EventStart(job: Job, fs: FileSystem)
    ensures EventInv(job, Start(job, fs))
  {
    NoTasks(Start(job, fs).tasks, 0);
  }

  lemma EventScan(job: Job, w: World)
    requires EventInv(job, w) && w.coord.Scanning?
    ensures EventInv(job, Next(job, w, Scan))
  {
    var i := w.coord.next;
    if i < |job.files| {
      NamesStep(job.files, i);
      var w' := ScanEntry(job, w, i);
      if Named(job, i) {
        var name := NameOf(job, i);
        if w'.completed == w.completed + 1 {
          EventSkip(job, w, w', i, name);
        } else {
          EventBegin(job, w, w', i, name);
        }
      }
    } else {
      assert job.files[..i] == job.files;
    }
  }

  lemma EventSkip(job: Job, w: World, w': World, i: nat, name: string)
    requires EventInv(job, w) && w.coord == Scanning(i) && i < |job.files|
    requires NamesOf(job.files[..i + 1]) == NamesOf(job.files[..i]) + [name]
    requires w'.coord == Scanning(i + 1) && w'.tasks == w.tasks && w'.completed == w.completed + 1
    requires w'.events == w.events + [FileSkipped(name)] ||
               w'.events == w.events + [FileSkipped(name)] + [Progress(w.completed + 1)]
    ensures EventInv(job, w')
  {
    Append(w.events, FileSkipped(name));
    Append(w.events + [FileSkipped(name)], Progress(w.completed + 1));
    IncreasingAppend(ProgressOf(w.events), w.completed + 1);
  }

  lemma EventBegin(job: Job, w: World, w': World, i: nat, name: string)
    requires EventInv(job, w) && w.coord == Scanning(i) && i < |job.files|
    requires NamesOf(job.files[..i + 1]) == NamesOf(job.files[..i]) + [name]
    requires w'.coord == Scanning(i + 1) && w'.completed == w.completed && w'.events == w.events + [FileStarted(name)]
    requires exists k :: w'.tasks == w.tasks[i := Some(k)]
    ensures EventInv(job, w')
  {
    Append(w.events, FileStarted(name));
    var k :| w'.tasks == w.tasks[i := Some(k)];
    TasksFromUpdate(w.tasks, 0, i, k);
  }

  lemma EventAwait(job: Job, w: World)
    requires EventInv(job, w) && CanMove(job, w, AwaitFile)
    ensures EventInv(job, Next(job, w, AwaitFile))
  {
    Append(w.events, Progress(w.completed + 1));
    IncreasingAppend(ProgressOf(w.events), w.completed + 1);
  }

  lemma EventOther(job: Job, w: World, m: Move)
    requires EventInv(job, w) && CanMove(job, w, m) && (m.Delete? || m.FileStep?)
    ensures EventInv(job, Next(job, w, m))
  {
    if m.FileStep? {
      var k := Next(job, w, m).tasks[m.i].value;
      if w.coord.Scanning? {
        TasksFromUpdate(w.tasks, 0, m.i, k);
      } else if w.coord.Awaiting? {
        TasksFromUpdate(w.tasks, w.coord.next, m.i, k);
      }
    }
  }

  lemma {:induction false} ExecEvents(job: Job, fs: FileSystem, moves: seq<Move>)
    ensures var r := Exec(job, fs, moves); r.Some? ==> EventInv(job, r.value)
  {
    if moves == [] {
      EventStart(job, fs);
    } else {
      var n := |moves| - 1;
      ExecEvents(job, fs, moves[..n]);
      var r := Exec(job, fs, moves[..n]);
      if r.Some? && CanMove(job, r.value, moves[n]) {
        match moves[n]
        case Scan => EventScan(job, r.value);
        case AwaitFile => EventAwait(job, r.value);
        case _ => EventOther(job, r.value, moves[n]);
      }
    }
  }

  lemma {:induction false} NamesPrefix(files: seq<File>, i: nat)
    requires i <= |files|
    ensures NamesOf(files[..i]) <= NamesOf(files)
    decreases |files| - i
  {
    if i < |files| {
      NamesStep(files, i);
      NamesPrefix(files, i + 1);
    } else {
      assert files[..i] == files;
    }
  }

  /** At any point the Skipped and Started events name an initial run of the named entries, each once and in order, and
      the progress counts strictly increase and never exceed the number of named entries. */
  lemma EventsInOrder(job: Job, fs: FileSystem, moves: seq<Move>, w: World)
    requires Exec(job, fs, moves) == Some(w)
    ensures Announced(w.events) <= NamesOf(job.files)
    ensures Increasing(ProgressOf(w.events)) && forall p | p in ProgressOf(w.events) :: p <= |NamesOf(job.files)|
    ensures !w.coord.Scanning? ==> Announced(w.events) == NamesOf(job.files)
    ensures w.coord.Succeeded? ==> w.completed == |NamesOf(job.files)|
  {
    ExecEvents(job, fs, moves);
    if w.coord.Scanning? {
      NamesPrefix(job.files, w.coord.next);
    }
  }

  // ---------------------------------------------------------------- which event each entry gets

  /** The Skipped and Started events. */
  function Announcements(events: seq<Event>): seq<Event>
  {
    if events == [] then []
    else
      var last := events[|events| - 1];
      Announcements(events[..|events| - 1]) + if last.Progress? then [] else [last]
  }

  /** An entry is started exactly if it is selected and not skipped for an unchanged hash. */
  function EventOf(job: Job, fs: FileSystem, i: nat): Event
    requires Named(job, i)
  {
    if Selected(job, i) && !HashSkipped(job, fs, i) then FileStarted(NameOf(job, i)) else FileSkipped(NameOf(job, i))
  }

  function EventsUpTo(job: Job, fs: FileSystem, n: nat): seq<Event>
    requires n <= |job.files|
  {
    if n == 0 then [] else EventsUpTo(job, fs, n - 1) + if Named(job, n - 1) then [EventOf(job, fs, n - 1)] else []
  }

  function ScannedUpTo(job: Job, w: World): nat
  {
    if w.coord.Scanning? then w.coord.next else |job.files|
  }

  lemma AnnouncementsAppend(events: seq<Event>, e: Event)
    ensures Announcements(events + [e]) == Announcements(events) + if e.Progress? then [] else [e]
  {
    assert (events + [e])[..|events|] == events;
  }

  lemma ExactScan(job: Job, fs: FileSystem, w: World)
    requires WorldInv(job, fs, w) && CanMove(job, w, Scan) && w.coord.next < |job.files|
    ensures var i := w.coord.next;
            Announcements(Next(job, w, Scan).events) ==
            Announcements(w.events) + if Named(job, i) then [EventOf(job, fs, i)] else []
  {
    var i := w.coord.next;
    assert TaskInv(job, fs, w, i);
    if Named(job, i) {
      var name := NameOf(job, i);
      AnnouncementsAppend(w.events, FileSkipped(name));
      AnnouncementsAppend(w.events, FileStarted(name));
      AnnouncementsAppend(w.events + [FileSkipped(name)], Progress(w.completed + 1));
    }
  }

  lemma ExactMove(job: Job, fs: FileSystem, w: World, m: Move)
    requires WorldInv(job, fs, w) && CanMove(job, w, m)
    requires Announcements(w.events) == EventsUpTo(job, fs, ScannedUpTo(job, w))
    ensures var w' := Next(job, w, m);
            ScannedUpTo(job, w') <= |job.files| &&
            Announcements(w'.events) == EventsUpTo(job, fs, ScannedUpTo(job, w'))
  {
    if m.Scan? && w.coord.next < |job.files| {
      ExactScan(job, fs, w);
      ScanAdvances(job, w);
    } else {
      OtherAnnouncements(job, w, m);
    }
  }

  lemma ScanAdvances(job: Job, w: World)
    requires |w.tasks| == |job.files| && w.coord.Scanning? && w.coord.next < |job.files|
    ensures Next(job, w, Scan).coord == Scanning(w.coord.next + 1)
  {
  }

  lemma OtherAnnouncements(job: Job, w: World, m: Move)
    requires |w.tasks| == |job.files| && CanMove(job, w, m) && (m.Scan? ==> w.coord.next >= |job.files|)
    requires ScannedUpTo(job, w) <= |job.files|
    ensures var w' := Next(job, w, m);
            Announcements(w'.events) == Announcements(w.events) && ScannedUpTo(job, w') == ScannedUpTo(job, w)
  {
    if m.AwaitFile? {
      AnnouncementsAppend(w.events, Progress(w.completed + 1));
    }
  }

  lemma {:induction false} ExecExact(job: Job, fs: FileSystem, moves: seq<Move>)
    requires DistinctNames(job)
    ensures var r := Exec(job, fs, moves);
            r.Some? ==>
              ScannedUpTo(job, r.value) <= |job.files| &&
              Announcements(r.value.events) == EventsUpTo(job, fs, ScannedUpTo(job, r.value))
  {
    if moves != [] {
      var n := |moves| - 1;
      ExecExact(job, fs, moves[..n]);
      ExecInv(job, fs, moves[..n]);
      var r := Exec(job, fs, moves[..n]);
      if r.Some? && CanMove(job, r.value, moves[n]) {
        ExactMove(job, fs, r.value, moves[n]);
      }
    }
  }

  /** At any point the announcements are those of the entries scanned so far, in order: Started for an entry that is
      selected and not skipped for an unchanged hash, which is an entry whose task was spawned, and Skipped for every
      other named one. */
  lemma AnnouncedExactly(job: Job, fs: FileSystem, moves: seq<Move>, w: World)
    requires DistinctNames(job) && Exec(job, fs, moves) == Some(w)
    ensures ScannedUpTo(job, w) <= |job.files| == |w.tasks|
    ensures Announcements(w.events) == EventsUpTo(job, fs, ScannedUpTo(job, w))
    ensures forall i: nat | i < ScannedUpTo(job, w) && Named(job, i) ::
              EventOf(job, fs, i).FileStarted? <==> w.tasks[i].Some?
  {
    ExecExact(job, fs, moves);
    ExecInv(job, fs, moves);
    forall i: nat | i < ScannedUpTo(job, w) && Named(job, i)
      ensures EventOf(job, fs, i).FileStarted? <==> w.tasks[i].Some?
    {
      assert TaskInv(job, fs, w, i) && Scanned(job, fs, w, i);
    }
  }

  // ---------------------------------------------------------------- the last progress count

  /** The last progress count emitted is `n`. */
  predicate LastProgress(events: seq<Event>, n: nat)
  {
    ProgressOf(events) != [] && ProgressOf(events)[|ProgressOf(events)| - 1] == n
  }

  /** The last named one of the first `n` entries is a directory the filter lets through. */
  predicate EndsInDirectory(job: Job, n: nat)
    requires n <= |job.files|
  {
    n > 0 &&
    if job.files[n - 1].name.None? then EndsInDirectory(job, n - 1)
    else job.wanted(job.files[n - 1].name.value) && IsDirectory(job.files[n - 1])
  }

  ghost predicate SpawnedBefore(w: World, n: nat)
    requires n <= |w.tasks|
  {
    exists j :: 0 <= j < n && w.tasks[j].Some?
  }

  ghost predicate LastInv(job: Job, w: World)
    requires EventInv(job, w)
  {
    match w.coord
    case Scanning(n) => !SpawnedBefore(w, |w.tasks|) ==>
        (LastProgress(w.events, w.completed) <==> EndsInDirectory(job, n))
    case Awaiting(n) => LastFrom(job, w, n)
    case Deleting(_) => LastFrom(job, w, |w.tasks|)
    case Succeeded => LastFrom(job, w, |w.tasks|)
    case Errored => true
  }

  ghost predicate LastFrom(job: Job, w: World, n: nat)
    requires n <= |w.tasks| == |job.files|
  {
    && (SpawnedBefore(w, n) ==> LastProgress(w.events, w.completed))
    && (!SpawnedBefore(w, |w.tasks|) ==> (LastProgress(w.events, w.completed) <==> EndsInDirectory(job, |job.files|)))
  }

  lemma LastScan(job: Job, w: World)
    requires EventInv(job, w) && w.coord.Scanning? && LastInv(job, w) && EventInv(job, Next(job, w, Scan))
    ensures LastInv(job, Next(job, w, Scan))
  {
    var i, w' := w.coord.next, Next(job, w, Scan);
    if i < |job.files| {
      ScanAdvances(job, w);
      if Named(job, i) {
        SkippedLast(w.events, w.completed, NameOf(job, i));
        if w'.tasks[i].None? {
          assert w'.tasks == w.tasks;
        }
      }
    }
  }

  /** A skip without a progress count leaves the last count behind the number completed, one with it does not. */
  lemma SkippedLast(events: seq<Event>, completed: nat, name: string)
    requires forall p | p in ProgressOf(events) :: p <= completed
    ensures !LastProgress(events + [FileSkipped(name)], completed + 1)
    ensures LastProgress(events + [FileSkipped(name)] + [Progress(completed + 1)], completed + 1)
  {
    Append(events, FileSkipped(name));
    LastAppended(events + [FileSkipped(name)], completed + 1);
    var p := ProgressOf(events);
    assert p != [] ==> p[|p| - 1] in p;
  }

  lemma LastAppended(events: seq<Event>, n: nat)
    ensures LastProgress(events + [Progress(n)], n)
  {
    Append(events, Progress(n));
  }

  lemma LastAwait(job: Job, w: World)
    requires EventInv(job, w) && CanMove(job, w, AwaitFile) && LastInv(job, w) && EventInv(job, Next(job, w, AwaitFile))
    ensures LastInv(job, Next(job, w, AwaitFile))
  {
    Append(w.events, Progress(w.completed + 1));
  }

  lemma LastOther(job: Job, w: World, m: Move)
    requires EventInv(job, w) && CanMove(job, w, m) && (m.Delete? || m.FileStep?) && LastInv(job, w) &&
               EventInv(job, Next(job, w, m))
    ensures LastInv(job, Next(job, w, m))
  {
    var w' := Next(job, w, m);
    assert forall j | 0 <= j < |w.tasks| :: w'.tasks[j].Some? <==> w.tasks[j].Some?;
    assert forall n: nat | n <= |w.tasks| :: SpawnedBefore(w', n) <==> SpawnedBefore(w, n);
  }

  lemma {:induction false} ExecLast(job: Job, fs: FileSystem, moves: seq<Move>)
    ensures var r := Exec(job, fs, moves); r.Some? ==> EventInv(job, r.value) && LastInv(job, r.value)
  {
    ExecEvents(job, fs, moves);
    if moves != [] {
      var n := |moves| - 1;
      ExecEvents(job, fs, moves[..n]);
      ExecLast(job, fs, moves[..n]);
      var r := Exec(job, fs, moves[..n]);
      if r.Some? && CanMove(job, r.value, moves[n]) {
        match moves[n]
        case Scan => LastScan(job, r.value);
        case AwaitFile => LastAwait(job, r.value);
        case _ => LastOther(job, r.value, moves[n]);
      }
    }
  }

  /** When the download returns Ok, the last progress count emitted is the number of named entries if and only if
      some file was spawned, or the last named entry is a directory the filter lets through. Entries skipped last
      emit none. */
  lemma LastProgressIsTotal(job: Job, fs: FileSystem, moves: seq<Move>, w: World)
    requires Exec(job, fs, moves) == Some(w) && w.coord.Succeeded?
    ensures LastProgress(w.events, |NamesOf(job.files)|) <==>
            (exists j :: 0 <= j < |w.tasks| && w.tasks[j].Some?) || EndsInDirectory(job, |job.files|)
  {
    ExecLast(job, fs, moves);
    EventsInOrder(job, fs, moves, w);
  }
}
