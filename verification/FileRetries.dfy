/** How often a chunk task fetches, and what it does with the answers (crates/steam-client/src/download.rs:496-538),
    read off the steps of a run. */
module FileRetries {
  import opened Base
  import opened Chunks
  import opened FileProtocol
  import opened FileTheorems
  import Retry

  /** What the fetches of chunk `k` have answered, in order. */
  function Answers(steps: seq<Step>, k: nat): seq<Option<Bytes>>
  {
    if steps == [] then []
    else Answers(steps[..|steps| - 1], k) + AnswerOf(steps[|steps| - 1], k)
  }

  function AnswerOf(a: Step, k: nat): seq<Option<Bytes>>
  {
    if a.FetchOk? && a.k == k then [Some(a.raw)] else if a == FetchErr(k) then [None] else []
  }

  ghost predicate Aborted(steps: seq<Step>, k: nat)
  {
    exists n :: Abort(k, n) in steps
  }

  predicate NoData(answers: seq<Option<Bytes>>)
  {
    Retry.AllFail(answers, |answers|)
  }

  /** Every answer but the last is an error, and the last is data. */
  predicate EndsInData(answers: seq<Option<Bytes>>)
  {
    answers != [] && answers[|answers| - 1].Some? && Retry.AllFail(answers, |answers| - 1)
  }

  /** The response passes the gate of chunk `c` as `data`. */
  predicate Passes(g: Settings, c: Chunk, raw: Bytes, data: Bytes)
  {
    c.size.Some? && c.checksum.Some? && ProcessChunk(g.codec, raw, c.size.value, c.checksum.value) == Ok(data)
  }

  predicate Rejected(g: Settings, c: Chunk, raw: Bytes)
  {
    c.size.None? || c.checksum.None? || ProcessChunk(g.codec, raw, c.size.value, c.checksum.value).Err?
  }

  /** What chunk `k` has been through: its answers, and whether it was acquired, aborted and decoded. */
  datatype History = History(answers: seq<Option<Bytes>>, acquired: bool, aborted: bool, decoded: bool)

  ghost function HistoryOf(steps: seq<Step>, k: nat): History
  {
    History(Answers(steps, k), Acquire(k) in steps, Aborted(steps, k), Decode(k) in steps)
  }

  /** The history after one more step. */
  function Extended(h: History, a: Step, k: nat): History
  {
    History(h.answers + AnswerOf(a, k), h.acquired || a == Acquire(k), h.aborted || (a.Abort? && a.k == k),
            h.decoded || a == Decode(k))
  }

  lemma HistoryStep(before: seq<Step>, a: Step, k: nat)
    ensures HistoryOf(before + [a], k) == Extended(HistoryOf(before, k), a, k)
  {
    assert (before + [a])[..|before|] == before;
    assert forall b :: b in before + [a] <==> b in before || b == a;
    if a.Abort? && a.k == k {
      assert Abort(k, a.written) in before + [a];
    }
  }

  /** What the history of a chunk says of its phase. */
  predicate Explains(g: Settings, c: Chunk, h: History, p: ChunkPhase)
  {
    var n := |h.answers|;
    && n <= g.maxAttempts && (NoData(h.answers) || EndsInData(h.answers))
    && (!h.acquired ==> n == 0)
    && (h.decoded ==> EndsInData(h.answers))
    && match p
       case Unspawned | Skipped => !h.acquired && !h.aborted
       case Queued => !h.acquired && !h.aborted
       case Fetching(a) =>
         h.acquired && !h.aborted && NoData(h.answers) && a == n && (n < g.maxAttempts || n == 0)
       case Fetched(raw) => !h.aborted && !h.decoded && EndsInData(h.answers) && h.answers[n - 1] == Some(raw)
       case Broken =>
         || h.aborted
         || (NoData(h.answers) && 0 < n == g.maxAttempts)
         || (h.decoded && Rejected(g, c, h.answers[n - 1].value))
       case _ => !h.aborted && EndsInData(h.answers) && Passes(g, c, h.answers[n - 1].value, p.data)
  }

  predicate Concerns(a: Step, k: nat)
  {
    match a
    case CheckFinal | CheckStaging | SetLen | Copy | Spawn | Await | Fail => false
    case _ => a.k == k
  }

  lemma ExplainsOther(t: FileTask, g: Settings, s: Local, h: History, a: Step, k: nat)
    requires |s.task.ch| == |t.chunks| && k < |t.chunks| && Enabled(t, g, s, a) && !Concerns(a, k)
    requires Explains(g, t.chunks[k], h, s.task.ch[k])
    requires a.Spawn? && s.task.phase.next == k ==> s.task.ch[k].Unspawned?
    ensures Explains(g, t.chunks[k], Extended(h, a, k), Apply(t, g, s, a).task.ch[k])
  {
    assert h.answers + [] == h.answers;
  }

  lemma ExplainsFetch(t: FileTask, g: Settings, s: Local, h: History, a: Step, k: nat)
    requires |s.task.ch| == |t.chunks| && k < |t.chunks| && Enabled(t, g, s, a)
    requires (a.FetchOk? && a.k == k) || a == FetchErr(k)
    requires Explains(g, t.chunks[k], h, s.task.ch[k])
    ensures Explains(g, t.chunks[k], Extended(h, a, k), Apply(t, g, s, a).task.ch[k])
  {
    var more := h.answers + AnswerOf(a, k);
    assert forall i | 0 <= i < |h.answers| :: more[i] == h.answers[i];
  }

  lemma ExplainsOwn(t: FileTask, g: Settings, s: Local, h: History, a: Step, k: nat)
    requires |s.task.ch| == |t.chunks| && k < |t.chunks| && Enabled(t, g, s, a)
    requires Concerns(a, k) && !a.FetchOk? && !a.FetchErr?
    requires Explains(g, t.chunks[k], h, s.task.ch[k])
    ensures Explains(g, t.chunks[k], Extended(h, a, k), Apply(t, g, s, a).task.ch[k])
  {
    assert h.answers + [] == h.answers;
  }

  lemma {:induction false} RunAnswers(t: FileTask, g: Settings, d: Disk, steps: seq<Step>, k: nat)
    requires k < |t.chunks|
    ensures var r := Run(t, g, d, steps);
            r.Some? ==>
              |r.value.task.ch| == |t.chunks| && Explains(g, t.chunks[k], HistoryOf(steps, k), r.value.task.ch[k])
  {
    RunInv(t, g, d, steps);
    if steps != [] {
      var n := |steps| - 1;
      RunAnswers(t, g, d, steps[..n], k);
      RunInv(t, g, d, steps[..n]);
      var r := Run(t, g, d, steps[..n]);
      if r.Some? && Enabled(t, g, r.value, steps[n]) {
        var h, a := HistoryOf(steps[..n], k), steps[n];
        HistoryStep(steps[..n], a, k);
        assert steps == steps[..n] + [a];
        if !Concerns(a, k) {
          ExplainsOther(t, g, r.value, h, a, k);
        } else if a.FetchOk? || a.FetchErr? {
          ExplainsFetch(t, g, r.value, h, a, k);
        } else {
          ExplainsOwn(t, g, r.value, h, a, k);
        }
      }
    }
  }

  /** A chunk task with a permit goes on fetching until data comes or `maxAttempts` fetches have failed, unless it is
      stopped by another error; then, and only then or when the data is rejected or it is stopped, it is broken. */
  lemma RetriesExactly(t: FileTask, g: Settings, d: Disk, steps: seq<Step>, s: Local, k: nat)
    requires Run(t, g, d, steps) == Some(s) && k < |t.chunks|
    ensures |s.task.ch| == |t.chunks| && |Answers(steps, k)| <= g.maxAttempts
    ensures NoData(Answers(steps, k)) || EndsInData(Answers(steps, k))
    ensures var answers, n := Answers(steps, k), |Answers(steps, k)|;
            s.task.ch[k].Fetching? <==>
            Acquire(k) in steps && !Aborted(steps, k) && NoData(answers) && (n < g.maxAttempts || n == 0)
    ensures s.task.ch[k].Fetching? && g.maxAttempts > 0 ==>
              Enabled(t, g, s, FetchErr(k)) && forall raw :: Enabled(t, g, s, FetchOk(k, raw))
    ensures var answers := Answers(steps, k);
            s.task.ch[k].Broken? <==>
            || Aborted(steps, k)
            || (NoData(answers) && 0 < |answers| == g.maxAttempts)
            || (Decode(k) in steps && EndsInData(answers) &&
                Rejected(g, t.chunks[k], answers[|answers| - 1].value))
  {
    RunAnswers(t, g, d, steps, k);
  }

  /** The data a chunk task holds, writes or has written is what its last fetch answered, decrypted, decompressed and
      checked. */
  lemma DataIsFetched(t: FileTask, g: Settings, d: Disk, steps: seq<Step>, s: Local, k: nat)
    requires Run(t, g, d, steps) == Some(s) && k < |t.chunks| && |s.task.ch| == |t.chunks| && HasData(s.task.ch[k])
    ensures EndsInData(Answers(steps, k))
    ensures Passes(g, t.chunks[k], Answers(steps, k)[|Answers(steps, k)| - 1].value, s.task.ch[k].data)
  {
    RunAnswers(t, g, d, steps, k);
  }

  /** The machine's retries are those of the loop: whatever further answers would have come, the loop on them ends as
      the chunk task did. */
  lemma MachineRetries(t: FileTask, g: Settings, d: Disk, steps: seq<Step>, s: Local, k: nat,
                       attempts: seq<Option<Bytes>>)
    requires Run(t, g, d, steps) == Some(s) && k < |t.chunks| && |s.task.ch| == |t.chunks|
    requires 0 < g.maxAttempts <= 33 && g.maxAttempts <= |attempts| && Answers(steps, k) <= attempts
    ensures s.task.ch[k].Fetched? ==>
              Retry.Ends(g.maxAttempts, attempts, Retry.Fetched(s.task.ch[k].raw), |Answers(steps, k)|)
    ensures s.task.ch[k].Broken? && !Aborted(steps, k) && Decode(k) !in steps ==>
              Retry.Ends(g.maxAttempts, attempts, Retry.Failed, g.maxAttempts)
  {
    RunAnswers(t, g, d, steps, k);
    var answers := Answers(steps, k);
    assert forall i | 0 <= i < |answers| :: attempts[i] == answers[i];
  }
}
