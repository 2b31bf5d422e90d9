/** Several service calls and plain receivers sharing one client (crates/steam/src/client/mod.rs:335-380, 397-513), as
    a step machine: the queue lock is released before the transport is read, so any interleaving of the steps below can
    happen. */
module Callers {
  import opened Base
  import opened Messages
  import opened Pump
  import Multi
  import SessionCipher

  /** A caller with a job waits for its response; one without is a `recv_msg`, which returns whatever it is left
      with. */
  datatype Caller =
    | Idle
    | Polling(job: Option<nat>)               // about to look at the queue
    | Reading(job: Option<nat>)               // found it empty, about to read the transport
    | Holding(job: Option<nat>, raw: Bytes)   // has a packet in hand
    | Returned(job: Option<nat>, response: Incoming)
    | Errored(job: Option<nat>)

  datatype Shared = Shared(packets: seq<Bytes>, queue: seq<Incoming>, pending: set<nat>,
                           delivered: seq<(nat, Incoming)>,
                           events: seq<Incoming>, nextJobId: nat, started: nat, callers: seq<Caller>)

  datatype Step =
    | Begin(c: nat) | Listen(c: nat)
    | Pop(c: nat) | Miss(c: nat) | Read(c: nat) | Fail(c: nat) | Process(c: nat)

  datatype Session = Session(env: Env, cipher: Option<SessionCipher.Cipher>)

  function Initial(callers: nat, packets: seq<Bytes>, pending: set<nat>): Shared
  {
    Shared(packets, [], pending, [], [], 1, 0, seq(callers, _ => Idle))
  }

  predicate Enabled(s: Shared, a: Step)
  {
    && a.c < |s.callers|
    && match a
       case Begin(c) => s.callers[c].Idle?
       case Listen(c) => s.callers[c].Idle?
       case Pop(c) => s.callers[c].Polling? && s.queue != []
       case Miss(c) => s.callers[c].Polling? && s.queue == []
       case Read(c) => s.callers[c].Reading? && s.packets != []
       case Fail(c) => s.callers[c].Polling? || s.callers[c].Reading?
       case Process(c) => s.callers[c].Holding?
  }

  /** What ends the wait. */
  predicate Wanted(m: Incoming, job: Option<nat>)
  {
    job.None? || IsResponseTo(m, job.value)
  }

  /** What caller `c` does with one message. */
  function Dispose(s: Shared, c: nat, job: Option<nat>, m: Incoming): Shared
    requires c < |s.callers|
  {
    var again := s.(callers := s.callers[c := Polling(job)]);
    match RoutedTo(m, s.pending, job)
    case Some(j) => again.(delivered := s.delivered + [(j, m)], pending := s.pending - {j})
    case None =>
      if Wanted(m, job) then s.(callers := s.callers[c := Returned(job, m)])
      else again.(events := s.events + [m])
  }

  function Apply(u: Session, s: Shared, a: Step): Shared
    requires Enabled(s, a)
  {
    match a
    case Begin(c) =>
      s.(callers := s.callers[c := Polling(Some(s.nextJobId))],
         nextJobId := (s.nextJobId + 1) % U64, started := s.started + 1)
    case Listen(c) => s.(callers := s.callers[c := Polling(None)])
    case Pop(c) => Dispose(s.(queue := s.queue[1..]), c, s.callers[c].job, s.queue[0])
    case Miss(c) => s.(callers := s.callers[c := Reading(s.callers[c].job)])
    case Read(c) => s.(packets := s.packets[1..], callers := s.callers[c := Holding(s.callers[c].job, s.packets[0])])
    case Fail(c) => s.(callers := s.callers[c := Errored(s.callers[c].job)])
    case Process(c) =>
      var job := s.callers[c].job;
      match Opened(u.env, u.cipher, s.callers[c].raw)
      case Err(_) => s.(callers := s.callers[c := Errored(job)])
      case Ok(m) =>
        if m.emsg != MULTI then Dispose(s, c, job, m)
        else
          match Multi.UnpackSpec(u.env.multi, m.body)
          case Err(_) => s.(callers := s.callers[c := Errored(job)])
          case Ok(parts) =>
            s.(queue := s.queue + ParsedParts(u.env.proto, parts), callers := s.callers[c := Polling(job)])
  }

  function Run(u: Session, start: Shared, steps: seq<Step>): Option<Shared>
  {
    if steps == [] then Some(start)
    else
      match Run(u, start, steps[..|steps| - 1])
      case None => None
      case Some(s) => if Enabled(s, steps[|steps| - 1]) then Some(Apply(u, s, steps[|steps| - 1])) else None
  }

  // ---------------------------------------------------------------- job ids

  /** Job ids issued so far are 1, 2, ..., one per call that began. */
  ghost predicate JobsInv(s: Shared)
  {
    && s.nextJobId == s.started + 1
    && (forall c | 0 <= c < |s.callers| && Calls(s.callers[c]) :: 1 <= s.callers[c].job.value < s.nextJobId)
    && (forall c, e | 0 <= c < e < |s.callers| && Calls(s.callers[c]) && Calls(s.callers[e]) ::
        s.callers[c].job != s.callers[e].job)
    && (forall c | 0 <= c < |s.callers| && s.callers[c].Returned? :: Wanted(s.callers[c].response, s.callers[c].job))
  }

  /** A service call that has begun. */
  predicate Calls(c: Caller)
  {
    !c.Idle? && c.job.Some?
  }

  lemma {:induction false} JobsKept(u: Session, start: Shared, steps: seq<Step>)
    requires JobsInv(start)
    ensures var r := Run(u, start, steps); r.Some? && r.value.started + 1 < U64 ==> JobsInv(r.value)
  {
    if steps != [] {
      var n := |steps| - 1;
      JobsKept(u, start, steps[..n]);
      var r := Run(u, start, steps[..n]);
      if r.Some? && Enabled(r.value, steps[n]) {
        assert Apply(u, r.value, steps[n]).started >= r.value.started;
        if r.value.started + 1 < U64 && Apply(u, r.value, steps[n]).started + 1 < U64 {
          JobsStep(u, r.value, steps[n]);
        }
      }
    }
  }

  lemma JobsStep(u: Session, s: Shared, a: Step)
    requires JobsInv(s) && Enabled(s, a) && Apply(u, s, a).started + 1 < U64
    ensures JobsInv(Apply(u, s, a))
  {
    if !a.Begin? && !a.Listen? {
      OneCaller(u, s, a);
      OneJobKept(s, Apply(u, s, a), a.c);
    }
  }

  /** A step other than the first of a call changes one caller, and not its job. */
  lemma OneCaller(u: Session, s: Shared, a: Step)
    requires Enabled(s, a) && !a.Begin? && !a.Listen?
    ensures var s' := Apply(u, s, a);
            && s'.nextJobId == s.nextJobId && s'.started == s.started && |s'.callers| == |s.callers|
            && s'.callers == s.callers[a.c := s'.callers[a.c]]
            && !s.callers[a.c].Idle? && !s'.callers[a.c].Idle? && s'.callers[a.c].job == s.callers[a.c].job
            && (s'.callers[a.c].Returned? ==> Wanted(s'.callers[a.c].response, s'.callers[a.c].job))
  {
  }

  lemma OneJobKept(s: Shared, s': Shared, c: nat)
    requires JobsInv(s) && s'.nextJobId == s.nextJobId && s'.started == s.started && c < |s'.callers| == |s.callers|
    requires s'.callers == s.callers[c := s'.callers[c]]
    requires !s.callers[c].Idle? && !s'.callers[c].Idle? && s'.callers[c].job == s.callers[c].job
    requires s'.callers[c].Returned? ==> Wanted(s'.callers[c].response, s'.callers[c].job)
    ensures JobsInv(s')
  {
  }

  /** However the callers interleave, as long as the 64-bit counter has not wrapped: no two calls share a job id, and a
      call that returned holds a response to its own id, hence to nobody else's. */
  lemma CallsCorrelated(u: Session, callers: nat, packets: seq<Bytes>, pending: set<nat>, steps: seq<Step>, s: Shared)
    requires Run(u, Initial(callers, packets, pending), steps) == Some(s) && s.started + 1 < U64
    ensures forall c, e | 0 <= c < |s.callers| && 0 <= e < |s.callers| && c != e && Calls(s.callers[c]) &&
              Calls(s.callers[e]) ::
              s.callers[c].job != s.callers[e].job
    ensures forall c, e | 0 <= c < |s.callers| && 0 <= e < |s.callers| && Calls(s.callers[c]) &&
              s.callers[c].Returned? && Calls(s.callers[e]) ::
              IsResponseTo(s.callers[c].response, s.callers[e].job.value) <==> c == e
  {
    JobsKept(u, Initial(callers, packets, pending), steps);
  }

  // ---------------------------------------------------------------- conservation

  function OfPacket(u: Session, raw: Bytes): multiset<Incoming>
  {
    var r := Pump.Contents(u.env, u.cipher, raw);
    if r.Ok? then multiset(r.value) else multiset{}
  }

  function OfPackets(u: Session, packets: seq<Bytes>): multiset<Incoming>
  {
    if packets == [] then multiset{} else OfPacket(u, packets[0]) + OfPackets(u, packets[1..])
  }

  /** What a caller holds: the contents of its packet, or its response. */
  function OfCaller(u: Session, c: Caller): multiset<Incoming>
  {
    match c
    case Holding(_, raw) => OfPacket(u, raw)
    case Returned(_, m) => multiset{m}
    case _ => multiset{}
  }

  function OfCallers(u: Session, callers: seq<Caller>): multiset<Incoming>
  {
    if callers == [] then multiset{} else OfCallers(u, callers[..|callers| - 1]) + OfCaller(u, callers[|callers| - 1])
  }

  /** Every message, wherever it is. */
  function Everything(u: Session, s: Shared): multiset<Incoming>
  {
    OfPackets(u, s.packets) + multiset(s.queue) + OfCallers(u, s.callers) + multiset(Second(s.delivered)) +
        multiset(s.events)
  }

  lemma {:induction false} OfCallersUpdate(u: Session, callers: seq<Caller>, c: nat, next: Caller, x: Incoming)
    requires c < |callers|
    ensures OfCallers(u, callers[c := next])[x] + OfCaller(u, callers[c])[x] ==
              OfCallers(u, callers)[x] + OfCaller(u, next)[x]
  {
    var n := |callers| - 1;
    LastCaller(u, callers, x);
    LastCaller(u, callers[c := next], x);
    UpdateFront(callers, c, next);
    if c < n {
      OfCallersUpdate(u, callers[..n], c, next, x);
    }
  }

  lemma UpdateFront(callers: seq<Caller>, c: nat, next: Caller)
    requires c < |callers|
    ensures var n := |callers| - 1;
            callers[c := next][..n] == if c == n then callers[..n] else callers[..n][c := next]
  {
  }

  lemma LastCaller(u: Session, callers: seq<Caller>, x: Incoming)
    requires callers != []
    ensures OfCallers(u, callers)[x] ==
              OfCallers(u, callers[..|callers| - 1])[x] + OfCaller(u, callers[|callers| - 1])[x]
  {
  }

  lemma AppendCount(s: seq<Incoming>, m: Incoming, x: Incoming)
    ensures multiset(s + [m])[x] == multiset(s)[x] + multiset{m}[x]
  {
  }

  lemma CountOf(u: Session, s: Shared, x: Incoming)
    ensures Everything(u, s)[x] ==
            OfPackets(u, s.packets)[x] + multiset(s.queue)[x] + OfCallers(u, s.callers)[x]
            + multiset(Second(s.delivered))[x] + multiset(s.events)[x]
  {
  }

  lemma DisposeConserves(u: Session, s: Shared, c: nat, job: Option<nat>, m: Incoming, x: Incoming)
    requires c < |s.callers|
    ensures Everything(u, Dispose(s, c, job, m))[x] + OfCaller(u, s.callers[c])[x] ==
              Everything(u, s)[x] + multiset{m}[x]
  {
    var s' := Dispose(s, c, job, m);
    DisposeParts(u, s, c, job, m, x);
    CountOf(u, s, x);
    CountOf(u, s', x);
    OfCallersUpdate(u, s.callers, c, s'.callers[c], x);
  }

  /** The message ends up in exactly one place: with the caller, with a waiter, or in the event channel. */
  lemma DisposeParts(u: Session, s: Shared, c: nat, job: Option<nat>, m: Incoming, x: Incoming)
    requires c < |s.callers|
    ensures var s' := Dispose(s, c, job, m);
            && s'.packets == s.packets && s'.queue == s.queue && |s'.callers| == |s.callers|
            && s'.callers == s.callers[c := s'.callers[c]]
            && OfCaller(u, s'.callers[c])[x] + multiset(Second(s'.delivered))[x] + multiset(s'.events)[x]
               == multiset(Second(s.delivered))[x] + multiset(s.events)[x] + multiset{m}[x]
  {
    AppendCount(s.events, m, x);
    var to := RoutedTo(m, s.pending, job);
    if to.Some? {
      SecondAppend(s.delivered, (to.value, m));
      AppendCount(Second(s.delivered), m, x);
    }
  }

  lemma PopConserves(u: Session, s: Shared, c: nat, x: Incoming)
    requires Enabled(s, Pop(c))
    ensures Everything(u, Apply(u, s, Pop(c)))[x] == Everything(u, s)[x]
  {
    assert s.queue == [s.queue[0]] + s.queue[1..];
    DisposeConserves(u, s.(queue := s.queue[1..]), c, s.callers[c].job, s.queue[0], x);
  }

  lemma BundleConserves(u: Session, s: Shared, c: nat, parts: seq<Incoming>, x: Incoming)
    requires c < |s.callers| && !s.callers[c].Idle? && OfCaller(u, s.callers[c]) == multiset(parts)
    ensures Everything(u, s.(queue := s.queue + parts, callers := s.callers[c := Polling(s.callers[c].job)]))[x]
            == Everything(u, s)[x]
  {
    OfCallersUpdate(u, s.callers, c, Polling(s.callers[c].job), x);
    assert multiset(s.queue + parts)[x] == multiset(s.queue)[x] + multiset(parts)[x];
  }

  lemma SingleConserves(u: Session, s: Shared, c: nat, m: Incoming, x: Incoming)
    requires c < |s.callers| && !s.callers[c].Idle? && OfCaller(u, s.callers[c]) == multiset{m}
    ensures Everything(u, Dispose(s, c, s.callers[c].job, m))[x] == Everything(u, s)[x]
  {
    DisposeConserves(u, s, c, s.callers[c].job, m, x);
  }

  lemma BadPacketConserves(u: Session, s: Shared, c: nat, x: Incoming)
    requires c < |s.callers| && !s.callers[c].Idle? && OfCaller(u, s.callers[c]) == multiset{}
    ensures Everything(u, s.(callers := s.callers[c := Errored(s.callers[c].job)]))[x] == Everything(u, s)[x]
  {
    OfCallersUpdate(u, s.callers, c, Errored(s.callers[c].job), x);
  }

  /** What processing a packet does, and what the packet held. */
  lemma ProcessCases(u: Session, s: Shared, c: nat)
    requires Enabled(s, Process(c))
    ensures var s', job, r :=
              Apply(u, s, Process(c)), s.callers[c].job, Pump.Contents(u.env, u.cipher, s.callers[c].raw);
            || (r.Err? && s' == s.(callers := s.callers[c := Errored(job)]))
            || (r.Ok? && |r.value| == 1 && s' == Dispose(s, c, job, r.value[0]))
            || (r.Ok? && s' == s.(queue := s.queue + r.value, callers := s.callers[c := Polling(job)]))
  {
  }

  lemma ProcessConserves(u: Session, s: Shared, c: nat, x: Incoming)
    requires Enabled(s, Process(c))
    ensures Everything(u, Apply(u, s, Process(c)))[x] == Everything(u, s)[x]
  {
    ProcessCases(u, s, c);
    var s', job, r := Apply(u, s, Process(c)), s.callers[c].job, Pump.Contents(u.env, u.cipher, s.callers[c].raw);
    if r.Err? {
      BadPacketConserves(u, s, c, x);
    } else if s' == s.(queue := s.queue + r.value, callers := s.callers[c := Polling(job)]) {
      BundleConserves(u, s, c, r.value, x);
    } else {
      assert r.value == [r.value[0]] && multiset(r.value) == multiset{r.value[0]};
      SingleConserves(u, s, c, r.value[0], x);
    }
  }

  lemma StepConserves(u: Session, s: Shared, a: Step, x: Incoming)
    requires Enabled(s, a)
    ensures Everything(u, Apply(u, s, a))[x] == Everything(u, s)[x]
  {
    match a
    case Pop(c) => PopConserves(u, s, c, x);
    case Process(c) => ProcessConserves(u, s, c, x);
    case Read(c) => ReadConserves(u, s, c, x);
    case _ => OfCallersUpdate(u, s.callers, a.c, Apply(u, s, a).callers[a.c], x);
  }

  lemma ReadConserves(u: Session, s: Shared, c: nat, x: Incoming)
    requires Enabled(s, Read(c))
    ensures Everything(u, Apply(u, s, Read(c)))[x] == Everything(u, s)[x]
  {
    OfCallersUpdate(u, s.callers, c, Holding(s.callers[c].job, s.packets[0]), x);
    assert OfPackets(u, s.packets)[x] == OfPacket(u, s.packets[0])[x] + OfPackets(u, s.packets[1..])[x];
  }

  /** However the callers interleave, no message is lost or duplicated: each is still in a packet, in the queue, in a
      caller's hands, with a waiter, or in the event channel. */
  lemma {:induction false} CallsConserve(u: Session, start: Shared, steps: seq<Step>)
    ensures var r := Run(u, start, steps); r.Some? ==> Everything(u, r.value) == Everything(u, start)
  {
    if steps != [] {
      var n := |steps| - 1;
      CallsConserve(u, start, steps[..n]);
      var r := Run(u, start, steps[..n]);
      if r.Some? && Enabled(r.value, steps[n]) {
        forall x
          ensures Everything(u, Apply(u, r.value, steps[n]))[x] == Everything(u, r.value)[x]
        {
          StepConserves(u, r.value, steps[n], x);
        }
        SameCounts(Everything(u, Apply(u, r.value, steps[n])), Everything(u, r.value));
      }
    }
  }

  lemma SameCounts(a: multiset<Incoming>, b: multiset<Incoming>)
    requires forall x :: a[x] == b[x]
    ensures a == b
  {
  }

  // ---------------------------------------------------------------- who takes a response

  /** The message a step takes from the queue or from a packet. */
  function Taken(u: Session, s: Shared, a: Step): Option<Incoming>
    requires Enabled(s, a)
  {
    match a
    case Pop(_) => Some(s.queue[0])
    case Process(c) =>
      (match Opened(u.env, u.cipher, s.callers[c].raw)
       case Err(_) => None
       case Ok(m) => if m.emsg == MULTI then None else Some(m))
    case _ => None
  }

  /** Nothing left to take. */
  predicate Drained(s: Shared)
  {
    s.packets == [] && s.queue == [] && forall c | 0 <= c < |s.callers| :: !s.callers[c].Holding?
  }

  lemma {:induction false} DrainedStays(u: Session, start: Shared, steps: seq<Step>, more: seq<Step>, e: nat)
    requires Run(u, start, steps).Some? && Drained(Run(u, start, steps).value)
    requires e < |Run(u, start, steps).value.callers| && !Run(u, start, steps).value.callers[e].Returned?
    ensures var r := Run(u, start, steps + more);
            r.Some? ==> Drained(r.value) && e < |r.value.callers| && !r.value.callers[e].Returned?
  {
    if more == [] {
      assert steps + more == steps;
    } else {
      var n := |more| - 1;
      DrainedStays(u, start, steps, more[..n], e);
      LastOf(steps, more);
      var r := Run(u, start, steps + more[..n]);
      if r.Some? && Enabled(r.value, more[n]) {
        DrainedStep(u, r.value, more[n], e);
      }
    }
  }

  lemma LastOf(steps: seq<Step>, more: seq<Step>)
    requires more != []
    ensures var all, n := steps + more, |more| - 1;
            all != [] && all[..|all| - 1] == steps + more[..n] && all[|all| - 1] == more[n]
  {
  }

  lemma DrainedStep(u: Session, s: Shared, a: Step, e: nat)
    requires Drained(s) && Enabled(s, a) && e < |s.callers| && !s.callers[e].Returned?
    ensures var s' := Apply(u, s, a); Drained(s') && e < |s'.callers| && !s'.callers[e].Returned?
  {
  }

  lemma RunMore(u: Session, start: Shared, steps: seq<Step>, a: Step)
    requires Run(u, start, steps).Some? && Enabled(Run(u, start, steps).value, a)
    ensures Run(u, start, steps + [a]) == Some(Apply(u, Run(u, start, steps).value, a))
  {
    assert (steps + [a])[..|steps|] == steps;
  }

  /** A response can be lost to its call: in this run another service call, or a `recv_msg`, reads the packet that
      answers the second caller. The call puts it into the event channel, `recv_msg` returns it to the application, and
      however the run goes on, the second caller does not return. */
  lemma StolenResponse(u: Session, raw: Bytes, m: Incoming, pending: set<nat>, listener: bool, more: seq<Step>)
    returns (steps: seq<Step>)
    requires Opened(u.env, u.cipher, raw) == Ok(m)
    requires var job := if listener then 1 else 2; IsResponseTo(m, job) && job !in pending
    ensures var r := Run(u, Initial(2, [raw], pending), steps);
            && r.Some? && |r.value.callers| == 2 && r.value.callers[1] == Polling(Some(if listener then 1 else 2))
            && if listener then r.value.callers[0] == Returned(None, m) &&
                r.value.events == [] else r.value.events == [m]
    ensures var r := Run(u, Initial(2, [raw], pending), steps + more);
            r.Some? ==> |r.value.callers| == 2 && !r.value.callers[1].Returned?
  {
    var start := Initial(2, [raw], pending);
    steps := [];
    var first := if listener then Listen(0) else Begin(0);
    RunMore(u, start, steps, first);
    steps := steps + [first];
    RunMore(u, start, steps, Begin(1));
    steps := steps + [Begin(1)];
    RunMore(u, start, steps, Miss(0));
    steps := steps + [Miss(0)];
    RunMore(u, start, steps, Read(0));
    steps := steps + [Read(0)];
    RunMore(u, start, steps, Process(0));
    steps := steps + [Process(0)];
    DrainedStays(u, start, steps, more, 1);
    CallersKept(u, start, steps + more);
  }

  lemma {:induction false} CallersKept(u: Session, start: Shared, steps: seq<Step>)
    ensures var r := Run(u, start, steps); r.Some? ==> |r.value.callers| == |start.callers|
  {
    if steps != [] {
      var n := |steps| - 1;
      CallersKept(u, start, steps[..n]);
      var r := Run(u, start, steps[..n]);
      if r.Some? && Enabled(r.value, steps[n]) {
        SameCallers(u, r.value, steps[n]);
      }
    }
  }

  lemma SameCallers(u: Session, s: Shared, a: Step)
    requires Enabled(s, a)
    ensures |Apply(u, s, a).callers| == |s.callers|
  {
  }
}
