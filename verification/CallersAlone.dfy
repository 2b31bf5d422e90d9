/** A service call that no other caller disturbs does, step by step, what the single reader's wait does
    (crates/steam/src/client/mod.rs:335-376, 397-513). */
module CallersAlone {
  import opened Base
  import opened Messages
  import opened Pump
  import opened Callers
  import Multi

  function MailOf(s: Shared): Mail
  {
    Mail(s.pending, s.delivered, s.events)
  }

  /** The packets caller `c` will open: the one in its hands first. */
  function PacketsOf(s: Shared, c: nat): seq<Bytes>
    requires c < |s.callers|
  {
    if s.callers[c].Holding? then [s.callers[c].raw] + s.packets else s.packets
  }

  /** What caller `c` meets if it is left alone. */
  function Ahead(u: Session, s: Shared, c: nat): Stream
    requires c < |s.callers|
  {
    View(u.env, u.cipher, s.queue, PacketsOf(s, c))
  }

  /** A response to its own job returns the call; any other message goes to its waiter or to the event channel. */
  lemma DisposeForwards(s: Shared, c: nat, job: nat, m: Incoming)
    requires c < |s.callers|
    ensures var s' := Dispose(s, c, Some(job), m);
            if IsResponseTo(m, job) then s' == s.(callers := s.callers[c := Returned(Some(job), m)])
            else
              && Forwarded([m], job, MailOf(s), MailOf(s')) && s'.callers == s.callers[c := Polling(Some(job))]
              && s'.queue == s.queue && s'.packets == s.packets
  {
    RouteOne([], m, s.pending, Some(job));
    assert [] + [m] == [m];
  }

  /** How far the call has come: what it has dealt with, and what lies ahead. */
  ghost predicate Progress(u: Session, start: Shared, s: Shared, c: nat, job: nat, before: seq<Incoming>)
    requires c < |start.callers| == |s.callers|
  {
    && Forwarded(before, job, MailOf(start), MailOf(s))
    && match s.callers[c]
       case Polling(j) => j == Some(job) && Ahead(u, start, c) == After(before, Ahead(u, s, c))
       case Reading(j) => j == Some(job) && s.queue == [] && Ahead(u, start, c) == After(before, Ahead(u, s, c))
       case Holding(j, _) => j == Some(job) && s.queue == [] && Ahead(u, start, c) == After(before, Ahead(u, s, c))
       case Returned(j, x) =>
         && j == Some(job) && IsResponseTo(x, job)
         && Ahead(u, start, c) == After(before, After([x], Ahead(u, s, c)))
       case Errored(_) =>
         s.queue == [] && exists e :: Ahead(u, start, c) == After(before, Stream([], e, s.packets))
       case Idle => false
  }

  lemma NothingForwarded(job: nat, mail: Mail)
    ensures Forwarded([], job, mail, mail)
  {
    assert mail.delivered + [] == mail.delivered && mail.events + [] == mail.events;
  }

  lemma ProgressStart(u: Session, s: Shared, c: nat, job: nat)
    requires c < |s.callers| && s.callers[c] == Polling(Some(job))
    ensures Progress(u, s, s, c, job, [])
  {
    NothingForwarded(job, MailOf(s));
    AfterNothing(Ahead(u, s, c));
  }

  /** One message taken off the front of what lies ahead. */
  lemma OneTaken(u: Session, start: Shared, s: Shared, s1: Shared, c: nat, job: nat, before: seq<Incoming>, m: Incoming)
    returns (more: seq<Incoming>)
    requires c < |start.callers| == |s.callers| == |s1.callers|
    requires Forwarded(before, job, MailOf(start), MailOf(s)) && MailOf(s1) == MailOf(s)
    requires Ahead(u, start, c) == After(before, After([m], View(u.env, u.cipher, s1.queue, s1.packets)))
    ensures Progress(u, start, Dispose(s1, c, Some(job), m), c, job, more)
    ensures |Dispose(s1, c, Some(job), m).callers| == |start.callers|
  {
    var rest := View(u.env, u.cipher, s1.queue, s1.packets);
    DisposeForwards(s1, c, job, m);
    if IsResponseTo(m, job) {
      more := before;
    } else {
      more := before + [m];
      AfterAfter(before, [m], rest);
      ForwardedAppend(before, [m], job, MailOf(start), MailOf(s), MailOf(Dispose(s1, c, Some(job), m)));
    }
  }

  lemma PopProgress(u: Session, start: Shared, s: Shared, c: nat, job: nat, before: seq<Incoming>)
    returns (more: seq<Incoming>)
    requires c < |start.callers| == |s.callers| && Progress(u, start, s, c, job, before) && Enabled(s, Pop(c))
    ensures |Apply(u, s, Pop(c)).callers| == |start.callers|
    ensures Progress(u, start, Apply(u, s, Pop(c)), c, job, more)
  {
    FirstOf(s.queue, StreamOf(u.env, u.cipher, s.packets));
    more := OneTaken(u, start, s, s.(queue := s.queue[1..]), c, job, before, s.queue[0]);
  }

  /** Opening the packet in hand. */
  lemma HandStep(u: Session, raw: Bytes, packets: seq<Bytes>)
    ensures var all, r := StreamOf(u.env, u.cipher, [raw] + packets), Opened(u.env, u.cipher, raw);
            if r.Err? then all == Stream([], r.error, packets)
            else if r.value.emsg != MULTI then all == After([r.value], StreamOf(u.env, u.cipher, packets))
            else
              var parts := Multi.UnpackSpec(u.env.multi, r.value.body);
              all == if parts.Err? then Stream([], Bundle(parts.error), packets)
                     else After(ParsedParts(u.env.proto, parts.value), StreamOf(u.env, u.cipher, packets))
  {
    StreamStep(u.env, u.cipher, [raw] + packets);
    assert ([raw] + packets)[1..] == packets;
  }

  lemma ProcessProgress(u: Session, start: Shared, s: Shared, c: nat, job: nat, before: seq<Incoming>)
    returns (more: seq<Incoming>)
    requires c < |start.callers| == |s.callers| && Progress(u, start, s, c, job, before) && Enabled(s, Process(c))
    ensures |Apply(u, s, Process(c)).callers| == |start.callers|
    ensures Progress(u, start, Apply(u, s, Process(c)), c, job, more)
  {
    var raw := s.callers[c].raw;
    HandStep(u, raw, s.packets);
    AfterNothing(StreamOf(u.env, u.cipher, [raw] + s.packets));
    AfterNothing(StreamOf(u.env, u.cipher, s.packets));
    more := before;
    var r := Opened(u.env, u.cipher, raw);
    if r.Ok? {
      if r.value.emsg != MULTI {
        more := OneTaken(u, start, s, s, c, job, before, r.value);
      } else {
        var parts := Multi.UnpackSpec(u.env.multi, r.value.body);
        if parts.Ok? {
          assert [] + ParsedParts(u.env.proto, parts.value) == ParsedParts(u.env.proto, parts.value);
        }
      }
    }
  }

  lemma OtherProgress(u: Session, start: Shared, s: Shared, a: Step, job: nat, before: seq<Incoming>)
    requires a.c < |start.callers| == |s.callers| && Progress(u, start, s, a.c, job, before) && Enabled(s, a)
    requires a.Miss? || a.Read?
    ensures |Apply(u, s, a).callers| == |start.callers|
    ensures Progress(u, start, Apply(u, s, a), a.c, job, before)
  {
    if a.Read? {
      assert s.packets == [s.packets[0]] + s.packets[1..];
    }
  }

  /** Whatever steps of its own a call takes, and as long as only it does and the transport is there: what it has dealt
      with is, in order, the front of what lay ahead; none of it answers the call, and all of it went to its waiter or
      to the event channel; it returns the first message that answers it, or an error where the packets end it. */
  lemma {:induction false} LeftAlone(u: Session, start: Shared, steps: seq<Step>, c: nat, job: nat)
    returns (before: seq<Incoming>)
    requires c < |start.callers| && start.callers[c] == Polling(Some(job))
    requires forall a | a in steps :: a.c == c && !a.Fail?
    ensures var r := Run(u, start, steps);
            r.Some? ==> |r.value.callers| == |start.callers| && Progress(u, start, r.value, c, job, before)
  {
    before := [];
    if steps == [] {
      ProgressStart(u, start, c, job);
    } else {
      var n := |steps| - 1;
      before := LeftAlone(u, start, steps[..n], c, job);
      var r := Run(u, start, steps[..n]);
      assert steps[n] in steps;
      if r.Some? && Enabled(r.value, steps[n]) {
        match steps[n]
        case Pop(_) => before := PopProgress(u, start, r.value, c, job, before);
        case Process(_) => before := ProcessProgress(u, start, r.value, c, job, before);
        case Miss(_) | Read(_) => OtherProgress(u, start, r.value, steps[n], job, before);
        case _ =>
      }
    }
  }
}
