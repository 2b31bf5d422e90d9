/** Whether a service call can lose its response to another user of the same client
    (crates/steam/src/client/mod.rs:335-380, 397-513): exactly when another one can come to take a message. */
module CallersFate {
  import opened Base
  import opened Messages
  import opened Pump
  import opened Callers
  import Multi

  // ---------------------------------------------------------------- the condition

  /** Processing the packet would send its holder back to the queue. */
  predicate GoesBack(u: Session, pending: set<nat>, job: Option<nat>, raw: Bytes)
  {
    match Opened(u.env, u.cipher, raw)
    case Err(_) => false
    case Ok(m) =>
      if m.emsg == MULTI then Multi.UnpackSpec(u.env.multi, m.body).Ok?
      else RoutedTo(m, pending, job).Some? || !Wanted(m, job)
  }

  /** Callers blocked on the transport. */
  function Readers(callers: seq<Caller>): nat
  {
    if callers == [] then 0 else Readers(callers[..|callers| - 1]) + if callers[|callers| - 1].Reading? then 1 else 0
  }

  /** One of the packets that the blocked callers will read sends its reader back to the queue. */
  ghost predicate ReaderBack(u: Session, s: Shared, e: nat)
  {
    exists c: nat, i: nat :: c < |s.callers| && i < |s.packets| && ReaderBackAt(u, s, e, c, i)
  }

  predicate ReaderBackAt(u: Session, s: Shared, e: nat, c: nat, i: nat)
    requires c < |s.callers| && i < |s.packets|
  {
    c != e && s.callers[c].Reading? && i < Readers(s.callers) && GoesBack(u, s.pending, s.callers[c].job, s.packets[i])
  }

  /** Another caller is ready to take a message, or holds a packet that makes it so. */
  predicate Ready(u: Session, s: Shared, c: nat)
    requires c < |s.callers|
  {
    var k := s.callers[c];
    k.Idle? || k.Polling? || (k.Holding? && GoesBack(u, s.pending, k.job, k.raw))
  }

  ghost predicate OtherReady(u: Session, s: Shared, e: nat)
  {
    exists c: nat :: c < |s.callers| && c != e && Ready(u, s, c)
  }

  ghost predicate OtherReading(s: Shared, e: nat)
  {
    exists c: nat :: c < |s.callers| && c != e && s.callers[c].Reading?
  }

  /** Another caller can come to take the response `x`. A caller blocked on the transport can if `x` is in a packet
      still; if `x` is in the queue already, only by coming back from a packet. */
  ghost predicate Taker(u: Session, s: Shared, e: nat, x: Incoming)
  {
    OtherReady(u, s, e) || if x in s.queue then ReaderBack(u, s, e) else OtherReading(s, e)
  }

  /** Caller `e` is about to look for the response `x`, which is in the queue or in a packet that a reader gets to, and
      is the only response to its job anywhere. */
  ghost predicate Waiting(u: Session, s: Shared, e: nat, j: nat, x: Incoming)
  {
    && e < |s.callers| && s.callers[e] == Polling(Some(j)) && IsResponseTo(x, j)
    && (x in s.queue || x in StreamOf(u.env, u.cipher, s.packets).ahead)
    && OnlyResponse(u, s, j, x)
  }

  ghost predicate OnlyResponse(u: Session, s: Shared, j: nat, x: Incoming)
  {
    forall y | IsResponseTo(y, j) :: Everything(u, s)[y] == if y == x then 1 else 0
  }

  /** The response is not lost to `e`: it is still to be read, or in its hands. */
  predicate Kept(u: Session, s: Shared, e: nat, x: Incoming)
  {
    e < |s.callers| &&
    (s.callers[e].Returned? || x in OfPackets(u, s.packets) || x in s.queue || x in OfCaller(u, s.callers[e]))
  }

  // ---------------------------------------------------------------- runs

  lemma {:induction false} RunFirst(u: Session, s: Shared, a: Step, more: seq<Step>)
    requires Enabled(s, a)
    ensures Run(u, s, [a] + more) == Run(u, Apply(u, s, a), more)
  {
    if more == [] {
      assert ([a] + more)[..0] == [] && ([a] + more)[0] == a;
    } else {
      var n := |more| - 1;
      RunFirst(u, s, a, more[..n]);
      assert ([a] + more)[..n + 1] == [a] + more[..n] && ([a] + more)[n + 1] == more[n];
    }
  }

  // ---------------------------------------------------------------- no other caller: the response is kept

  /** Fewer waiters send fewer packets' readers back. */
  lemma FewerGoBack(u: Session, pending: set<nat>, fewer: set<nat>, job: Option<nat>, raw: Bytes)
    requires fewer <= pending && GoesBack(u, fewer, job, raw)
    ensures GoesBack(u, pending, job, raw)
  {
  }

  lemma ProcessBack(u: Session, s: Shared, c: nat)
    requires Enabled(s, Process(c))
    ensures var s' := Apply(u, s, Process(c));
            if GoesBack(u, s.pending, s.callers[c].job, s.callers[c].raw)
            then s'.callers[c] == Polling(s.callers[c].job)
            else
              && (s'.callers[c].Returned? || s'.callers[c].Errored?)
              && s'.queue == s.queue && s'.packets == s.packets && s'.pending == s.pending
  {
  }

  /** What any step leaves alone. */
  lemma StepFrame(u: Session, s: Shared, a: Step)
    requires Enabled(s, a)
    ensures var s' := Apply(u, s, a);
            && |s'.callers| == |s.callers| && s'.callers == s.callers[a.c := s'.callers[a.c]] && s'.pending <= s.pending
            && s'.packets == (if a.Read? then s.packets[1..] else s.packets)
  {
  }

  /** Nobody else can take a message while `e` looks for its response. */
  ghost predicate Alone(u: Session, s: Shared, e: nat)
  {
    !OtherReady(u, s, e) && !OtherReading(s, e)
  }

  /** Nor can anybody while the response is in the queue. */
  ghost predicate Unreached(u: Session, s: Shared, e: nat)
  {
    !OtherReady(u, s, e) && !ReaderBack(u, s, e)
  }

  lemma {:induction false} ReadersUpdate(callers: seq<Caller>, c: nat, next: Caller)
    requires c < |callers|
    ensures Readers(callers[c := next]) + (if callers[c].Reading? then 1 else 0) ==
              Readers(callers) + if next.Reading? then 1 else 0
  {
    var n := |callers| - 1;
    UpdateFront(callers, c, next);
    if c < n {
      ReadersUpdate(callers[..n], c, next);
    }
  }

  lemma AloneStep(u: Session, s: Shared, a: Step, e: nat)
    requires Enabled(s, a) && e < |s.callers| && Alone(u, s, e)
    ensures Alone(u, Apply(u, s, a), e)
    ensures a.c != e ==> a.Process? && !GoesBack(u, s.pending, s.callers[a.c].job, s.callers[a.c].raw)
  {
    var s' := Apply(u, s, a);
    StepFrame(u, s, a);
    if a.c != e {
      assert !Ready(u, s, a.c) && !s.callers[a.c].Reading?;
      ProcessBack(u, s, a.c);
    }
    forall c: nat | c < |s.callers| && c != e
      ensures !Ready(u, s', c) && !s'.callers[c].Reading?
    {
      assert !Ready(u, s, c) && !s.callers[c].Reading?;
      if s'.callers[c].Holding? && GoesBack(u, s'.pending, s'.callers[c].job, s'.callers[c].raw) {
        FewerGoBack(u, s.pending, s'.pending, s'.callers[c].job, s'.callers[c].raw);
      }
    }
  }

  /** `e` keeps its job, and the response stays where it can be read, or in its hands. */
  ghost predicate KeptAlone(u: Session, s: Shared, e: nat, j: nat, x: Incoming)
  {
    Kept(u, s, e, x) && Alone(u, s, e) && !s.callers[e].Idle? && s.callers[e].job == Some(j)
  }

  lemma KeptAloneStep(u: Session, s: Shared, a: Step, e: nat, j: nat, x: Incoming)
    requires Enabled(s, a) && KeptAlone(u, s, e, j, x) && IsResponseTo(x, j)
    ensures KeptAlone(u, Apply(u, s, a), e, j, x)
  {
    AloneStep(u, s, a, e);
    if a.c != e {
      ProcessBack(u, s, a.c);
      StepFrame(u, s, a);
    } else {
      OwnStepKeeps(u, s, a, e, j, x);
    }
  }

  lemma OwnStepKeeps(u: Session, s: Shared, a: Step, e: nat, j: nat, x: Incoming)
    requires Enabled(s, a) && Kept(u, s, e, x) && a.c == e && !s.callers[e].Idle? && s.callers[e].job == Some(j) &&
               IsResponseTo(x, j)
    ensures var s' := Apply(u, s, a);
            Kept(u, s', e, x) && !s'.callers[e].Idle? && s'.callers[e].job == Some(j)
  {
    match a
    case Pop(_) => OwnPop(u, s, e, j, x);
    case Read(_) => OwnRead(u, s, e, x);
    case Process(_) => OwnProcess(u, s, e, j, x);
    case _ =>
  }

  lemma OwnPop(u: Session, s: Shared, e: nat, j: nat, x: Incoming)
    requires Enabled(s, Pop(e)) && Kept(u, s, e, x) && s.callers[e].job == Some(j) && IsResponseTo(x, j)
    ensures var s' := Apply(u, s, Pop(e));
            Kept(u, s', e, x) && !s'.callers[e].Idle? && s'.callers[e].job == Some(j)
  {
    assert s.queue == [s.queue[0]] + s.queue[1..];
  }

  lemma OwnRead(u: Session, s: Shared, e: nat, x: Incoming)
    requires Enabled(s, Read(e)) && Kept(u, s, e, x)
    ensures var s' := Apply(u, s, Read(e));
            Kept(u, s', e, x) && !s'.callers[e].Idle? && s'.callers[e].job == s.callers[e].job
  {
    assert OfPackets(u, s.packets) == OfPacket(u, s.packets[0]) + OfPackets(u, s.packets[1..]);
  }

  lemma OwnProcess(u: Session, s: Shared, e: nat, j: nat, x: Incoming)
    requires Enabled(s, Process(e)) && Kept(u, s, e, x) && s.callers[e].job == Some(j) && IsResponseTo(x, j)
    ensures var s' := Apply(u, s, Process(e));
            Kept(u, s', e, x) && !s'.callers[e].Idle? && s'.callers[e].job == Some(j)
  {
    ProcessCases(u, s, e);
    var s', r := Apply(u, s, Process(e)), Pump.Contents(u.env, u.cipher, s.callers[e].raw);
    if r.Ok? && |r.value| == 1 && s' == Dispose(s, e, Some(j), r.value[0]) {
      OwnDispose(u, s, e, j, r.value[0], x);
      assert r.value == [r.value[0]];
    }
  }

  lemma OwnDispose(u: Session, s: Shared, e: nat, j: nat, m: Incoming, x: Incoming)
    requires e < |s.callers| && IsResponseTo(x, j)
    ensures var s' := Dispose(s, e, Some(j), m);
            s'.packets == s.packets && s'.queue == s.queue && !s'.callers[e].Idle? && s'.callers[e].job == Some(j)
            && (m == x ==> s'.callers[e].Returned?)
  {
  }

  lemma {:induction false} KeptWhenAlone(u: Session, s: Shared, more: seq<Step>, e: nat, j: nat, x: Incoming)
    requires KeptAlone(u, s, e, j, x) && IsResponseTo(x, j)
    ensures var r := Run(u, s, more); r.Some? ==> KeptAlone(u, r.value, e, j, x)
  {
    if more != [] {
      var n := |more| - 1;
      KeptWhenAlone(u, s, more[..n], e, j, x);
      var r := Run(u, s, more[..n]);
      if r.Some? && Enabled(r.value, more[n]) {
        KeptAloneStep(u, r.value, more[n], e, j, x);
      }
    }
  }

  /** With the response in the queue, `e` has it or nobody can get to it. */
  ghost predicate KeptQueued(u: Session, s: Shared, e: nat, j: nat, x: Incoming)
  {
    && e < |s.callers|
    && (s.callers[e].Returned? ||
        (x in s.queue && (s.callers[e] == Polling(Some(j)) || s.callers[e] == Errored(Some(j))) && Unreached(u, s, e)))
  }

  lemma UnreachedFrom(u: Session, s: Shared, s': Shared, e: nat)
    requires Unreached(u, s, e) && |s'.callers| == |s.callers| && s'.pending <= s.pending && s'.packets == s.packets
    requires e < |s.callers| && Readers(s'.callers) <= Readers(s.callers)
    requires forall c: nat | c < |s.callers| && c != e ::
               s'.callers[c] == s.callers[c] || s'.callers[c].Returned? || s'.callers[c].Errored?
    ensures Unreached(u, s', e)
  {
    forall c: nat | c < |s'.callers| && c != e
      ensures !Ready(u, s', c)
    {
      assert !Ready(u, s, c);
      if s'.callers[c].Holding? && GoesBack(u, s'.pending, s'.callers[c].job, s'.callers[c].raw) {
        FewerGoBack(u, s.pending, s'.pending, s'.callers[c].job, s'.callers[c].raw);
      }
    }
    forall c: nat, i: nat | c < |s'.callers| && i < |s'.packets|
      ensures !ReaderBackAt(u, s', e, c, i)
    {
      if ReaderBackAt(u, s', e, c, i) {
        FewerGoBack(u, s.pending, s'.pending, s'.callers[c].job, s.packets[i]);
        assert ReaderBackAt(u, s, e, c, i);
      }
    }
  }

  lemma UnreachedRead(u: Session, s: Shared, c: nat, e: nat)
    requires Unreached(u, s, e) && Enabled(s, Read(c)) && c != e && e < |s.callers|
    ensures Unreached(u, Apply(u, s, Read(c)), e)
  {
    var s' := Apply(u, s, Read(c));
    ReadersUpdate(s.callers, c, s'.callers[c]);
    assert !ReaderBackAt(u, s, e, c, 0);
    forall d: nat | d < |s'.callers| && d != e
      ensures !Ready(u, s', d)
    {
      assert !Ready(u, s, d);
    }
    forall d: nat, i: nat | d < |s'.callers| && i < |s'.packets|
      ensures !ReaderBackAt(u, s', e, d, i)
    {
      assert !ReaderBackAt(u, s, e, d, i + 1);
    }
  }

  lemma KeptQueuedStep(u: Session, s: Shared, a: Step, e: nat, j: nat, x: Incoming)
    requires Enabled(s, a) && KeptQueued(u, s, e, j, x) && IsResponseTo(x, j)
    ensures KeptQueued(u, Apply(u, s, a), e, j, x)
  {
    var s' := Apply(u, s, a);
    StepFrame(u, s, a);
    if !s.callers[e].Returned? {
      ReadersUpdate(s.callers, a.c, s'.callers[a.c]);
      if a.c == e {
        if a.Pop? {
          assert s.queue == [s.queue[0]] + s.queue[1..];
        }
        UnreachedFrom(u, s, s', e);
      } else {
        assert !Ready(u, s, a.c);
        if a.Read? {
          UnreachedRead(u, s, a.c, e);
        } else {
          if a.Process? {
            ProcessBack(u, s, a.c);
          }
          UnreachedFrom(u, s, s', e);
        }
      }
    }
  }

  lemma {:induction false} KeptWhenQueued(u: Session, s: Shared, more: seq<Step>, e: nat, j: nat, x: Incoming)
    requires KeptQueued(u, s, e, j, x) && IsResponseTo(x, j)
    ensures var r := Run(u, s, more); r.Some? ==> KeptQueued(u, r.value, e, j, x)
  {
    if more != [] {
      var n := |more| - 1;
      KeptWhenQueued(u, s, more[..n], e, j, x);
      var r := Run(u, s, more[..n]);
      if r.Some? && Enabled(r.value, more[n]) {
        KeptQueuedStep(u, r.value, more[n], e, j, x);
      }
    }
  }

  lemma {:induction false} AheadInPackets(u: Session, packets: seq<Bytes>, x: Incoming)
    requires x in StreamOf(u.env, u.cipher, packets).ahead
    ensures x in OfPackets(u, packets)
  {
    var ms, more := Contents(u.env, u.cipher, packets[0]).value, StreamOf(u.env, u.cipher, packets[1..]).ahead;
    assert StreamOf(u.env, u.cipher, packets).ahead == ms + more;
    if x !in ms {
      AheadInPackets(u, packets[1..], x);
    } else {
      assert x in multiset(ms);
    }
  }

  lemma KeptForever(u: Session, s: Shared, more: seq<Step>, e: nat, j: nat, x: Incoming)
    requires Waiting(u, s, e, j, x) && !Taker(u, s, e, x)
    ensures var r := Run(u, s, more); r.Some? ==> Kept(u, r.value, e, x)
  {
    if x in s.queue {
      KeptWhenQueued(u, s, more, e, j, x);
    } else {
      AheadInPackets(u, s.packets, x);
      KeptWhenAlone(u, s, more, e, j, x);
    }
  }

  // ---------------------------------------------------------------- another caller: the response can be lost

  lemma {:induction false} OfCallersAt(u: Session, callers: seq<Caller>, c: nat, x: Incoming)
    requires c < |callers|
    ensures OfCallers(u, callers)[x] >= OfCaller(u, callers[c])[x]
  {
    LastCaller(u, callers, x);
    if c < |callers| - 1 {
      OfCallersAt(u, callers[..|callers| - 1], c, x);
    }
  }

  lemma OnlyStep(u: Session, s: Shared, a: Step, j: nat, x: Incoming)
    requires Enabled(s, a) && OnlyResponse(u, s, j, x)
    ensures OnlyResponse(u, Apply(u, s, a), j, x)
  {
    forall y | IsResponseTo(y, j)
      ensures Everything(u, Apply(u, s, a))[y] == if y == x then 1 else 0
    {
      StepConserves(u, s, a, y);
    }
  }

  /** A response to the job met anywhere is the one response. */
  lemma OnlyOne(u: Session, s: Shared, j: nat, x: Incoming, y: Incoming)
    requires OnlyResponse(u, s, j, x) && IsResponseTo(y, j)
    requires y in s.queue || y in OfPackets(u, s.packets)
    ensures y == x
  {
    CountOf(u, s, y);
    assert y in s.queue ==> multiset(s.queue)[y] > 0;
  }

  /** Once another caller has taken the response, it is out of reach of `e`. */
  lemma TakenAway(u: Session, s: Shared, a: Step, e: nat, j: nat, x: Incoming)
    requires Enabled(s, a) && (a.Pop? || a.Process?) && Taken(u, s, a) == Some(x) && a.c != e
    requires OnlyResponse(u, s, j, x) && IsResponseTo(x, j) && e < |s.callers| && s.callers[e] == Polling(Some(j))
    ensures var s' := Apply(u, s, a);
            |s'.callers| == |s.callers| && s'.callers[e] == s.callers[e] && !Kept(u, s', e, x)
  {
    StepFrame(u, s, a);
    if a.Pop? {
      QueueGone(u, s, x);
    } else {
      DisposedQueue(u, s, a.c);
      HeldGone(u, s, a.c, x);
    }
  }

  lemma QueueGone(u: Session, s: Shared, x: Incoming)
    requires Everything(u, s)[x] == 1 && s.queue != [] && s.queue[0] == x
    ensures x !in OfPackets(u, s.packets) && x !in s.queue[1..]
  {
    CountOf(u, s, x);
    assert s.queue == [x] + s.queue[1..];
    assert multiset(s.queue)[x] == 1 + multiset(s.queue[1..])[x];
  }

  lemma HeldGone(u: Session, s: Shared, c: nat, x: Incoming)
    requires Everything(u, s)[x] == 1 && c < |s.callers| && x in OfCaller(u, s.callers[c])
    ensures x !in OfPackets(u, s.packets) && x !in s.queue
  {
    CountOf(u, s, x);
    OfCallersAt(u, s.callers, c, x);
    assert x in s.queue ==> multiset(s.queue)[x] > 0;
  }

  /** A single message in hand leaves the queue alone, and is all its holder has. */
  lemma DisposedQueue(u: Session, s: Shared, c: nat)
    requires Enabled(s, Process(c)) && Taken(u, s, Process(c)).Some?
    ensures Apply(u, s, Process(c)).queue == s.queue
    ensures Taken(u, s, Process(c)).value in OfCaller(u, s.callers[c])
  {
  }

  /** `e` takes a message that is not its response and looks again. */
  lemma PassOver(u: Session, s: Shared, e: nat, j: nat, x: Incoming)
    requires Waiting(u, s, e, j, x) && s.queue != [] && s.queue[0] != x
    ensures var s' := Apply(u, s, Pop(e));
            && Waiting(u, s', e, j, x) && s'.packets == s.packets && s'.queue == s.queue[1..]
            && s'.callers == s.callers && s'.pending <= s.pending
  {
    var m := s.queue[0];
    if IsResponseTo(m, j) {
      OnlyOne(u, s, j, x, m);
    }
    OnlyStep(u, s, Pop(e), j, x);
    PopsOther(u, s, e, j);
    assert x in s.queue ==> x in s.queue[1..] by {
      assert s.queue == [m] + s.queue[1..];
    }
  }

  lemma PopsOther(u: Session, s: Shared, e: nat, j: nat)
    requires Enabled(s, Pop(e)) && s.callers[e] == Polling(Some(j)) && !IsResponseTo(s.queue[0], j)
    ensures var s' := Apply(u, s, Pop(e));
            s'.packets == s.packets && s'.queue == s.queue[1..] && s'.callers == s.callers && s'.pending <= s.pending
  {
    assert s.callers[e := Polling(Some(j))] == s.callers;
  }

  /** The state in which `e` holds the next packet. */
  function InHand(s: Shared, e: nat, j: nat): Shared
    requires e < |s.callers| && s.packets != []
  {
    s.(packets := s.packets[1..], callers := s.callers[e := Holding(Some(j), s.packets[0])])
  }

  lemma TakesInHand(u: Session, s: Shared, e: nat, j: nat, x: Incoming)
    requires e < |s.callers| && s.callers[e] == Polling(Some(j)) && s.queue == [] && s.packets != [] &&
               OnlyResponse(u, s, j, x)
    ensures Enabled(s, Miss(e)) && Enabled(Apply(u, s, Miss(e)), Read(e))
    ensures Apply(u, Apply(u, s, Miss(e)), Read(e)) == InHand(s, e, j) && OnlyResponse(u, InHand(s, e, j), j, x)
  {
    OnlyStep(u, s, Miss(e), j, x);
    OnlyStep(u, Apply(u, s, Miss(e)), Read(e), j, x);
    assert s.callers[e := Reading(Some(j))][e := Holding(Some(j), s.packets[0])] ==
             s.callers[e := Holding(Some(j), s.packets[0])];
  }

  /** `e` processes a packet without its response, and looks again. */
  lemma ReadOver(u: Session, s: Shared, e: nat, j: nat, x: Incoming)
    requires Waiting(u, s, e, j, x) && s.queue == [] && s.packets != []
    requires Contents(u.env, u.cipher, s.packets[0]).Ok? && x !in Contents(u.env, u.cipher, s.packets[0]).value
    requires OnlyResponse(u, InHand(s, e, j), j, x)
    ensures var s3 := Apply(u, InHand(s, e, j), Process(e));
            && Waiting(u, s3, e, j, x) && s3.packets == s.packets[1..] && s3.callers == s.callers && x !in s3.queue
  {
    var s2, ms := InHand(s, e, j), Contents(u.env, u.cipher, s.packets[0]).value;
    OnlyStep(u, s2, Process(e), j, x);
    StreamHead(u, s.packets, x);
    NoneInHead(u, s, e, j, x);
    StepFrame(u, s2, Process(e));
    ProcessedOver(u, s2, e, j, ms);
    assert s.callers[e := Holding(Some(j), s.packets[0])][e := Polling(Some(j))] == s.callers;
  }

  lemma NoneInHead(u: Session, s: Shared, e: nat, j: nat, x: Incoming)
    requires OnlyResponse(u, s, j, x) && s.packets != []
    requires Contents(u.env, u.cipher, s.packets[0]).Ok? && x !in Contents(u.env, u.cipher, s.packets[0]).value
    ensures forall m | m in Contents(u.env, u.cipher, s.packets[0]).value :: !IsResponseTo(m, j)
  {
    forall m | m in Contents(u.env, u.cipher, s.packets[0]).value
      ensures !IsResponseTo(m, j)
    {
      HeadInPackets(u, s.packets, m);
      if IsResponseTo(m, j) {
        OnlyOne(u, s, j, x, m);
      }
    }
  }

  lemma ProcessedOver(u: Session, s: Shared, e: nat, j: nat, ms: seq<Incoming>)
    requires Enabled(s, Process(e)) && s.callers[e].job == Some(j) && s.queue == []
    requires Contents(u.env, u.cipher, s.callers[e].raw) == Ok(ms) && forall m | m in ms :: !IsResponseTo(m, j)
    ensures var s' := Apply(u, s, Process(e));
            s'.callers == s.callers[e := Polling(Some(j))] && (s'.queue == [] || s'.queue == ms)
  {
    var m := Opened(u.env, u.cipher, s.callers[e].raw).value;
    if m.emsg != MULTI {
      assert ms == [m] && m in ms;
    } else {
      assert [] + ms == ms;
    }
  }

  lemma HeadInPackets(u: Session, packets: seq<Bytes>, m: Incoming)
    requires packets != [] && Contents(u.env, u.cipher, packets[0]).Ok? &&
               m in Contents(u.env, u.cipher, packets[0]).value
    ensures m in OfPackets(u, packets)
  {
    assert m in multiset(Contents(u.env, u.cipher, packets[0]).value);
    assert OfPackets(u, packets) == OfPacket(u, packets[0]) + OfPackets(u, packets[1..]);
  }

  lemma StreamHead(u: Session, packets: seq<Bytes>, x: Incoming)
    requires packets != [] && x in StreamOf(u.env, u.cipher, packets).ahead
    ensures var first := Contents(u.env, u.cipher, packets[0]);
            first.Ok? && (x in first.value || x in StreamOf(u.env, u.cipher, packets[1..]).ahead)
  {
    var ms, more := Contents(u.env, u.cipher, packets[0]).value, StreamOf(u.env, u.cipher, packets[1..]).ahead;
    assert StreamOf(u.env, u.cipher, packets).ahead == ms + more;
  }

  /** A run from `s` in which the response is lost to `e`, which is still waiting for it. */
  ghost predicate Loses(u: Session, s: Shared, e: nat, j: nat, x: Incoming, more: seq<Step>)
  {
    var r := Run(u, s, more);
    r.Some? && e < |r.value.callers| && r.value.callers[e] == Polling(Some(j)) && !Kept(u, r.value, e, x)
  }

  lemma LosesLater(u: Session, s: Shared, a: Step, e: nat, j: nat, x: Incoming, more: seq<Step>)
    requires Enabled(s, a) && Loses(u, Apply(u, s, a), e, j, x, more)
    ensures Loses(u, s, e, j, x, [a] + more)
  {
    RunFirst(u, s, a, more);
  }

  lemma LosesNow(u: Session, s: Shared, a: Step, e: nat, j: nat, x: Incoming)
    requires Enabled(s, a) && (a.Pop? || a.Process?) && Taken(u, s, a) == Some(x) && a.c != e
    requires OnlyResponse(u, s, j, x) && IsResponseTo(x, j) && e < |s.callers| && s.callers[e] == Polling(Some(j))
    ensures Loses(u, s, e, j, x, [a])
  {
    TakenAway(u, s, a, e, j, x);
    RunFirst(u, s, a, []);
    assert [a] + [] == [a];
  }

  /** A caller at the queue or blocked on the transport takes the response: `e` clears the way for it. */
  lemma {:induction false} Lose(u: Session, s: Shared, e: nat, j: nat, x: Incoming, c: nat) returns (more: seq<Step>)
    requires Waiting(u, s, e, j, x) && c < |s.callers| && c != e
    requires s.callers[c].Polling? || (s.callers[c].Reading? && x !in s.queue)
    ensures Loses(u, s, e, j, x, more)
    decreases |s.packets|, |s.queue|, if s.callers[c].Polling? then 2 else 1
  {
    if s.queue != [] && s.queue[0] == x {
      LosesNow(u, s, Pop(c), e, j, x);
      more := [Pop(c)];
    } else if s.queue != [] {
      PassOver(u, s, e, j, x);
      more := Lose(u, Apply(u, s, Pop(e)), e, j, x, c);
      LosesLater(u, s, Pop(e), e, j, x, more);
      more := [Pop(e)] + more;
    } else if s.callers[c].Polling? {
      OnlyStep(u, s, Miss(c), j, x);
      more := Lose(u, Apply(u, s, Miss(c)), e, j, x, c);
      LosesLater(u, s, Miss(c), e, j, x, more);
      more := [Miss(c)] + more;
    } else {
      StreamHead(u, s.packets, x);
      if x in Contents(u.env, u.cipher, s.packets[0]).value {
        more := LoseHead(u, s, e, j, x, c);
      } else {
        more := LoseLater(u, s, e, j, x, c);
      }
    }
  }

  /** `e` reads past a packet without the response. */
  lemma {:induction false} LoseLater(u: Session, s: Shared, e: nat, j: nat, x: Incoming, c: nat)
    returns (more: seq<Step>)
    requires Waiting(u, s, e, j, x) && c < |s.callers| && c != e && s.callers[c].Reading? && s.queue == [] &&
               s.packets != []
    requires Contents(u.env, u.cipher, s.packets[0]).Ok? && x !in Contents(u.env, u.cipher, s.packets[0]).value
    ensures Loses(u, s, e, j, x, more)
    decreases |s.packets|, 0, 0
  {
    TakesInHand(u, s, e, j, x);
    ReadOver(u, s, e, j, x);
    more := Lose(u, Apply(u, InHand(s, e, j), Process(e)), e, j, x, c);
    LosesLater(u, InHand(s, e, j), Process(e), e, j, x, more);
    more := [Process(e)] + more;
    LosesLater(u, Apply(u, s, Miss(e)), Read(e), e, j, x, more);
    more := [Read(e)] + more;
    LosesLater(u, s, Miss(e), e, j, x, more);
    more := [Miss(e)] + more;
  }

  /** The blocked caller reads the packet with the response itself. */
  lemma {:induction false} LoseHead(u: Session, s: Shared, e: nat, j: nat, x: Incoming, c: nat)
    returns (more: seq<Step>)
    requires Waiting(u, s, e, j, x) && c < |s.callers| && c != e && s.callers[c].Reading? && s.queue == [] &&
               s.packets != []
    requires Contents(u.env, u.cipher, s.packets[0]).Ok? && x in Contents(u.env, u.cipher, s.packets[0]).value
    ensures Loses(u, s, e, j, x, more)
    decreases |s.packets|, 0, 0
  {
    var s1 := Apply(u, s, Read(c));
    OnlyStep(u, s, Read(c), j, x);
    if Taken(u, s1, Process(c)).Some? {
      LosesNow(u, s1, Process(c), e, j, x);
      more := [Process(c)];
    } else {
      var s2 := Apply(u, s1, Process(c));
      OnlyStep(u, s1, Process(c), j, x);
      BundleQueued(u, s1, c);
      more := Lose(u, s2, e, j, x, c);
      LosesLater(u, s1, Process(c), e, j, x, more);
      more := [Process(c)] + more;
    }
    LosesLater(u, s, Read(c), e, j, x, more);
    more := [Read(c)] + more;
  }

  lemma BundleQueued(u: Session, s: Shared, c: nat)
    requires Enabled(s, Process(c)) && Taken(u, s, Process(c)).None? && Contents(u.env, u.cipher, s.callers[c].raw).Ok?
    ensures var s' := Apply(u, s, Process(c));
            && s'.queue == s.queue + Contents(u.env, u.cipher, s.callers[c].raw).value && s'.packets == s.packets
            && s'.callers == s.callers[c := Polling(s.callers[c].job)]
  {
  }

  /** A step of another caller that leaves the response where it is leaves `e` waiting for it. */
  lemma OtherStepWaits(u: Session, s: Shared, a: Step, e: nat, j: nat, x: Incoming)
    requires Waiting(u, s, e, j, x) && Enabled(s, a) && a.c != e &&
               (a.Listen? || (a.Process? && Apply(u, s, a).callers[a.c].Polling?))
    ensures var s' := Apply(u, s, a);
            Waiting(u, s', e, j, x) && s'.packets == s.packets && s.queue <= s'.queue && |s'.callers| == |s.callers|
  {
    StepFrame(u, s, a);
    OnlyStep(u, s, a, j, x);
    QueueGrows(u, s, a);
  }

  lemma QueueGrows(u: Session, s: Shared, a: Step)
    requires Enabled(s, a) && (a.Listen? || (a.Process? && Apply(u, s, a).callers[a.c].Polling?))
    ensures s.queue <= Apply(u, s, a).queue && forall x | x in s.queue :: x in Apply(u, s, a).queue
  {
    if a.Process? {
      ProcessCases(u, s, a.c);
    }
  }

  /** A caller that is ready gets to the queue and takes the response. */
  lemma LoseToReady(u: Session, s: Shared, e: nat, j: nat, x: Incoming, c: nat) returns (more: seq<Step>)
    requires Waiting(u, s, e, j, x) && c < |s.callers| && c != e && Ready(u, s, c)
    ensures Loses(u, s, e, j, x, more)
  {
    if s.callers[c].Polling? {
      more := Lose(u, s, e, j, x, c);
    } else {
      var a := if s.callers[c].Idle? then Listen(c) else Process(c);
      if a.Process? {
        ProcessBack(u, s, c);
      }
      OtherStepWaits(u, s, a, e, j, x);
      more := Lose(u, Apply(u, s, a), e, j, x, c);
      LosesLater(u, s, a, e, j, x, more);
      more := [a] + more;
    }
  }

  lemma {:induction false} AnotherReader(callers: seq<Caller>, c: nat) returns (d: nat)
    requires c < |callers| && Readers(callers) >= if callers[c].Reading? then 2 else 1
    ensures d < |callers| && d != c && callers[d].Reading?
  {
    var n := |callers| - 1;
    if callers[n].Reading? && n != c {
      d := n;
    } else if n == c {
      d := SomeReader(callers[..n]);
    } else {
      d := AnotherReader(callers[..n], c);
    }
  }

  lemma {:induction false} SomeReader(callers: seq<Caller>) returns (d: nat)
    requires Readers(callers) >= 1
    ensures d < |callers| && callers[d].Reading?
  {
    d := |callers| - 1;
    if !callers[d].Reading? {
      d := SomeReader(callers[..d]);
    }
  }

  /** A blocked caller reads the next packet while the response is in the queue. */
  lemma BlockedRead(u: Session, s: Shared, e: nat, j: nat, x: Incoming, c: nat)
    requires Waiting(u, s, e, j, x) && x in s.queue && c < |s.callers| && c != e && s.callers[c].Reading? &&
               s.packets != []
    ensures var s' := Apply(u, s, Read(c));
            && Waiting(u, s', e, j, x) && s'.queue == s.queue && s'.packets == s.packets[1..] && s'.pending == s.pending
            && s'.callers == s.callers[c := Holding(s.callers[c].job, s.packets[0])] &&
                Readers(s'.callers) + 1 == Readers(s.callers)
  {
    OnlyStep(u, s, Read(c), j, x);
    ReadersUpdate(s.callers, c, Holding(s.callers[c].job, s.packets[0]));
  }

  /** The callers blocked on the transport use up packets until one of them comes back to the queue. */
  lemma {:induction false} LoseToReader(u: Session, s: Shared, e: nat, j: nat, x: Incoming, c: nat, i: nat)
    returns (more: seq<Step>)
    requires Waiting(u, s, e, j, x) && x in s.queue && c < |s.callers| && i < |s.packets| && ReaderBackAt(u, s, e, c, i)
    ensures Loses(u, s, e, j, x, more)
    decreases i
  {
    var d := c;
    if i > 0 {
      d := AnotherReader(s.callers, c);
    }
    BlockedRead(u, s, e, j, x, d);
    var s1 := Apply(u, s, Read(d));
    if GoesBack(u, s.pending, s.callers[d].job, s.packets[0]) {
      more := LoseToReady(u, s1, e, j, x, d);
    } else {
      more := LoseToNext(u, s1, e, j, x, d, c, i);
    }
    LosesLater(u, s, Read(d), e, j, x, more);
    more := [Read(d)] + more;
  }

  /** The reader that does not come back is done, and the others go on with the next packet. */
  lemma {:induction false} LoseToNext(u: Session, s: Shared, e: nat, j: nat, x: Incoming, d: nat, c: nat, i: nat)
    returns (more: seq<Step>)
    requires Waiting(u, s, e, j, x) && x in s.queue && d < |s.callers| && d != e && d != c && Enabled(s, Process(d))
    requires !GoesBack(u, s.pending, s.callers[d].job, s.callers[d].raw)
    requires 0 < i <= |s.packets| && c < |s.callers| && ReaderBackAt(u, s, e, c, i - 1)
    ensures Loses(u, s, e, j, x, more)
    decreases i, 0
  {
    var s' := Apply(u, s, Process(d));
    ProcessBack(u, s, d);
    StepFrame(u, s, Process(d));
    OnlyStep(u, s, Process(d), j, x);
    ReadersUpdate(s.callers, d, s'.callers[d]);
    more := LoseToReader(u, s', e, j, x, c, i - 1);
    LosesLater(u, s, Process(d), e, j, x, more);
    more := [Process(d)] + more;
  }

  // ---------------------------------------------------------------- the call's own steps

  /** A run of `e` alone in which it returns with the response. */
  ghost predicate Gets(u: Session, s: Shared, e: nat, j: nat, x: Incoming, more: seq<Step>)
  {
    var r := Run(u, s, more);
    && r.Some? && e < |r.value.callers| && r.value.callers[e] == Returned(Some(j), x)
    && forall a | a in more :: a.c == e
  }

  lemma GetsLater(u: Session, s: Shared, a: Step, e: nat, j: nat, x: Incoming, more: seq<Step>)
    requires Enabled(s, a) && a.c == e && Gets(u, Apply(u, s, a), e, j, x, more)
    ensures Gets(u, s, e, j, x, [a] + more)
  {
    RunFirst(u, s, a, more);
  }

  lemma GetsNow(u: Session, s: Shared, a: Step, e: nat, j: nat, x: Incoming)
    requires Enabled(s, a) && a.c == e && (a.Pop? || a.Process?) && Taken(u, s, a) == Some(x)
    requires IsResponseTo(x, j) && s.callers[e].job == Some(j)
    ensures Gets(u, s, e, j, x, [a])
  {
    RunFirst(u, s, a, []);
    assert [a] + [] == [a];
  }

  /** Left to itself, the call returns with its response. */
  lemma {:induction false} GetsResponse(u: Session, s: Shared, e: nat, j: nat, x: Incoming) returns (more: seq<Step>)
    requires Waiting(u, s, e, j, x)
    ensures Gets(u, s, e, j, x, more)
    decreases |s.packets|, |s.queue|, 1
  {
    if s.queue != [] && s.queue[0] == x {
      GetsNow(u, s, Pop(e), e, j, x);
      more := [Pop(e)];
    } else if s.queue != [] {
      PassOver(u, s, e, j, x);
      more := GetsResponse(u, Apply(u, s, Pop(e)), e, j, x);
      GetsLater(u, s, Pop(e), e, j, x, more);
      more := [Pop(e)] + more;
    } else {
      StreamHead(u, s.packets, x);
      TakesInHand(u, s, e, j, x);
      more := GetsInHand(u, s, e, j, x);
      more := GetsRead(u, s, e, j, x, more);
    }
  }

  lemma GetsRead(u: Session, s: Shared, e: nat, j: nat, x: Incoming, rest: seq<Step>) returns (more: seq<Step>)
    requires Enabled(s, Miss(e)) && Enabled(Apply(u, s, Miss(e)), Read(e))
    requires Gets(u, Apply(u, Apply(u, s, Miss(e)), Read(e)), e, j, x, rest)
    ensures Gets(u, s, e, j, x, more)
  {
    GetsLater(u, Apply(u, s, Miss(e)), Read(e), e, j, x, rest);
    GetsLater(u, s, Miss(e), e, j, x, [Read(e)] + rest);
    more := [Miss(e)] + ([Read(e)] + rest);
  }

  lemma {:induction false} GetsInHand(u: Session, s: Shared, e: nat, j: nat, x: Incoming) returns (more: seq<Step>)
    requires Waiting(u, s, e, j, x) && s.queue == [] && s.packets != [] && Contents(u.env, u.cipher, s.packets[0]).Ok?
    requires OnlyResponse(u, InHand(s, e, j), j, x)
    ensures Gets(u, InHand(s, e, j), e, j, x, more)
    decreases |s.packets|, 0, 0
  {
    var s2 := InHand(s, e, j);
    var s3 := Apply(u, s2, Process(e));
    if x in Contents(u.env, u.cipher, s.packets[0]).value && Taken(u, s2, Process(e)).Some? {
      GetsNow(u, s2, Process(e), e, j, x);
      more := [Process(e)];
    } else {
      if x !in Contents(u.env, u.cipher, s.packets[0]).value {
        ReadOver(u, s, e, j, x);
      } else {
        OnlyStep(u, s2, Process(e), j, x);
        BundleQueued(u, s2, e);
      }
      more := GetsResponse(u, s3, e, j, x);
      GetsLater(u, s2, Process(e), e, j, x, more);
      more := [Process(e)] + more;
    }
  }

  // ---------------------------------------------------------------- the two halves together

  /** A call's response is kept for it in every continuation if and only if no other caller can come to take a message.
      If one can, there is a run in which nothing fails and the call waits for a response that is gone. */
  lemma KeptIffNoTaker(u: Session, s: Shared, e: nat, j: nat, x: Incoming)
    requires Waiting(u, s, e, j, x)
    ensures (forall more: seq<Step> :: Run(u, s, more).Some? ==> Kept(u, Run(u, s, more).value, e, x)) <==>
              !Taker(u, s, e, x)
    ensures Taker(u, s, e, x) ==> exists more: seq<Step> :: Loses(u, s, e, j, x, more)
  {
    if Taker(u, s, e, x) {
      var more := LoseToTaker(u, s, e, j, x);
      LosesIsNotKept(u, s, e, j, x, more);
    } else {
      forall more: seq<Step> | Run(u, s, more).Some?
        ensures Kept(u, Run(u, s, more).value, e, x)
      {
        KeptForever(u, s, more, e, j, x);
      }
    }
  }

  lemma LosesIsNotKept(u: Session, s: Shared, e: nat, j: nat, x: Incoming, more: seq<Step>)
    requires Loses(u, s, e, j, x, more)
    ensures Run(u, s, more).Some? && !Kept(u, Run(u, s, more).value, e, x)
  {
  }

  lemma LoseToTaker(u: Session, s: Shared, e: nat, j: nat, x: Incoming) returns (more: seq<Step>)
    requires Waiting(u, s, e, j, x) && Taker(u, s, e, x)
    ensures Loses(u, s, e, j, x, more)
  {
    if OtherReady(u, s, e) {
      var c: nat :| c < |s.callers| && c != e && Ready(u, s, c);
      more := LoseToReady(u, s, e, j, x, c);
    } else if x in s.queue {
      var c: nat, i: nat :| c < |s.callers| && i < |s.packets| && ReaderBackAt(u, s, e, c, i);
      more := LoseToReader(u, s, e, j, x, c, i);
    } else {
      var c: nat :| c < |s.callers| && c != e && s.callers[c].Reading?;
      more := Lose(u, s, e, j, x, c);
    }
  }

  /** The same, read off the other callers before the call begins. */
  lemma BeforeTheCall(u: Session, s: Shared, e: nat, x: Incoming)
    requires e < |s.callers| && s.callers[e].Idle? && IsResponseTo(x, s.nextJobId) && OnlyResponse(u, s, s.nextJobId, x)
    requires x in s.queue || x in StreamOf(u.env, u.cipher, s.packets).ahead
    ensures var called := Apply(u, s, Begin(e));
            (forall more: seq<Step> :: Run(u, called, more).Some? ==> Kept(u, Run(u, called, more).value, e, x)) <==>
                !Taker(u, s, e, x)
  {
    var called := Apply(u, s, Begin(e));
    OnlyStep(u, s, Begin(e), s.nextJobId, x);
    ReadersUpdate(s.callers, e, called.callers[e]);
    SameTakers(u, s, called, e, x);
    KeptIffNoTaker(u, called, e, s.nextJobId, x);
  }

  lemma SameTakers(u: Session, s: Shared, s': Shared, e: nat, x: Incoming)
    requires e < |s.callers| == |s'.callers| && s'.callers == s.callers[e := s'.callers[e]]
    requires s'.queue == s.queue && s'.packets == s.packets && s'.pending == s.pending &&
               Readers(s'.callers) == Readers(s.callers)
    ensures Taker(u, s', e, x) <==> Taker(u, s, e, x)
  {
    assert forall c: nat | c < |s.callers| && c != e :: Ready(u, s', c) <==> Ready(u, s, c);
    assert forall c: nat | c < |s.callers| && c != e :: s'.callers[c] == s.callers[c];
    assert forall c: nat, i: nat | c < |s.callers| && i < |s.packets| :: ReaderBackAt(u, s', e, c, i) <==>
             ReaderBackAt(u, s, e, c, i);
  }
}
