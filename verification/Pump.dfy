/** The client's receive loops (crates/steam/src/client/mod.rs:264-298, 335-376, 397-513) for a single reader. */
module Pump {
  import opened Base
  import opened Messages
  import Multi
  import SessionCipher

  datatype Env = Env(proto: Proto, multi: Multi.Codec)

  datatype PumpError =
    | Disconnected
    | Crypto(c: SessionCipher.CipherError)
    | Parse(p: ParseError)
    | Bundle(m: Multi.MultiError)
    | ServiceFailed(eresult: int)

  // ---------------------------------------------------------------- what a packet holds

  /** The parts of a bundle that parse, in order; a bundle inside a bundle is kept as it is. */
  function ParsedParts(p: Proto, parts: seq<Bytes>): seq<Incoming>
  {
    if parts == [] then []
    else
      var init := ParsedParts(p, parts[..|parts| - 1]);
      match ParseIncoming(p, parts[|parts| - 1])
      case Ok(m) => init + [m]
      case Err(_) => init
  }

  function Opened(env: Env, cipher: Option<SessionCipher.Cipher>, raw: Bytes): Result<Incoming, PumpError>
  {
    var plain := if cipher.Some? then SessionCipher.Decrypt(cipher.value, raw) else Ok(raw);
    match plain
    case Err(e) => Err(Crypto(e))
    case Ok(data) =>
      match ParseIncoming(env.proto, data)
      case Err(e) => Err(Parse(e))
      case Ok(m) => Ok(m)
  }

  /** The one-level flattening of a packet. */
  function Contents(env: Env, cipher: Option<SessionCipher.Cipher>, raw: Bytes): Result<seq<Incoming>, PumpError>
  {
    match Opened(env, cipher, raw)
    case Err(e) => Err(e)
    case Ok(m) =>
      if m.emsg != MULTI then Ok([m])
      else
        match Multi.UnpackSpec(env.multi, m.body)
        case Err(e) => Err(Bundle(e))
        case Ok(parts) => Ok(ParsedParts(env.proto, parts))
  }

  // ---------------------------------------------------------------- the same, spelled out

  /** `at` lists, in order, exactly the parts that parse, and `out` is what they parse to. */
  ghost predicate Selects(parse: Bytes -> Result<Incoming, ParseError>, parts: seq<Bytes>, at: seq<nat>,
                          out: seq<Incoming>)
  {
    && |at| == |out|
    && (forall j, k | 0 <= j < k < |at| :: at[j] < at[k])
    && (forall j | 0 <= j < |at| :: at[j] < |parts| && parse(parts[at[j]]) == Ok(out[j]))
    && (forall i: nat | i < |parts| && parse(parts[i]).Ok? :: i in at)
  }

  function Parser(p: Proto): (parse: Bytes -> Result<Incoming, ParseError>)
    ensures forall b :: parse(b) == ParseIncoming(p, b)
  {
    (b: Bytes) => ParseIncoming(p, b)
  }

  lemma SelectsMore(parse: Bytes -> Result<Incoming, ParseError>, parts: seq<Bytes>, at: seq<nat>, out: seq<Incoming>,
                    last: Bytes)
    requires Selects(parse, parts, at, out)
    ensures match parse(last)
            case Ok(m) => Selects(parse, parts + [last], at + [|parts|], out + [m])
            case Err(_) => Selects(parse, parts + [last], at, out)
  {
    assert forall i: nat | i in at :: i in at + [|parts|];
  }

  /** No part that parses is dropped, none is made up, and their order is kept. */
  lemma {:induction false} PartsExactly(p: Proto, parts: seq<Bytes>) returns (at: seq<nat>)
    ensures Selects(Parser(p), parts, at, ParsedParts(p, parts))
  {
    if parts == [] {
      at := [];
    } else {
      var n := |parts| - 1;
      at := PartsExactly(p, parts[..n]);
      SelectsMore(Parser(p), parts[..n], at, ParsedParts(p, parts[..n]), parts[n]);
      assert parts == parts[..n] + [parts[n]];
      if Parser(p)(parts[n]).Ok? {
        at := at + [n];
      }
    }
  }

  lemma PartIn(p: Proto, parts: seq<Bytes>, m: Incoming)
    ensures m in ParsedParts(p, parts) <==> exists k: nat :: k < |parts| && ParseIncoming(p, parts[k]) == Ok(m)
  {
    var at := PartsExactly(p, parts);
    var out := ParsedParts(p, parts);
    if m in out {
      var j :| 0 <= j < |out| && out[j] == m;
      assert ParseIncoming(p, parts[at[j]]) == Ok(m);
    }
    if k: nat :| k < |parts| && ParseIncoming(p, parts[k]) == Ok(m) {
      assert k in at;
    }
  }

  /** The bytes of a packet under the cipher, if there is one. */
  function Plain(cipher: Option<SessionCipher.Cipher>, raw: Bytes): Option<Bytes>
  {
    if cipher.None? then Some(raw)
    else if SessionCipher.Decrypt(cipher.value, raw).Ok? then Some(SessionCipher.Decrypt(cipher.value, raw).value)
    else None
  }

  /** The packet decrypts and parses, and if it is a bundle (message 1) it unpacks. */
  predicate Opens(env: Env, cipher: Option<SessionCipher.Cipher>, raw: Bytes)
  {
    && Plain(cipher, raw).Some?
    && var top := ParseIncoming(env.proto, Plain(cipher, raw).value);
       top.Ok? && (top.value.emsg == 1 ==> Multi.UnpackSpec(env.multi, top.value.body).Ok?)
  }

  /** The message is the packet's own, or parsed from a part of the bundle it is. */
  ghost predicate Holds(env: Env, cipher: Option<SessionCipher.Cipher>, raw: Bytes, m: Incoming)
    requires Opens(env, cipher, raw)
  {
    var top := ParseIncoming(env.proto, Plain(cipher, raw).value).value;
    if top.emsg != 1 then m == top
    else
      var parts := Multi.UnpackSpec(env.multi, top.body).value;
      exists k: nat :: k < |parts| && ParseIncoming(env.proto, parts[k]) == Ok(m)
  }

  lemma ContentsExactly(env: Env, cipher: Option<SessionCipher.Cipher>, raw: Bytes, m: Incoming)
    ensures Contents(env, cipher, raw).Ok? <==> Opens(env, cipher, raw)
    ensures Opens(env, cipher, raw) ==> (m in Contents(env, cipher, raw).value <==> Holds(env, cipher, raw, m))
    ensures Opens(env, cipher, raw) ==>
              var top := ParseIncoming(env.proto, Plain(cipher, raw).value).value;
              Contents(env, cipher, raw).value ==
              if top.emsg != 1 then [top]
              else ParsedParts(env.proto, Multi.UnpackSpec(env.multi, top.body).value)
  {
    if Opens(env, cipher, raw) {
      var top := ParseIncoming(env.proto, Plain(cipher, raw).value).value;
      if top.emsg == 1 {
        PartIn(env.proto, Multi.UnpackSpec(env.multi, top.body).value, m);
      }
    }
  }

  /** Packet `i` holds the message, and it and all before it open. */
  ghost predicate Arrives(env: Env, cipher: Option<SessionCipher.Cipher>, packets: seq<Bytes>, i: nat, m: Incoming)
  {
    && i < |packets| && (forall j | 0 <= j <= i :: Opens(env, cipher, packets[j]))
    && Holds(env, cipher, packets[i], m)
  }

  lemma ArrivesLater(env: Env, cipher: Option<SessionCipher.Cipher>, packets: seq<Bytes>, i: nat, m: Incoming)
    requires packets != []
    ensures Arrives(env, cipher, packets, i + 1, m) <==>
            Opens(env, cipher, packets[0]) && Arrives(env, cipher, packets[1..], i, m)
  {
    var rest := packets[1..];
    if i < |rest| {
      if forall j | 0 <= j <= i + 1 :: Opens(env, cipher, packets[j]) {
        assert Opens(env, cipher, packets[0]);
        assert forall j | 0 <= j <= i :: rest[j] == packets[j + 1];
      }
      if Opens(env, cipher, packets[0]) && forall j | 0 <= j <= i :: Opens(env, cipher, rest[j]) {
        forall j | 0 <= j <= i + 1
          ensures Opens(env, cipher, packets[j])
        {
          assert j > 0 ==> packets[j] == rest[j - 1];
        }
      }
    }
  }

  lemma ArrivesFirst(env: Env, cipher: Option<SessionCipher.Cipher>, packets: seq<Bytes>, m: Incoming)
    ensures Arrives(env, cipher, packets, 0, m) <==>
            packets != [] && Opens(env, cipher, packets[0]) && Holds(env, cipher, packets[0], m)
  {
  }

  ghost predicate SomeArrives(env: Env, cipher: Option<SessionCipher.Cipher>, packets: seq<Bytes>, m: Incoming)
  {
    exists i: nat :: Arrives(env, cipher, packets, i, m)
  }

  lemma SomeArrivesCons(env: Env, cipher: Option<SessionCipher.Cipher>, packets: seq<Bytes>, m: Incoming)
    requires packets != []
    ensures SomeArrives(env, cipher, packets, m) <==>
            && Opens(env, cipher, packets[0])
            && (Holds(env, cipher, packets[0], m) || SomeArrives(env, cipher, packets[1..], m))
  {
    ArrivesFirst(env, cipher, packets, m);
    if i: nat :| Arrives(env, cipher, packets, i, m) {
      if i > 0 {
        ArrivesLater(env, cipher, packets, i - 1, m);
      }
    }
    if i: nat :| Arrives(env, cipher, packets[1..], i, m) {
      ArrivesLater(env, cipher, packets, i, m);
    }
  }

  /** What a reader meets is exactly what the packets hold up to the first that does not open. */
  lemma {:induction false} AheadExactly(env: Env, cipher: Option<SessionCipher.Cipher>, packets: seq<Bytes>,
                                        m: Incoming)
    ensures m in StreamOf(env, cipher, packets).ahead <==> SomeArrives(env, cipher, packets, m)
  {
    if packets != [] {
      AheadExactly(env, cipher, packets[1..], m);
      SomeArrivesCons(env, cipher, packets, m);
      AheadCons(env, cipher, packets, m);
    }
  }

  lemma AheadCons(env: Env, cipher: Option<SessionCipher.Cipher>, packets: seq<Bytes>, m: Incoming)
    requires packets != []
    ensures m in StreamOf(env, cipher, packets).ahead <==>
            && Opens(env, cipher, packets[0])
            && (Holds(env, cipher, packets[0], m) || m in StreamOf(env, cipher, packets[1..]).ahead)
  {
    ContentsExactly(env, cipher, packets[0], m);
  }

  /** A response to the job (message 147 with its number) is queued, or arrives in a packet, bundled or not. */
  ghost predicate Answered(env: Env, cipher: Option<SessionCipher.Cipher>, queue: seq<Incoming>, packets: seq<Bytes>,
                           job: nat)
  {
    || (exists k :: 0 <= k < |queue| && queue[k].emsg == 147 && queue[k].header.jobTarget == Some(job))
    || (exists m :: SomeArrives(env, cipher, packets, m) && m.emsg == 147 && m.header.jobTarget == Some(job))
  }

  lemma AnsweredIs(env: Env, cipher: Option<SessionCipher.Cipher>, queue: seq<Incoming>, packets: seq<Bytes>, job: nat)
    ensures Answered(env, cipher, queue, packets, job) <==>
            exists m :: m in View(env, cipher, queue, packets).ahead && IsResponseTo(m, job)
  {
    var ahead := StreamOf(env, cipher, packets).ahead;
    if m :| m in queue + ahead && IsResponseTo(m, job) {
      if m !in queue {
        AheadExactly(env, cipher, packets, m);
      }
    }
    if m :| SomeArrives(env, cipher, packets, m) && m.emsg == 147 && m.header.jobTarget == Some(job) {
      AheadExactly(env, cipher, packets, m);
      assert m in queue + ahead && IsResponseTo(m, job);
    }
    if k :| 0 <= k < |queue| && queue[k].emsg == 147 && queue[k].header.jobTarget == Some(job) {
      assert queue[k] in queue + ahead && IsResponseTo(queue[k], job);
    }
  }

  /** All packets flattened; one that cannot be opened holds nothing. */
  function Flatten(env: Env, cipher: Option<SessionCipher.Cipher>, packets: seq<Bytes>): seq<Incoming>
  {
    if packets == [] then []
    else
      var first := Contents(env, cipher, packets[0]);
      (if first.Ok? then first.value else []) + Flatten(env, cipher, packets[1..])
  }

  /** What a reader meets: the messages up to the first packet that cannot be opened, or to the end, the error it then
      gets, and the packets left after that. */
  datatype Stream = Stream(ahead: seq<Incoming>, error: PumpError, left: seq<Bytes>)

  function StreamOf(env: Env, cipher: Option<SessionCipher.Cipher>, packets: seq<Bytes>): Stream
  {
    if packets == [] then Stream([], Disconnected, [])
    else
      match Contents(env, cipher, packets[0])
      case Err(e) => Stream([], e, packets[1..])
      case Ok(ms) => After(ms, StreamOf(env, cipher, packets[1..]))
  }

  function After(ms: seq<Incoming>, s: Stream): Stream
  {
    s.(ahead := ms + s.ahead)
  }

  lemma AfterAfter(a: seq<Incoming>, b: seq<Incoming>, s: Stream)
    ensures After(a, After(b, s)) == After(a + b, s)
  {
    assert a + (b + s.ahead) == a + b + s.ahead;
  }

  lemma AfterNothing(s: Stream)
    ensures After([], s) == s
  {
    assert [] + s.ahead == s.ahead;
  }

  /** Opening one packet. */
  lemma StreamStep(env: Env, cipher: Option<SessionCipher.Cipher>, packets: seq<Bytes>)
    ensures var s := StreamOf(env, cipher, packets);
            if packets == [] then s == Stream([], Disconnected, [])
            else if Opened(env, cipher, packets[0]).Err? then
                s == Stream([], Opened(env, cipher, packets[0]).error, packets[1..])
            else
              var m, more := Opened(env, cipher, packets[0]).value, StreamOf(env, cipher, packets[1..]);
              if m.emsg != MULTI then s == After([m], more)
              else
                match Multi.UnpackSpec(env.multi, m.body)
                case Err(e) => s == Stream([], Bundle(e), packets[1..])
                case Ok(parts) => s == After(ParsedParts(env.proto, parts), more)
  {
  }

  /** How many packets open before the first that does not. */
  function Openable(env: Env, cipher: Option<SessionCipher.Cipher>, packets: seq<Bytes>): (k: nat)
    ensures k <= |packets|
  {
    if packets == [] || Contents(env, cipher, packets[0]).Err? then 0 else 1 + Openable(env, cipher, packets[1..])
  }

  lemma {:induction false} OpenableIs(env: Env, cipher: Option<SessionCipher.Cipher>, packets: seq<Bytes>)
    ensures var k := Openable(env, cipher, packets);
            && (forall i | 0 <= i < k :: Contents(env, cipher, packets[i]).Ok?)
            && (k < |packets| ==> Contents(env, cipher, packets[k]).Err?)
  {
    if packets != [] && Contents(env, cipher, packets[0]).Ok? {
      OpenableIs(env, cipher, packets[1..]);
      assert forall i | 1 <= i < |packets| :: packets[i] == packets[1..][i - 1];
    }
  }

  /** The messages ahead are those of the packets that open; the error is the end of the packets, or that of the first
      one that does not open. */
  lemma {:induction false} StreamEnds(env: Env, cipher: Option<SessionCipher.Cipher>, packets: seq<Bytes>)
    ensures var s, k := StreamOf(env, cipher, packets), Openable(env, cipher, packets);
            && (forall i | 0 <= i < k :: Contents(env, cipher, packets[i]).Ok?)
            && s.ahead == Flatten(env, cipher, packets[..k])
            && if k == |packets| then s.error == Disconnected && s.left == []
               else Contents(env, cipher, packets[k]) == Err(s.error) && s.left == packets[k + 1..]
  {
    OpenableIs(env, cipher, packets);
    if packets != [] && Contents(env, cipher, packets[0]).Ok? {
      var k := Openable(env, cipher, packets);
      StreamEnds(env, cipher, packets[1..]);
      assert packets[..k][1..] == packets[1..][..k - 1];
      if k < |packets| {
        assert packets[1..][k - 1] == packets[k] && packets[1..][k..] == packets[k + 1..];
      }
    }
  }

  lemma {:induction false} FlattenSplit(env: Env, cipher: Option<SessionCipher.Cipher>, packets: seq<Bytes>)
    ensures var s := StreamOf(env, cipher, packets);
            Flatten(env, cipher, packets) == s.ahead + Flatten(env, cipher, s.left)
  {
    if packets != [] && Contents(env, cipher, packets[0]).Ok? {
      FlattenSplit(env, cipher, packets[1..]);
      var ms, s := Contents(env, cipher, packets[0]).value, StreamOf(env, cipher, packets[1..]);
      assert ms + (s.ahead + Flatten(env, cipher, s.left)) == ms + s.ahead + Flatten(env, cipher, s.left);
    }
  }

  // ---------------------------------------------------------------- routing

  predicate IsResponseTo(m: Incoming, job: nat)
  {
    m.emsg == SERVICE_METHOD_RESPONSE && m.header.jobTarget == Some(job)
  }

  /** The pending job a message is handed to, unless it is the caller's own. */
  function RoutedTo(m: Incoming, pending: set<nat>, except: Option<nat>): Option<nat>
  {
    if m.emsg == SERVICE_METHOD_RESPONSE && m.header.jobTarget.Some? && m.header.jobTarget != except
       && m.header.jobTarget.value in pending
    then m.header.jobTarget else None
  }

  datatype Routing = Routing(delivered: seq<(nat, Incoming)>, passed: seq<Incoming>, pending: set<nat>)

  /** Messages taken in order: the first for each pending job goes to its waiter, all others pass. */
  function Route(msgs: seq<Incoming>, pending: set<nat>, except: Option<nat>): Routing
  {
    if msgs == [] then Routing([], [], pending)
    else
      var r, m := Route(msgs[..|msgs| - 1], pending, except), msgs[|msgs| - 1];
      match RoutedTo(m, r.pending, except)
      case Some(job) => Routing(r.delivered + [(job, m)], r.passed, r.pending - {job})
      case None => r.(passed := r.passed + [m])
  }

  lemma RouteOne(msgs: seq<Incoming>, m: Incoming, pending: set<nat>, except: Option<nat>)
    ensures var r := Route(msgs, pending, except);
            Route(msgs + [m], pending, except) ==
            match RoutedTo(m, r.pending, except)
            case Some(job) => Routing(r.delivered + [(job, m)], r.passed, r.pending - {job})
            case None => r.(passed := r.passed + [m])
  {
    assert (msgs + [m])[..|msgs|] == msgs;
  }

  lemma {:induction false} RouteAppend(a: seq<Incoming>, b: seq<Incoming>, pending: set<nat>, except: Option<nat>)
    ensures var x := Route(a, pending, except);
            var y := Route(b, x.pending, except);
            Route(a + b, pending, except) == Routing(x.delivered + y.delivered, x.passed + y.passed, y.pending)
  {
    if b == [] {
      assert a + b == a;
    } else {
      var n := |b| - 1;
      RouteAppend(a, b[..n], pending, except);
      assert a + b == a + b[..n] + [b[n]] && b == b[..n] + [b[n]];
      RouteOne(a + b[..n], b[n], pending, except);
    }
  }

  /** Nothing is lost or duplicated by routing: the delivered and passed messages are the input. */
  lemma {:induction false} RouteConserves(msgs: seq<Incoming>, pending: set<nat>, except: Option<nat>)
    ensures var r := Route(msgs, pending, except);
            multiset(msgs) == multiset(Second(r.delivered)) + multiset(r.passed)
  {
    if msgs != [] {
      var n := |msgs| - 1;
      RouteConserves(msgs[..n], pending, except);
      assert msgs == msgs[..n] + [msgs[n]];
      var r := Route(msgs[..n], pending, except);
      var to := RoutedTo(msgs[n], r.pending, except);
      if to.Some? {
        SecondAppend(r.delivered, (to.value, msgs[n]));
      }
    }
  }

  /** Each waiter gets at most one message, an answer to its own job, and is pending no more; the caller's job gets
      none. */
  lemma {:induction false} RouteAnswersWaiters(msgs: seq<Incoming>, pending: set<nat>, except: Option<nat>)
    ensures var r := Route(msgs, pending, except);
            && r.pending <= pending
            && (forall i | 0 <= i < |r.delivered| ::
                  var (job, m) := r.delivered[i];
                  job in pending && job !in r.pending && Some(job) != except && IsResponseTo(m, job))
            && (forall i, j | 0 <= i < j < |r.delivered| :: r.delivered[i].0 != r.delivered[j].0)
            && (forall m, job | m in msgs && job in r.pending && Some(job) != except :: !IsResponseTo(m, job))
  {
    if msgs != [] {
      RouteAnswersWaiters(msgs[..|msgs| - 1], pending, except);
    }
  }

  function Second(s: seq<(nat, Incoming)>): seq<Incoming>
  {
    seq(|s|, i requires 0 <= i < |s| => s[i].1)
  }

  lemma SecondAppend(s: seq<(nat, Incoming)>, e: (nat, Incoming))
    ensures Second(s + [e]) == Second(s) + [e.1]
  {
  }

  /** Where routed messages end up. */
  datatype Mail = Mail(pending: set<nat>, delivered: seq<(nat, Incoming)>, events: seq<Incoming>)

  /** None of the messages answers `job`; in order, each went to its waiter if it had one, else to the event channel. */
  ghost predicate Forwarded(msgs: seq<Incoming>, job: nat, start: Mail, end: Mail)
  {
    var x := Route(msgs, start.pending, Some(job));
    && (forall i | 0 <= i < |msgs| :: !IsResponseTo(msgs[i], job))
    && end == Mail(x.pending, start.delivered + x.delivered, start.events + x.passed)
  }

  lemma ForwardedAppend(a: seq<Incoming>, b: seq<Incoming>, job: nat, start: Mail, mid: Mail, end: Mail)
    requires Forwarded(a, job, start, mid) && Forwarded(b, job, mid, end)
    ensures Forwarded(a + b, job, start, end)
  {
    var x, y := Route(a, start.pending, Some(job)), Route(b, mid.pending, Some(job));
    RouteAppend(a, b, start.pending, Some(job));
    assert start.delivered + x.delivered + y.delivered == start.delivered + (x.delivered + y.delivered);
    assert start.events + x.passed + y.passed == start.events + (x.passed + y.passed);
  }

  lemma ForwardedTaken(taken: seq<Incoming>, job: nat, start: Mail, end: Mail)
    requires var x := Route(taken, start.pending, Some(job));
             x.passed == [] && end == Mail(x.pending, start.delivered + x.delivered, start.events)
    ensures Forwarded(taken, job, start, end)
  {
    NoneOwn(taken, start.pending, job);
  }

  lemma ForwardedOne(taken: seq<Incoming>, m: Incoming, job: nat, start: Mail, end: Mail)
    requires var x := Route(taken, start.pending, Some(job));
             x.passed == [] && end == Mail(x.pending, start.delivered + x.delivered, start.events)
    requires !IsResponseTo(m, job) && RoutedTo(m, end.pending, Some(job)).None?
    ensures Forwarded(taken + [m], job, start, end.(events := end.events + [m]))
  {
    NoneOwn(taken, start.pending, job);
    RouteOne(taken, m, start.pending, Some(job));
  }

  // ---------------------------------------------------------------- the client

  function Held(r: Result<Incoming, PumpError>): seq<Incoming>
  {
    if r.Ok? then [r.value] else []
  }

  function View(env: Env, cipher: Option<SessionCipher.Cipher>, queue: seq<Incoming>, packets: seq<Bytes>): Stream
  {
    After(queue, StreamOf(env, cipher, packets))
  }

  /** What a result leaves of the stream, the result included. */
  function RestOf(env: Env, cipher: Option<SessionCipher.Cipher>, r: Result<Incoming, PumpError>, queue: seq<Incoming>,
                  packets: seq<Bytes>): Stream
  {
    match r
    case Ok(m) => After([m], View(env, cipher, queue, packets))
    case Err(e) => Stream([], e, packets)
  }

  /** Nothing of the backlog is lost either: an error skips one packet that holds nothing. */
  lemma BacklogFrom(env: Env, cipher: Option<SessionCipher.Cipher>, q: seq<Incoming>, ps: seq<Bytes>,
                    taken: seq<Incoming>,
                    r: Result<Incoming, PumpError>, q': seq<Incoming>, ps': seq<Bytes>)
    requires View(env, cipher, q, ps) == After(taken, RestOf(env, cipher, r, q', ps')) && (r.Err? ==> q' == [])
    ensures q + Flatten(env, cipher, ps) == taken + Held(r) + (q' + Flatten(env, cipher, ps'))
  {
    FlattenSplit(env, cipher, ps);
    var s := StreamOf(env, cipher, ps);
    var end := Flatten(env, cipher, s.left);
    Associate(q, s.ahead, end);
    if r.Ok? {
      FlattenSplit(env, cipher, ps');
      Regroup(taken, Held(r), q', StreamOf(env, cipher, ps').ahead, end);
    } else {
      NothingHeld(taken, end);
    }
  }

  lemma Associate(a: seq<Incoming>, b: seq<Incoming>, c: seq<Incoming>)
    ensures a + (b + c) == a + b + c
  {
  }

  lemma NothingHeld(taken: seq<Incoming>, rest: seq<Incoming>)
    ensures taken + [] + rest == taken + [] + ([] + rest)
  {
  }

  lemma TakenFirst(env: Env, cipher: Option<SessionCipher.Cipher>, q: seq<Incoming>, ps: seq<Bytes>,
                   r: Result<Incoming, PumpError>, q': seq<Incoming>, ps': seq<Bytes>)
    requires View(env, cipher, q, ps) == RestOf(env, cipher, r, q', ps') && (r.Err? ==> q' == [])
    ensures q + Flatten(env, cipher, ps) == Held(r) + (q' + Flatten(env, cipher, ps'))
  {
    AfterNothing(RestOf(env, cipher, r, q', ps'));
    BacklogFrom(env, cipher, q, ps, [], r, q', ps');
    assert [] + Held(r) == Held(r);
  }

  lemma FirstOf(queue: seq<Incoming>, s: Stream)
    requires queue != []
    ensures After(queue, s) == After([queue[0]], After(queue[1..], s))
  {
    assert queue == [queue[0]] + queue[1..];
    AfterAfter([queue[0]], queue[1..], s);
  }

  lemma Regroup(taken: seq<Incoming>, held: seq<Incoming>, queue: seq<Incoming>, ahead: seq<Incoming>,
                rest: seq<Incoming>)
    ensures taken + (held + (queue + ahead)) + rest == taken + held + (queue + (ahead + rest))
  {
  }

  /** If nothing before the end of a wait answers the job, the wait ends well exactly when something in the stream
      does. */
  lemma EndsWell(all: Stream, before: seq<Incoming>, rest: Stream, r: Result<Incoming, PumpError>, job: nat)
    requires all == After(before, rest) && forall i | 0 <= i < |before| :: !IsResponseTo(before[i], job)
    requires if r.Ok? then rest.ahead != [] && IsResponseTo(rest.ahead[0], job) else rest.ahead == []
    ensures r.Ok? <==> exists m :: m in all.ahead && IsResponseTo(m, job)
  {
    if r.Ok? {
      assert all.ahead[|before|] == rest.ahead[0];
    } else {
      assert before + [] == before;
    }
  }

  /** All of `taken` went to waiters. */
  ghost predicate AllRouted(taken: seq<Incoming>, except: Option<nat>, start: Mail, end: Mail)
  {
    var x := Route(taken, start.pending, except);
    x.passed == [] && end.delivered == start.delivered + x.delivered && end.pending == x.pending
  }

  lemma AllRoutedMore(taken: seq<Incoming>, m: Incoming, job: nat, except: Option<nat>, start: Mail, end: Mail)
    requires AllRouted(taken, except, start, end) && RoutedTo(m, end.pending, except) == Some(job)
    ensures AllRouted(taken + [m], except, start, Mail(end.pending - {job}, end.delivered + [(job, m)], end.events))
  {
    RouteOne(taken, m, start.pending, except);
  }

  class Client {
    const env: Env
    var packets: seq<Bytes>                 // what the transport will still yield
    var cipher: Option<SessionCipher.Cipher>
    var queue: seq<Incoming>
    var pending: set<nat>                   // jobs with a waiter
    var delivered: seq<(nat, Incoming)>     // handed to waiters
    var events: seq<Incoming>               // forwarded to the event channel
    var nextJobId: nat

    constructor (env: Env, packets: seq<Bytes>)
      ensures this.env == env && this.packets == packets && cipher.None? && queue == [] && pending == {}
      ensures delivered == [] && events == [] && nextJobId == 1
    {
      this.env, this.packets, cipher, queue, pending := env, packets, None, [], {};
      delivered, events, nextJobId := [], [], 1;
    }

    /** Every message not yet handled, in order. */
    ghost function Backlog(): seq<Incoming>
      reads this`packets, this`cipher, this`queue
    {
      queue + Flatten(env, cipher, packets)
    }

    ghost function Coming(): Stream
      reads this`packets, this`cipher, this`queue
    {
      View(env, cipher, queue, packets)
    }

    ghost function Rest(r: Result<Incoming, PumpError>): Stream
      reads this`packets, this`cipher, this`queue
    {
      RestOf(env, cipher, r, queue, packets)
    }

    /** Takes the next packet off the transport and opens it. */
    method NextPacket() returns (r: Result<Incoming, PumpError>)
      modifies `packets
      ensures old(packets) == [] ==> r == Err(Disconnected) && packets == []
      ensures old(packets) != [] ==> packets == old(packets)[1..] && r == Opened(env, cipher, old(packets)[0])
    {
      if packets == [] {
        return Err(Disconnected);
      }
      var raw := packets[0];
      packets := packets[1..];
      r := Opened(env, cipher, raw);
    }

    /** Queues the parts of a bundle that parse. */
    method QueueParts(parts: seq<Bytes>)
      modifies `queue
      ensures queue == old(queue) + ParsedParts(env.proto, parts)
    {
      for i := 0 to |parts|
        invariant queue == old(queue) + ParsedParts(env.proto, parts[..i])
      {
        assert parts[..i + 1][..i] == parts[..i];
        var m := ParseIncoming(env.proto, parts[i]);
        if m.Ok? {
          queue := queue + [m.value];
        }
      }
      assert parts[..|parts|] == parts;
    }

    /** Reads one packet when the queue is empty: it yields a message or an error, or fills the queue. */
    method ReadPacket() returns (done: bool, r: Result<Incoming, PumpError>)
      requires queue == []
      modifies `packets, `queue
      ensures old(Coming()) == if done then Rest(r) else Coming()
      ensures if done then queue == [] else |packets| < |old(packets)|
    {
      ghost var was := packets;
      AfterNothing(StreamOf(env, cipher, was));
      StreamStep(env, cipher, was);
      var incoming := NextPacket();
      AfterNothing(StreamOf(env, cipher, packets));
      if incoming.Err? {
        return true, Err(incoming.error);
      }
      if incoming.value.emsg != MULTI {
        return true, incoming;
      }
      var parts := Multi.UnpackMulti(env.multi, incoming.value.body);
      if parts.Err? {
        return true, Err(Bundle(parts.error));
      }
      QueueParts(parts.value);
      done, r := false, incoming;
      assert queue == ParsedParts(env.proto, parts.value);
    }

    /** The next message of the stream: from the queue, or from a packet once the queue is empty. An error comes only
        where the stream ends, and is the one it ends with. */
    method TakeMessage() returns (r: Result<Incoming, PumpError>)
      modifies `packets, `queue
      ensures old(Coming()) == Rest(r) && (r.Err? ==> queue == [])
      ensures r.Ok? ==> old(Backlog()) == [r.value] + Backlog()
      ensures r.Err? ==> old(Backlog()) == Backlog()
    {
      ghost var q, ps, all := queue, packets, Coming();
      AfterNothing(all);
      var done := false;
      while queue == []
        invariant all == Coming()
        decreases |packets|
      {
        done, r := ReadPacket();
        if done {
          TakenFirst(env, cipher, q, ps, r, queue, packets);
          return;
        }
      }
      r := Ok(queue[0]);
      FirstOf(queue, StreamOf(env, cipher, packets));
      queue := queue[1..];
      TakenFirst(env, cipher, q, ps, r, queue, packets);
    }

    /** Both receive functions: `except` is the caller's own job, if it waits for one. `taken` are the messages
        handed to waiters before this one. On an error too, every message before the failing packet has been routed,
        in order. */
    method RecvRouted(except: Option<nat>) returns (r: Result<Incoming, PumpError>, ghost taken: seq<Incoming>)
      modifies `packets, `queue, `pending, `delivered
      ensures old(Coming()) == After(taken, Rest(r))
      ensures old(Backlog()) == taken + (if r.Ok? then [r.value] else []) + Backlog()
      ensures var x := Route(taken, old(pending), except);
              x.passed == [] && delivered == old(delivered) + x.delivered && pending == x.pending
      ensures r.Ok? ==> RoutedTo(r.value, pending, except).None?
      ensures r.Err? ==> queue == []
    {
      taken := [];
      ghost var q, ps, all, start := queue, packets, Coming(), Mail(pending, delivered, events);
      r := TakeMessage();
      ghost var rest := Rest(r);
      AfterNothing(rest);
      while r.Ok? && RoutedTo(r.value, pending, except).Some?
        invariant rest == Rest(r) && all == After(taken, rest)
        invariant AllRouted(taken, except, start, Mail(pending, delivered, events))
        invariant r.Err? ==> queue == []
        decreases |rest.ahead|
      {
        var m, job := r.value, RoutedTo(r.value, pending, except).value;
        AllRoutedMore(taken, m, job, except, start, Mail(pending, delivered, events));
        AfterAfter(taken, [m], Coming());
        r := PassOn(job, m);
        taken := taken + [m];
        rest := Rest(r);
      }
      BacklogFrom(env, cipher, q, ps, taken, r, queue, packets);
    }

    /** Hands a response to its waiter and takes the next message. */
    method PassOn(job: nat, m: Incoming) returns (r: Result<Incoming, PumpError>)
      modifies `packets, `queue, `pending, `delivered
      ensures pending == old(pending) - {job} && delivered == old(delivered) + [(job, m)]
      ensures old(Coming()) == Rest(r) && (r.Err? ==> queue == [])
    {
      pending := pending - {job};
      delivered := delivered + [(job, m)];
      r := TakeMessage();
    }

    /** One turn of a call's loop: the message received is the call's own response, or is forwarded to the event
        channel. */
    method ForwardNext(job: nat) returns (done: bool, r: Result<Incoming, PumpError>, ghost msgs: seq<Incoming>)
      modifies `packets, `queue, `pending, `delivered, `events
      ensures old(Coming()) == After(msgs, if done then Rest(r) else Coming())
      ensures r.Err? ==> done && queue == []
      ensures if done then r.Ok? ==> IsResponseTo(r.value, job) else msgs != []
      ensures Forwarded(msgs, job, Mail(old(pending), old(delivered), old(events)), Mail(pending, delivered, events))
    {
      ghost var start := Mail(pending, delivered, events);
      r, msgs := RecvRouted(Some(job));
      done := r.Err? || (r.value.emsg == SERVICE_METHOD_RESPONSE && r.value.header.jobTarget == Some(job));
      ghost var mid := Mail(pending, delivered, events);
      if done {
        ForwardedTaken(msgs, job, start, mid);
      } else {
        ForwardedOne(msgs, r.value, job, start, mid);
        AfterAfter(msgs, [r.value], Coming());
        events := events + [r.value];
        msgs := msgs + [r.value];
      }
    }

    /** A service call after its request was sent: it returns the first message of the stream that answers its own job,
        and fails exactly when the stream ends without one, with the error the stream ends with. Every earlier message
        (`before`) went, in order, to a pending waiter or to the event channel. */
    method AwaitResponse(job: nat) returns (r: Result<Incoming, PumpError>, ghost before: seq<Incoming>)
      modifies `packets, `queue, `pending, `delivered, `events
      ensures r.Ok? <==> Answered(env, cipher, old(queue), old(packets), job)
      ensures r.Ok? ==> r.value.emsg == 147 && r.value.header.jobTarget == Some(job)
      ensures r.Ok? <==> exists m :: m in old(Coming()).ahead && IsResponseTo(m, job)
      ensures old(Coming()) == After(before, Rest(r)) && (r.Err? ==> queue == [])
      ensures old(Backlog()) == before + (if r.Ok? then [r.value] else []) + Backlog()
      ensures r.Ok? ==> IsResponseTo(r.value, job)
      ensures Forwarded(before, job, Mail(old(pending), old(delivered), old(events)), Mail(pending, delivered, events))
    {
      ghost var q, ps, all, start := queue, packets, Coming(), Mail(pending, delivered, events);
      var done;
      done, r, before := ForwardNext(job);
      ghost var rest := if done then Rest(r) else Coming();
      while !done
        invariant rest == (if done then Rest(r) else Coming()) && all == After(before, rest)
        invariant r.Err? ==> done && queue == []
        invariant done && r.Ok? ==> IsResponseTo(r.value, job)
        invariant Forwarded(before, job, start, Mail(pending, delivered, events))
        decreases !done, |rest.ahead|
      {
        ghost var mid := Mail(pending, delivered, events);
        ghost var msgs;
        done, r, msgs := ForwardNext(job);
        ForwardedAppend(before, msgs, job, start, mid, Mail(pending, delivered, events));
        rest := if done then Rest(r) else Coming();
        AfterAfter(before, msgs, rest);
        before := before + msgs;
      }
      BacklogFrom(env, cipher, q, ps, before, r, queue, packets);
      EndsWell(all, before, rest, r, job);
      AnsweredIs(env, cipher, q, ps, job);
    }

    /** `fetch_add`, the wait, and the check of the result code the response carries. */
    method CallServiceMethod()
      returns (r: Result<Bytes, PumpError>, ghost before: seq<Incoming>, ghost response: Option<Incoming>)
      modifies `packets, `queue, `pending, `delivered, `events, `nextJobId
      ensures nextJobId == (old(nextJobId) + 1) % U64
      ensures response.Some? <==> Answered(env, cipher, old(queue), old(packets), old(nextJobId))
      ensures response.Some? <==> exists m :: m in old(Coming()).ahead && IsResponseTo(m, old(nextJobId))
      ensures if response.Some? then old(Coming()) == After(before + [response.value], Coming())
              else r.Err? && old(Coming()) == Stream(before, r.error, packets) && queue == []
      ensures old(Backlog()) == before + (if response.Some? then [response.value] else []) + Backlog()
      ensures r.Ok? ==> response.Some? && r.value == response.value.body
      ensures response.Some? ==> IsResponseTo(response.value, old(nextJobId))
                                 && (r.Ok? <==> response.value.header.eresult in {None, Some(1)})
                                 && (r.Err? ==> Some(r.error) == match response.value.header.eresult
                                                                 case None => None
                                                                 case Some(e) => Some(ServiceFailed(e)))
      ensures Forwarded(before, old(nextJobId), Mail(old(pending), old(delivered), old(events)),
                Mail(pending, delivered, events))
    {
      var job := nextJobId;
      nextJobId := (nextJobId + 1) % U64;
      var m, earlier := AwaitResponse(job);
      before := earlier;
      if m.Ok? {
        AfterAfter(before, [m.value], Coming());
      } else {
        assert before + [] == before;
      }
      if m.Err? {
        response := None;
        return Err(m.error), before, response;
      }
      response := Some(m.value);
      r := if m.value.header.eresult.Some? && m.value.header.eresult.value != 1
           then Err(ServiceFailed(m.value.header.eresult.value)) else Ok(m.value.body);
    }
  }

  /** Messages that were all routed past a caller include none of its own responses. */
  lemma {:induction false} NoneOwn(taken: seq<Incoming>, pending: set<nat>, job: nat)
    requires Route(taken, pending, Some(job)).passed == []
    ensures forall i | 0 <= i < |taken| :: !IsResponseTo(taken[i], job)
  {
    if taken != [] {
      NoneOwn(taken[..|taken| - 1], pending, job);
    }
  }
}
