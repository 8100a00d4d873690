/** The daemon protocol as a transition system: client queue, stdin pipe, server, stdout pipe. */
module DaemonRuns {
  import opened Wrappers
  import opened DaemonClient

  /** A line on the stdout pipe; `source` is the request it answers, absent for a stray line. */
  datatype Reply = Reply(source: Option<Id>, line: Line)

  /** One handle with its process. `answers` records what the server said to each request, `matches`
      which request each consumed line settled and which request it was the answer to. */
  datatype System = System(
    client: Client,
    stdin: seq<Id>,
    working: Option<Id>,
    stdout: seq<Reply>,
    answers: map<Id, Line>,
    matches: seq<(Id, Option<Id>)>)

  const INITIAL := System(FRESH_CLIENT, [], None, [], map[], [])

  datatype Event =
    | Issue(id: Id)
    | ServerReads
    | ServerAnswers(line: Line)
    | Stray(line: Line)
    | Deliver
    | Timeout(id: Id)
    | Gone

  /** The promises settled so far. */
  function SettledIds(log: seq<Settlement>): set<Id> {
    if log == [] then {} else SettledIds(log[..|log| - 1]) + {log[|log| - 1].id}
  }

  /** No promise is settled twice. */
  predicate SettledOnce(log: seq<Settlement>) {
    log == [] || (SettledOnce(log[..|log| - 1]) && log[|log| - 1].id !in SettledIds(log[..|log| - 1]))
  }

  predicate Enabled(s: System, e: Event) {
    match e
    case Issue(id) => id !in s.client.written && id !in SettledIds(s.client.settled)
    case ServerReads => s.working.None? && s.stdin != []
    case ServerAnswers(line) => s.working.Some? && !line.Other?
    case Stray(line) => true
    case Deliver => s.stdout != []
    case Timeout(id) => id in s.client.timers
    case Gone => true
  }

  function Apply(s: System, e: Event): System
    requires Enabled(s, e)
  {
    match e
    case Issue(id) =>
      s.(client := OnQuery(s.client, id), stdin := if s.client.dead then s.stdin else s.stdin + [id])
    case ServerReads =>
      s.(working := Some(s.stdin[0]), stdin := s.stdin[1..])
    case ServerAnswers(line) =>
      s.(working := None, stdout := s.stdout + [Reply(s.working, line)], answers := s.answers[s.working.value := line])
    case Stray(line) =>
      s.(stdout := s.stdout + [Reply(None, line)])
    case Deliver =>
      s.(client := OnLine(s.client, s.stdout[0].line), stdout := s.stdout[1..],
         matches := if s.client.queue == [] then s.matches
                    else s.matches + [(s.client.queue[0], s.stdout[0].source)])
    case Timeout(id) => s.(client := OnTimeout(s.client, id))
    case Gone => s.(client := OnGone(s.client))
  }

  ghost predicate IsRun(s: System, events: seq<Event>)
    decreases |events|
  {
    events == [] || (Enabled(s, events[0]) && IsRun(Apply(s, events[0]), events[1..]))
  }

  ghost function After(s: System, events: seq<Event>): System
    requires IsRun(s, events)
    decreases |events|
  {
    if events == [] then s else After(Apply(s, events[0]), events[1..])
  }

  // ---- Settlement ----

  predicate Distinct(ids: seq<Id>) {
    forall i, j | 0 <= i < j < |ids| :: ids[i] != ids[j]
  }

  /** Every accepted request is in the queue exactly while unsettled, with a live timer; nothing is
      settled twice; a dead handle has nothing pending. */
  ghost predicate Accounted(c: Client) {
    && Distinct(c.written)
    && Distinct(c.queue)
    && SettledOnce(c.settled)
    && (forall id :: id in c.queue <==> id in c.written && id !in SettledIds(c.settled))
    && (forall id :: id in c.timers <==> id in c.queue)
    && (c.dead ==> c.queue == [])
  }

  lemma {:induction false} SettledAt(log: seq<Settlement>, k: nat)
    requires k < |log|
    ensures log[k].id in SettledIds(log)
  {
    if k < |log| - 1 {
      SettledAt(log[..|log| - 1], k);
    }
  }

  /** `SettledOnce` spelled out: two settlements are never of the same promise. */
  lemma {:induction false} SettledOnceMeansDistinct(log: seq<Settlement>, i: nat, j: nat)
    requires SettledOnce(log) && i < j < |log|
    ensures log[i].id != log[j].id
  {
    if j < |log| - 1 {
      SettledOnceMeansDistinct(log[..|log| - 1], i, j);
    } else {
      SettledAt(log[..|log| - 1], i);
    }
  }

  lemma SettleOne(log: seq<Settlement>, id: Id, outcome: Outcome)
    ensures SettledIds(log + [Settlement(id, outcome)]) == SettledIds(log) + {id}
    ensures id !in SettledIds(log) && SettledOnce(log) ==> SettledOnce(log + [Settlement(id, outcome)])
  {
    var longer := log + [Settlement(id, outcome)];
    assert longer[..|longer| - 1] == log;
  }

  lemma HeadOnlyOnce(ids: seq<Id>)
    requires ids != [] && Distinct(ids)
    ensures ids[0] !in ids[1..] && Distinct(ids[1..])
    ensures forall id :: id in ids[1..] <==> id in ids && id != ids[0]
  {
    assert forall k | 0 <= k < |ids[1..]| :: ids[1..][k] == ids[k + 1];
    assert ids == [ids[0]] + ids[1..];
  }

  lemma AllGoneCons(log: seq<Settlement>, ids: seq<Id>)
    requires ids != []
    ensures log + AllGone(ids) == log + [Settlement(ids[0], ProcessGone)] + AllGone(ids[1..])
  {
    var left, right := log + AllGone(ids), log + [Settlement(ids[0], ProcessGone)] + AllGone(ids[1..]);
    forall k | 0 <= k < |left|
      ensures left[k] == right[k]
    {
      if k > |log| {
        assert right[k] == AllGone(ids[1..])[k - |log| - 1];
      }
    }
  }

  lemma {:induction false} SettleMany(log: seq<Settlement>, ids: seq<Id>)
    requires Distinct(ids) && SettledOnce(log) && forall id | id in ids :: id !in SettledIds(log)
    ensures forall id :: id in SettledIds(log + AllGone(ids)) <==> id in SettledIds(log) || id in ids
    ensures SettledOnce(log + AllGone(ids))
    decreases |ids|
  {
    if ids == [] {
      assert log + AllGone(ids) == log;
    } else {
      var first, longer := ids[0], log + [Settlement(ids[0], ProcessGone)];
      HeadOnlyOnce(ids);
      SettleOne(log, first, ProcessGone);
      assert forall id | id in ids[1..] :: id !in SettledIds(log) + {first};
      SettleMany(longer, ids[1..]);
      AllGoneCons(log, ids);
    }
  }

  lemma LineKeepsAccounts(c: Client, line: Line)
    requires Accounted(c)
    ensures Accounted(OnLine(c, line))
    ensures c.queue != [] ==> SettledIds(OnLine(c, line).settled) == SettledIds(c.settled) + {c.queue[0]}
  {
    if c.queue != [] {
      SettleOne(c.settled, c.queue[0], OutcomeOf(line));
      HeadOnlyOnce(c.queue);
    }
  }

  lemma GoneKeepsAccounts(c: Client)
    requires Accounted(c)
    ensures Accounted(OnGone(c))
    ensures forall id :: id in SettledIds(OnGone(c).settled) <==> id in SettledIds(c.settled) || id in c.queue
  {
    SettleMany(c.settled, c.queue);
  }

  lemma {:induction false} WithoutRemoves(ids: seq<Id>, id: Id)
    requires Distinct(ids)
    ensures Distinct(Without(ids, id))
    ensures forall x :: x in Without(ids, id) <==> x in ids && x != id
  {
    if ids != [] {
      HeadOnlyOnce(ids);
      WithoutRemoves(ids[1..], id);
    }
  }

  lemma TimeoutKeepsAccounts(c: Client, id: Id)
    requires Accounted(c) && id in c.timers
    ensures Accounted(OnTimeout(c, id))
    ensures SettledIds(OnTimeout(c, id).settled) == SettledIds(c.settled) + {id}
  {
    SettleOne(c.settled, id, TimedOut);
    WithoutRemoves(c.queue, id);
  }

  lemma QueryKeepsAccounts(c: Client, id: Id)
    requires Accounted(c) && id !in c.written && id !in SettledIds(c.settled)
    ensures Accounted(OnQuery(c, id))
    ensures SettledIds(OnQuery(c, id).settled) == SettledIds(c.settled) + (if c.dead then {id} else {})
  {
    SettleOne(c.settled, id, AlreadyDead);
  }

  lemma StepKeepsAccounts(s: System, e: Event)
    requires Accounted(s.client) && Enabled(s, e)
    ensures Accounted(Apply(s, e).client)
    ensures s.client.dead ==> Apply(s, e).client.dead
  {
    match e
    case Issue(id) => QueryKeepsAccounts(s.client, id);
    case Deliver => LineKeepsAccounts(s.client, s.stdout[0].line);
    case Timeout(id) => TimeoutKeepsAccounts(s.client, id);
    case Gone => GoneKeepsAccounts(s.client);
    case _ =>
  }

  /** Settlement over all runs: timeouts, stray lines, exits and spawn errors included. */
  lemma {:induction false} RunKeepsAccounts(s: System, events: seq<Event>)
    requires Accounted(s.client) && IsRun(s, events)
    ensures Accounted(After(s, events).client)
    ensures s.client.dead ==> After(s, events).client.dead && After(s, events).client.queue == []
    decreases |events|
  {
    if events != [] {
      StepKeepsAccounts(s, events[0]);
      RunKeepsAccounts(Apply(s, events[0]), events[1..]);
    }
  }

  // ---- Correlation ----

  function SourceOf(reply: Reply): seq<Id> {
    if reply.source.Some? then [reply.source.value] else []
  }

  function Sources(replies: seq<Reply>): seq<Id> {
    if replies == [] then []
    else SourceOf(replies[0]) + Sources(replies[1..])
  }

  /** The requests whose answer has not been consumed, oldest first. */
  function InFlight(s: System): seq<Id> {
    Sources(s.stdout) + (if s.working.Some? then [s.working.value] else []) + s.stdin
  }

  function Unsettled(ids: seq<Id>, done: set<Id>): seq<Id> {
    if ids == [] then []
    else (if ids[0] in done then [] else [ids[0]]) + Unsettled(ids[1..], done)
  }

  /** Every line in the stdout pipe that answers a request holds what the server said to it. */
  ghost predicate Answered(stdout: seq<Reply>, answers: map<Id, Line>) {
    forall k | 0 <= k < |stdout| && stdout[k].source.Some? ::
      && stdout[k].source.value in answers
      && answers[stdout[k].source.value] == stdout[k].line
      && !stdout[k].line.Other?
  }

  /** The queue is, in order, the unsettled part of what is in flight. */
  ghost predicate QueueFollows(flight: seq<Id>, c: Client) {
    && Distinct(flight)
    && (forall id | id in flight :: id in c.written)
    && c.queue == Unsettled(flight, SettledIds(c.settled))
  }

  /** The alignment invariant. */
  ghost predicate Aligned(s: System) {
    && Accounted(s.client)
    && Answered(s.stdout, s.answers)
    && QueueFollows(InFlight(s), s.client)
  }

  lemma SourcesHead(head: Reply, tail: seq<Reply>)
    ensures Sources([head] + tail) == SourceOf(head) + Sources(tail)
  {
    assert ([head] + tail)[1..] == tail;
  }

  lemma {:induction false} SourcesGrow(stdout: seq<Reply>, reply: Reply)
    ensures Sources(stdout + [reply]) == Sources(stdout) + SourceOf(reply)
    decreases stdout, 0
  {
    if stdout == [] {
      assert [] + [reply] == [reply] + [];
      SourcesHead(reply, []);
    } else {
      var head, tail := stdout[0], stdout[1..];
      assert stdout == [head] + tail && stdout + [reply] == [head] + (tail + [reply]);
      SourcesGrowTail(head, tail, reply);
    }
  }

  lemma {:induction false} SourcesGrowTail(head: Reply, tail: seq<Reply>, reply: Reply)
    ensures Sources([head] + (tail + [reply])) == Sources([head] + tail) + SourceOf(reply)
    decreases tail, 1
  {
    SourcesHead(head, tail + [reply]);
    SourcesHead(head, tail);
    SourcesGrow(tail, reply);
  }

  lemma {:induction false} SourceListed(replies: seq<Reply>, k: nat)
    requires k < |replies| && replies[k].source.Some?
    ensures replies[k].source.value in Sources(replies)
  {
    if k > 0 {
      SourceListed(replies[1..], k - 1);
    }
  }

  lemma {:induction false} UnsettledAppend(a: seq<Id>, b: seq<Id>, done: set<Id>)
    ensures Unsettled(a + b, done) == Unsettled(a, done) + Unsettled(b, done)
  {
    if a == [] {
      assert a + b == b;
    } else {
      assert (a + b)[1..] == a[1..] + b;
      UnsettledAppend(a[1..], b, done);
    }
  }

  lemma {:induction false} UnsettledMembers(ids: seq<Id>, done: set<Id>)
    ensures forall id :: id in Unsettled(ids, done) <==> id in ids && id !in done
  {
    if ids != [] {
      UnsettledMembers(ids[1..], done);
      assert ids == [ids[0]] + ids[1..];
    }
  }

  /** Settling one more request drops it from the unsettled part. */
  lemma {:induction false} UnsettledWithout(ids: seq<Id>, done: set<Id>, id: Id)
    requires Distinct(ids)
    ensures Unsettled(ids, done + {id}) == Without(Unsettled(ids, done), id)
  {
    if ids != [] {
      UnsettledWithout(ids[1..], done, id);
      UnsettledMembers(ids[1..], done);
      HeadOnlyOnce(ids);
      var rest := Unsettled(ids[1..], done);
      assert ([ids[0]] + rest)[1..] == rest && [] + rest == rest;
      if ids[0] == id {
        WithoutAbsent(rest, id);
        assert Unsettled(ids, done + {id}) == rest;
      }
    }
  }

  lemma {:induction false} WithoutAbsent(ids: seq<Id>, id: Id)
    ensures id !in ids ==> Without(ids, id) == ids
  {
    if ids != [] {
      WithoutAbsent(ids[1..], id);
      assert ids == [ids[0]] + ids[1..];
    }
  }

  lemma {:induction false} UnsettledNone(ids: seq<Id>, done: set<Id>)
    requires forall id | id in ids :: id in done
    ensures Unsettled(ids, done) == []
  {
    if ids != [] {
      UnsettledNone(ids[1..], done);
    }
  }

  lemma QueryFollows(flight: seq<Id>, c: Client, id: Id)
    requires Accounted(c) && QueueFollows(flight, c) && id !in c.written && id !in SettledIds(c.settled)
    ensures QueueFollows(if c.dead then flight else flight + [id], OnQuery(c, id))
  {
    QueryKeepsAccounts(c, id);
    if c.dead {
      UnsettledWithout(flight, SettledIds(c.settled), id);
    } else {
      UnsettledAppend(flight, [id], SettledIds(c.settled));
      assert Unsettled([id], SettledIds(c.settled)) == [id] + Unsettled([], SettledIds(c.settled));
    }
  }

  lemma LineFollows(flight: seq<Id>, c: Client, line: Line)
    requires Accounted(c) && QueueFollows(flight, c) && flight != []
    ensures QueueFollows(flight[1..], OnLine(c, line))
  {
    LineKeepsAccounts(c, line);
    HeadOnlyOnce(flight);
    var done := SettledIds(c.settled);
    UnsettledMembers(flight, done);
    if c.queue != [] {
      var first := c.queue[0];
      UnsettledWithout(flight, done, first);
      assert Without(c.queue, first) == c.queue[1..];
      assert c.queue[0] in c.queue;
      assert flight[0] in done || first == flight[0];
      assert Unsettled(flight, done + {first}) == Unsettled(flight[1..], done + {first});
    }
  }

  lemma TimeoutFollows(flight: seq<Id>, c: Client, id: Id)
    requires Accounted(c) && QueueFollows(flight, c) && id in c.timers
    ensures QueueFollows(flight, OnTimeout(c, id))
  {
    TimeoutKeepsAccounts(c, id);
    UnsettledWithout(flight, SettledIds(c.settled), id);
  }

  lemma GoneFollows(flight: seq<Id>, c: Client)
    requires Accounted(c) && QueueFollows(flight, c)
    ensures QueueFollows(flight, OnGone(c))
  {
    GoneKeepsAccounts(c);
    UnsettledMembers(flight, SettledIds(c.settled));
    UnsettledNone(flight, SettledIds(OnGone(c).settled));
  }

  /** A stray line settles the oldest waiting request without any answer having left the pipe. */
  lemma StrayFollows(flight: seq<Id>, c: Client, line: Line)
    requires Accounted(c) && QueueFollows(flight, c)
    ensures QueueFollows(flight, OnLine(c, line))
  {
    LineKeepsAccounts(c, line);
    if c.queue != [] {
      UnsettledWithout(flight, SettledIds(c.settled), c.queue[0]);
      assert Without(c.queue, c.queue[0]) == c.queue[1..];
    }
  }

  lemma FlightOfReply(s: System, reply: Reply)
    requires reply.source == s.working || reply.source == None
    ensures InFlight(s.(working := if reply.source.Some? then None else s.working, stdout := s.stdout + [reply]))
         == InFlight(s)
  {
    SourcesGrow(s.stdout, reply);
  }

  lemma FlightOfDeliver(s: System)
    requires s.stdout != []
    ensures InFlight(s)
         == SourceOf(s.stdout[0]) + InFlight(Apply(s, Deliver))
  {
  }

  /** What each event does to the requests in flight; stray lines count for nothing. */
  lemma FlightOfStep(s: System, e: Event)
    requires Enabled(s, e)
    ensures InFlight(Apply(s, e)) ==
      if e.Issue? && !s.client.dead then InFlight(s) + [e.id]
      else if e.Deliver? && s.stdout[0].source.Some? then InFlight(s)[1..]
      else InFlight(s)
    ensures e.Deliver? && s.stdout[0].source.Some? ==> InFlight(s) == [s.stdout[0].source.value] + InFlight(Apply(s, e))
  {
    match e
    case Issue(id) =>
      if !s.client.dead {
      }
    case ServerReads => assert s.stdin == [s.stdin[0]] + s.stdin[1..];
    case ServerAnswers(line) => FlightOfReply(s, Reply(s.working, line));
    case Stray(line) => FlightOfReply(s, Reply(None, line));
    case Deliver => FlightOfDeliver(s);
    case _ =>
  }

  lemma StepKeepsAnswered(s: System, e: Event)
    requires Answered(s.stdout, s.answers) && Distinct(InFlight(s)) && Enabled(s, e)
    ensures Answered(Apply(s, e).stdout, Apply(s, e).answers)
  {
    if e.ServerAnswers? {
      forall k | 0 <= k < |s.stdout| && s.stdout[k].source.Some?
        ensures s.stdout[k].source.value != s.working.value
      {
        NotWorkingTwice(s, k);
      }
    }
  }

  lemma NotWorkingTwice(s: System, k: nat)
    requires Distinct(InFlight(s)) && s.working.Some? && k < |s.stdout| && s.stdout[k].source.Some?
    ensures s.stdout[k].source.value != s.working.value
  {
    SourceListed(s.stdout, k);
    var sources := Sources(s.stdout);
    var i :| 0 <= i < |sources| && sources[i] == s.stdout[k].source.value;
    assert InFlight(s)[i] == sources[i] && InFlight(s)[|sources|] == s.working.value;
  }

  /** Whatever happens, timeouts, exits and stray lines included. */
  lemma StepKeepsAligned(s: System, e: Event)
    requires Aligned(s) && Enabled(s, e)
    ensures Aligned(Apply(s, e))
  {
    StepKeepsAccounts(s, e);
    FlightOfStep(s, e);
    StepKeepsAnswered(s, e);
    match e
    case Issue(id) => QueryFollows(InFlight(s), s.client, id);
    case ServerReads =>
    case ServerAnswers(_) =>
    case Stray(_) =>
    case Deliver =>
      if s.stdout[0].source.Some? {
        LineFollows(InFlight(s), s.client, s.stdout[0].line);
      } else {
        StrayFollows(InFlight(s), s.client, s.stdout[0].line);
      }
    case Timeout(id) => TimeoutFollows(InFlight(s), s.client, id);
    case Gone => GoneFollows(InFlight(s), s.client);
  }

  /** A delivery that settles a request with a line that is not its answer: somebody is waiting, and
      the line is stray or comes too late for a request that has already been settled. */
  ghost predicate Misdelivers(s: System, e: Event) {
    && e.Deliver?
    && s.stdout != []
    && (s.stdout[0].source.Some? ==> s.stdout[0].source.value in SettledIds(s.client.settled))
    && s.client.queue != []
  }

  ghost predicate NeverMisdelivers(s: System, events: seq<Event>)
    requires IsRun(s, events)
    decreases |events|
  {
    events == [] || (!Misdelivers(s, events[0]) && NeverMisdelivers(Apply(s, events[0]), events[1..]))
  }

  ghost predicate AllMatched(s: System) {
    forall k | 0 <= k < |s.matches| :: s.matches[k].1 == Some(s.matches[k].0)
  }

  /** In any aligned state an answer reaches its own request exactly when that request is still pending. */
  lemma AnswerFindsItsRequest(s: System)
    requires Aligned(s) && s.stdout != [] && s.stdout[0].source.Some?
    ensures var head := s.stdout[0].source.value;
      head !in SettledIds(s.client.settled) <==> s.client.queue != [] && s.client.queue[0] == head
  {
    FlightOfStep(s, Deliver);
    UnsettledMembers(InFlight(s), SettledIds(s.client.settled));
    if s.client.queue != [] {
      assert s.client.queue[0] in s.client.queue;
    }
  }

  lemma DeliveryIsRightUnlessLate(s: System)
    requires Aligned(s) && s.stdout != [] && AllMatched(s)
    ensures AllMatched(Apply(s, Deliver)) <==> !Misdelivers(s, Deliver)
  {
    if s.stdout[0].source.Some? {
      AnswerFindsItsRequest(s);
    }
    if s.client.queue != [] {
      var t := Apply(s, Deliver);
      assert t.matches[|s.matches|] == (s.client.queue[0], s.stdout[0].source);
    }
  }

  /** Over all runs, timeouts, exits and stray lines included: every consumed line settled its own
      request if and only if no stray line and no late answer met a waiting request. */
  lemma {:induction false} MatchedIffNeverMisdelivers(s: System, events: seq<Event>)
    requires Aligned(s) && AllMatched(s) && IsRun(s, events)
    ensures AllMatched(After(s, events)) <==> NeverMisdelivers(s, events)
    decreases |events|
  {
    if events != [] {
      var e, t := events[0], Apply(s, events[0]);
      StepKeepsAligned(s, e);
      if e.Deliver? {
        DeliveryIsRightUnlessLate(s);
      }
      if AllMatched(t) {
        MatchedIffNeverMisdelivers(t, events[1..]);
      } else {
        MismatchStays(t, events[1..]);
      }
    }
  }

  lemma {:induction false} MismatchStays(s: System, events: seq<Event>)
    requires !AllMatched(s) && IsRun(s, events)
    ensures !AllMatched(After(s, events))
    decreases |events|
  {
    if events != [] {
      assert s.matches <= Apply(s, events[0]).matches;
      MismatchStays(Apply(s, events[0]), events[1..]);
    }
  }

  /** Every settlement made by a line carries what the server said to that very request. */
  ghost predicate Correlated(log: seq<Settlement>, answers: map<Id, Line>) {
    forall k | 0 <= k < |log| ::
      && !log[k].outcome.UnexpectedLine?
      && (log[k].outcome.Resolved? || log[k].outcome.ServerError? ==>
            log[k].id in answers && log[k].outcome == OutcomeOf(answers[log[k].id]))
  }

  /** Answered requests have left the pipe and the server. */
  ghost predicate AnsweredLeft(s: System) {
    forall id | id in s.answers :: id in s.client.written && id !in s.stdin && s.working != Some(id)
  }

  /** What is kept as long as nothing is misdelivered. */
  ghost predicate Truthful(s: System) {
    && Aligned(s)
    && Correlated(s.client.settled, s.answers)
    && AnsweredLeft(s)
  }

  lemma StepKeepsTruthful(s: System, e: Event)
    requires Truthful(s) && Enabled(s, e) && !Misdelivers(s, e)
    ensures Truthful(Apply(s, e))
  {
    StepKeepsAligned(s, e);
    StepKeepsCorrelated(s, e);
    StepKeepsAnsweredLeft(s, e);
  }

  lemma StepKeepsCorrelated(s: System, e: Event)
    requires Truthful(s) && Enabled(s, e) && !Misdelivers(s, e)
    ensures Correlated(Apply(s, e).client.settled, Apply(s, e).answers)
  {
    match e
    case ServerAnswers(line) => NewAnswerKeepsCorrelated(s, line);
    case Deliver =>
      if s.client.queue != [] {
        AnswerFindsItsRequest(s);
      }
    case _ =>
  }

  lemma NewAnswerKeepsCorrelated(s: System, line: Line)
    requires Correlated(s.client.settled, s.answers) && AnsweredLeft(s) && s.working.Some? && !line.Other?
    ensures Correlated(s.client.settled, Apply(s, ServerAnswers(line)).answers)
  {
  }

  lemma StepKeepsAnsweredLeft(s: System, e: Event)
    requires Truthful(s) && Enabled(s, e)
    ensures AnsweredLeft(Apply(s, e))
  {
    if e.ServerAnswers? {
      WorkingElsewhere(s);
    } else if e.ServerReads? {
      assert s.stdin == [s.stdin[0]] + s.stdin[1..];
    }
  }

  /** The request being worked on is no longer in the pipe. */
  lemma WorkingElsewhere(s: System)
    requires QueueFollows(InFlight(s), s.client) && s.working.Some?
    ensures s.working.value !in s.stdin && s.working.value in s.client.written
  {
    var w, n := s.working.value, |Sources(s.stdout)|;
    assert InFlight(s)[n] == w;
    forall i | 0 <= i < |s.stdin|
      ensures s.stdin[i] != w
    {
      assert InFlight(s)[n + 1 + i] == s.stdin[i];
    }
  }

  lemma {:induction false} RunKeepsTruthful(s: System, events: seq<Event>)
    requires Truthful(s) && IsRun(s, events) && NeverMisdelivers(s, events)
    ensures Truthful(After(s, events))
    decreases |events|
  {
    if events != [] {
      StepKeepsTruthful(s, events[0]);
      RunKeepsTruthful(Apply(s, events[0]), events[1..]);
    }
  }

  // ---- Without timeouts and stray lines ----

  /** The state kept while no timeout fires and no stray line appears. */
  ghost predicate InStep(s: System) {
    && Truthful(s)
    && NoStrays(s.stdout)
    && (!s.client.dead ==> s.client.queue == InFlight(s))
  }

  ghost predicate NoStrays(stdout: seq<Reply>) {
    forall k | 0 <= k < |stdout| :: stdout[k].source.Some?
  }

  predicate Orderly(events: seq<Event>) {
    forall e | e in events :: !e.Stray? && !e.Timeout?
  }

  /** An answer always meets its own request, unless nobody is waiting any more. */
  lemma NothingComesLate(s: System, e: Event)
    requires InStep(s)
    ensures !Misdelivers(s, e)
  {
    if e.Deliver? && s.stdout != [] {
      FlightOfStep(s, e);
      assert s.stdout[0].source.value in InFlight(s);
    }
  }

  lemma StepKeepsInStep(s: System, e: Event)
    requires InStep(s) && Enabled(s, e) && !e.Stray? && !e.Timeout?
    ensures InStep(Apply(s, e))
  {
    NothingComesLate(s, e);
    StepKeepsTruthful(s, e);
    StepKeepsQueue(s, e);
  }

  lemma StepKeepsQueue(s: System, e: Event)
    requires NoStrays(s.stdout) && (!s.client.dead ==> s.client.queue == InFlight(s))
    requires Enabled(s, e) && !e.Stray? && !e.Timeout?
    ensures var t := Apply(s, e); NoStrays(t.stdout) && (!t.client.dead ==> t.client.queue == InFlight(t))
  {
    FlightOfStep(s, e);
  }

  lemma {:induction false} RunKeepsInStep(s: System, events: seq<Event>)
    requires InStep(s) && IsRun(s, events) && Orderly(events)
    ensures InStep(After(s, events)) && NeverMisdelivers(s, events)
    decreases |events|
  {
    if events != [] {
      NothingComesLate(s, events[0]);
      StepKeepsInStep(s, events[0]);
      RunKeepsInStep(Apply(s, events[0]), events[1..]);
    }
  }

  /** Correlation, over all runs: every consumed line settled its own request exactly when nothing was
      misdelivered, and then every promise settled by a line got the server's answer to its own request. */
  lemma ProtocolCorrelates(events: seq<Event>)
    requires IsRun(INITIAL, events)
    ensures var s := After(INITIAL, events);
      && (AllMatched(s) <==> NeverMisdelivers(INITIAL, events))
      && (NeverMisdelivers(INITIAL, events) ==> Correlated(s.client.settled, s.answers))
  {
    InitialIsInStep();
    MatchedIffNeverMisdelivers(INITIAL, events);
    if NeverMisdelivers(INITIAL, events) {
      RunKeepsTruthful(INITIAL, events);
    }
  }

  /** In particular in every interleaving without timeout and stray line, where the queue moreover equals,
      in order, the requests in flight. */
  lemma OrderlyRunsCorrelate(events: seq<Event>)
    requires IsRun(INITIAL, events) && Orderly(events)
    ensures var s := After(INITIAL, events);
      && AllMatched(s)
      && Correlated(s.client.settled, s.answers)
      && s.client.queue == if s.client.dead then [] else InFlight(s)
  {
    InitialIsInStep();
    RunKeepsInStep(INITIAL, events);
    ProtocolCorrelates(events);
  }

  lemma InitialIsInStep()
    ensures InStep(INITIAL) && AllMatched(INITIAL)
  {
    var s := INITIAL;
    assert s.client == FRESH_CLIENT && s.stdout == [] && s.stdin == [] && s.working == None;
    assert InFlight(s) == [];
    assert SettledIds([]) == {};
    assert Accounted(s.client);
  }

  /** Why timeouts must be excluded: the late answer to a timed-out request resolves the next one. */
  lemma TimeoutBreaksCorrelation() returns (events: seq<Event>)
    ensures IsRun(INITIAL, events) && forall e | e in events :: !e.Stray?
    ensures Settlement(2, Resolved("one")) in After(INITIAL, events).client.settled
    ensures After(INITIAL, events).answers == map[1 := Rows("one")]
  {
    var s1 := Apply(INITIAL, Issue(1));
    var s2 := Apply(s1, Issue(2));
    assert s2.client.queue == [1, 2] && s2.client.timers == {1, 2};
    assert Without([1, 2], 1) == [2];
    var s3 := Apply(s2, Timeout(1));
    var s4 := Apply(s3, ServerReads);
    var s5 := Apply(s4, ServerAnswers(Rows("one")));
    var s6 := Apply(s5, Deliver);
    events := RunBack(s5, Deliver, []);
    events := RunBack(s4, ServerAnswers(Rows("one")), events);
    events := RunBack(s3, ServerReads, events);
    events := RunBack(s2, Timeout(1), events);
    events := RunBack(s1, Issue(2), events);
    events := RunBack(INITIAL, Issue(1), events);
    assert s6.client.settled[1] == Settlement(2, Resolved("one"));
  }

  lemma RunBack(s: System, e: Event, rest: seq<Event>) returns (events: seq<Event>)
    requires Enabled(s, e) && IsRun(Apply(s, e), rest)
    ensures events == [e] + rest && IsRun(s, events) && After(s, events) == After(Apply(s, e), rest)
  {
    events := [e] + rest;
    assert events[1..] == rest;
  }
}
