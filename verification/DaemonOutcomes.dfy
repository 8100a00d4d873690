/** What each request of the daemon client comes to: which line, timer or exit settled it, and how. */
module DaemonOutcomes {
  import opened Wrappers
  import opened DaemonClient
  import opened DaemonRuns
  import opened DaemonRegistry

  // ---- What a line does ----

  /** Settled as the line says: a row array resolves with its rows, an error object rejects with its message,
      anything else rejects as unexpected. */
  ghost predicate AsTheLineSays(outcome: Outcome, line: Line) {
    && (forall rows :: outcome == Resolved(rows) <==> line == Rows(rows))
    && (forall message :: outcome == ServerError(message) <==> line == ErrorObject(message))
    && (outcome == UnexpectedLine <==> line == Other)
  }

  /** A delivered line settles the oldest waiting request, and only that one, as the line says. */
  lemma DeliveryOutcome(s: System)
    requires s.stdout != [] && s.client.queue != []
    ensures exists outcome ::
      && Apply(s, Deliver).client.settled == s.client.settled + [Settlement(s.client.queue[0], outcome)]
      && AsTheLineSays(outcome, s.stdout[0].line)
  {
    var log, last := Apply(s, Deliver).client.settled, |s.client.settled|;
    assert log == s.client.settled + [Settlement(s.client.queue[0], log[last].outcome)];
    assert AsTheLineSays(log[last].outcome, s.stdout[0].line);
  }

  predicate FromLine(outcome: Outcome) {
    outcome.Resolved? || outcome.ServerError? || outcome.UnexpectedLine?
  }

  /** The requests settled by a line. */
  function SettledByLine(matches: seq<(Id, Option<Id>)>): set<Id> {
    set m | m in matches :: m.0
  }

  /** The outcomes that come from lines are those of the requests settled by one. */
  ghost predicate LinesAgree(s: System) {
    && (forall x | x in s.client.settled :: FromLine(x.outcome) <==> x.id in SettledByLine(s.matches))
    && (forall m | m in s.matches :: m.0 in SettledIds(s.client.settled))
  }

  lemma {:induction false} SettledListed(log: seq<Settlement>, id: Id)
    ensures id in SettledIds(log) <==> exists x :: x in log && x.id == id
  {
    if log != [] {
      var last := |log| - 1;
      SettledListed(log[..last], id);
      assert log == log[..last] + [log[last]];
    }
  }

  lemma StepKeepsLinesAgree(s: System, e: Event)
    requires Accounted(s.client) && LinesAgree(s) && Enabled(s, e)
    ensures LinesAgree(Apply(s, e))
  {
    var t := Apply(s, e);
    StepKeepsAccounts(s, e);
    forall x | x in s.client.settled
      ensures x.id in SettledIds(s.client.settled)
    {
      SettledListed(s.client.settled, x.id);
    }
    match e
    case Issue(id) => QueryKeepsAccounts(s.client, id);
    case Deliver => LineKeepsAccounts(s.client, s.stdout[0].line); DeliverKeepsLinesAgree(s);
    case Timeout(id) => TimeoutKeepsAccounts(s.client, id); TimeoutKeepsLinesAgree(s, id);
    case Gone => GoneKeepsAccounts(s.client); GoneKeepsLinesAgree(s);
    case _ =>
  }

  lemma DeliverKeepsLinesAgree(s: System)
    requires Accounted(s.client) && LinesAgree(s) && s.stdout != []
    requires forall x | x in s.client.settled :: x.id in SettledIds(s.client.settled)
    requires s.client.queue != [] ==>
      SettledIds(Apply(s, Deliver).client.settled) == SettledIds(s.client.settled) + {s.client.queue[0]}
    ensures LinesAgree(Apply(s, Deliver))
  {
    var t := Apply(s, Deliver);
    if s.client.queue != [] {
      var first := s.client.queue[0];
      var m := (first, s.stdout[0].source);
      assert t.matches == s.matches + [m] && first in s.client.queue;
      assert SettledByLine(t.matches) == SettledByLine(s.matches) + {first} by {
        assert forall x :: x in t.matches <==> x in s.matches || x == m;
      }
    }
  }

  lemma TimeoutKeepsLinesAgree(s: System, id: Id)
    requires Accounted(s.client) && LinesAgree(s) && id in s.client.timers
    requires SettledIds(OnTimeout(s.client, id).settled) == SettledIds(s.client.settled) + {id}
    ensures LinesAgree(s.(client := OnTimeout(s.client, id)))
  {
    assert id in s.client.queue;
  }

  lemma GoneKeepsLinesAgree(s: System)
    requires Accounted(s.client) && LinesAgree(s)
    requires forall id :: id in SettledIds(OnGone(s.client).settled) <==>
      id in SettledIds(s.client.settled) || id in s.client.queue
    ensures LinesAgree(s.(client := OnGone(s.client)))
  {
    forall x | x in AllGone(s.client.queue)
      ensures x.outcome == ProcessGone && x.id in s.client.queue
    {
    }
  }

  lemma {:induction false} RunKeepsLinesAgree(s: System, events: seq<Event>)
    requires Accounted(s.client) && LinesAgree(s) && IsRun(s, events)
    ensures LinesAgree(After(s, events))
    decreases |events|
  {
    if events != [] {
      StepKeepsAccounts(s, events[0]);
      StepKeepsLinesAgree(s, events[0]);
      RunKeepsLinesAgree(Apply(s, events[0]), events[1..]);
    }
  }

  /** Over every run without misdelivery: a request settled by a line is settled as the server's answer to that
      very request says, and none is settled by anything else than an answer, a timer or the end of the process. */
  lemma RequestsGetTheirAnswers(events: seq<Event>)
    requires IsRun(INITIAL, events) && NeverMisdelivers(INITIAL, events)
    ensures var s := After(INITIAL, events);
      forall x | x in s.client.settled ::
        if x.id in SettledByLine(s.matches)
        then x.id in s.answers && AsTheLineSays(x.outcome, s.answers[x.id]) && x.outcome != UnexpectedLine
        else x.outcome in {TimedOut, ProcessGone, AlreadyDead}
  {
    InitialIsInStep();
    ProtocolCorrelates(events);
    RunKeepsLinesAgree(INITIAL, events);
    var s := After(INITIAL, events);
    forall x | x in s.client.settled
      ensures FromLine(x.outcome) ==> x.id in s.answers && AsTheLineSays(x.outcome, s.answers[x.id])
      ensures x.outcome != UnexpectedLine
    {
      var k :| 0 <= k < |s.client.settled| && s.client.settled[k] == x;
    }
  }

  // ---- Every request comes to something ----

  /** Waiting or settled. */
  predicate Known(c: Client, id: Id) {
    id in c.queue || id in SettledIds(c.settled)
  }

  lemma StepKeepsKnown(s: System, e: Event)
    requires Accounted(s.client) && Enabled(s, e)
    ensures forall id | Known(s.client, id) :: Known(Apply(s, e).client, id)
    ensures e.Issue? ==> Known(Apply(s, e).client, e.id)
  {
    match e
    case Issue(id) => QueryKeepsAccounts(s.client, id);
    case Deliver => LineKeepsAccounts(s.client, s.stdout[0].line);
    case Timeout(id) => TimeoutKeepsAccounts(s.client, id);
    case Gone => GoneKeepsAccounts(s.client);
    case _ =>
  }

  /** No request is forgotten: over every run each issued request is waiting or settled, never both. */
  lemma {:induction false} NoRequestIsForgotten(s: System, events: seq<Event>)
    requires Accounted(s.client) && IsRun(s, events)
    ensures forall id | Known(s.client, id) || Issue(id) in events :: Known(After(s, events).client, id)
    ensures forall id | id in After(s, events).client.queue :: id !in SettledIds(After(s, events).client.settled)
    decreases |events|
  {
    if events != [] {
      StepKeepsAccounts(s, events[0]);
      StepKeepsKnown(s, events[0]);
      NoRequestIsForgotten(Apply(s, events[0]), events[1..]);
      assert events == [events[0]] + events[1..];
    }
  }

  /** What has to have happened for an outcome. */
  predicate Accounts(x: Settlement, events: seq<Event>, dead: bool) {
    match x.outcome
    case TimedOut => Timeout(x.id) in events
    case ProcessGone => Gone in events
    case AlreadyDead => Issue(x.id) in events && (dead || Gone in events)
    case _ => Deliver in events
  }

  lemma StepAccounts(s: System, e: Event)
    requires Enabled(s, e)
    ensures forall x | x in Apply(s, e).client.settled :: x in s.client.settled || Accounts(x, [e], s.client.dead)
    ensures Apply(s, e).client.dead <==> s.client.dead || e == Gone
    ensures e.Timeout? ==> Settlement(e.id, TimedOut) in Apply(s, e).client.settled
    ensures e.Issue? && s.client.dead ==> Settlement(e.id, AlreadyDead) in Apply(s, e).client.settled
    ensures forall x | x in s.client.settled :: x in Apply(s, e).client.settled
  {
    var t := Apply(s, e);
    match e
    case Issue(id) =>
      if s.client.dead {
        assert t.client.settled[|s.client.settled|] == Settlement(id, AlreadyDead);
      }
    case Timeout(id) => assert t.client.settled[|s.client.settled|] == Settlement(id, TimedOut);
    case _ =>
  }

  lemma AccountsBefore(x: Settlement, e: Event, rest: seq<Event>, dead: bool)
    ensures Accounts(x, [e], dead) || Accounts(x, rest, dead || e == Gone) ==> Accounts(x, [e] + rest, dead)
  {
  }

  /** Over every run: a request times out exactly if its timer fires; it is lost with the process only if that
      ends, refused only if it had ended before, and otherwise settled by a line. The handle is dead exactly
      if its process has ended. */
  lemma {:induction false} OutcomesAreAccounted(s: System, events: seq<Event>)
    requires IsRun(s, events)
    ensures var t := After(s, events);
      && (forall x | x in t.client.settled :: x in s.client.settled || Accounts(x, events, s.client.dead))
      && (forall x | x in s.client.settled :: x in t.client.settled)
      && (forall id | Timeout(id) in events :: Settlement(id, TimedOut) in t.client.settled)
      && (t.client.dead <==> s.client.dead || Gone in events)
    decreases |events|
  {
    if events != [] {
      var e, rest := events[0], events[1..];
      StepAccounts(s, e);
      OutcomesAreAccounted(Apply(s, e), rest);
      assert events == [e] + rest;
      forall x | x in After(s, events).client.settled && x !in s.client.settled
        ensures Accounts(x, events, s.client.dead)
      {
        AccountsBefore(x, e, rest, s.client.dead);
      }
    }
  }

  /** The end of the process rejects every waiting request, in order. */
  lemma GoneRejectsAll(s: System)
    ensures var log := Apply(s, Gone).client.settled;
      && |log| == |s.client.settled| + |s.client.queue| && s.client.settled <= log
      && forall k | 0 <= k < |s.client.queue| :: log[|s.client.settled| + k] == Settlement(s.client.queue[k], ProcessGone)
  {
  }

  // ---- The map of handles ----

  /** No handle has refused a request for being dead. */
  ghost predicate NoneRefused(r: Registry) {
    forall i, x | 0 <= i < |r.processes| && x in r.processes[i].client.settled :: x.outcome != AlreadyDead
  }

  /** A search always reaches a living process of its directory: its request is the last one waiting there,
      with a timer, and written to it. */
  lemma SearchIsQueued(r: Registry, cwd: string, id: Id)
    requires Sound(r) && CanHappen(r, Search(cwd, id))
    ensures var t := Happen(r, Search(cwd, id));
      && cwd in t.daemons && t.daemons[cwd] < |t.processes|
      && (var p := t.processes[t.daemons[cwd]];
          && p.cwd == cwd && !p.client.dead
          && p.client.queue != [] && p.client.queue[|p.client.queue| - 1] == id
          && id in p.client.timers
          && p.client.written != [] && p.client.written[|p.client.written| - 1] == id)
  {
  }

  lemma EventRefusesNone(r: Registry, e: RegistryEvent)
    requires Sound(r) && NoneRefused(r) && CanHappen(r, e)
    ensures NoneRefused(Happen(r, e))
  {
    if e.GoneAt? {
      assert forall x | x in AllGone(r.processes[e.process].client.queue) :: x.outcome == ProcessGone;
    }
  }

  /** Over every history of searches, respawns included, no search is refused because its process is dead. */
  lemma {:induction false} NoSearchIsRefused(r: Registry, events: seq<RegistryEvent>)
    requires Sound(r) && NoneRefused(r) && IsHistory(r, events)
    ensures NoneRefused(Final(r, events))
    decreases |events|
  {
    if events != [] {
      EventKeepsSound(r, events[0]);
      EventRefusesNone(r, events[0]);
      NoSearchIsRefused(Happen(r, events[0]), events[1..]);
    }
  }
}
