/** The client half of the warm query daemon: one handle per spawned process, and the map of handles. */
module DaemonClient {

  /** The identity of one accepted promise. */
  type Id = nat

  /** A stdout line after `JSON.parse`: a row array, an object with a string `error`, or neither. */
  datatype Line = Rows(rows: string) | ErrorObject(message: string) | Other

  datatype Outcome =
    | Resolved(rows: string)
    | ServerError(message: string)
    | UnexpectedLine
    | TimedOut
    | ProcessGone
    | AlreadyDead

  datatype Settlement = Settlement(id: Id, outcome: Outcome)

  function OutcomeOf(line: Line): Outcome {
    match line
    case Rows(rows) => Resolved(rows)
    case ErrorObject(message) => ServerError(message)
    case Other => UnexpectedLine
  }

  // ---- The handle as a value ----

  /** `timers` are the live timeouts, `written` the requests sent to the process's stdin, `settled`
      every call of a `resolve` or `reject` in order. */
  datatype Client = Client(queue: seq<Id>, dead: bool, timers: set<Id>, written: seq<Id>, settled: seq<Settlement>)

  const FRESH_CLIENT := Client([], false, {}, [], [])

  function OnLine(c: Client, line: Line): Client {
    if c.queue == [] then c
    else c.(queue := c.queue[1..], timers := c.timers - {c.queue[0]},
            settled := c.settled + [Settlement(c.queue[0], OutcomeOf(line))])
  }

  function AllGone(ids: seq<Id>): (log: seq<Settlement>)
    ensures |log| == |ids|
    ensures forall k | 0 <= k < |ids| :: log[k] == Settlement(ids[k], ProcessGone)
  {
    seq(|ids|, k requires 0 <= k < |ids| => Settlement(ids[k], ProcessGone))
  }

  function OnGone(c: Client): Client {
    c.(queue := [], dead := true, timers := c.timers - (set id | id in c.queue),
       settled := c.settled + AllGone(c.queue))
  }

  function Without(ids: seq<Id>, id: Id): seq<Id> {
    if ids == [] then [] else if ids[0] == id then ids[1..] else [ids[0]] + Without(ids[1..], id)
  }

  function OnTimeout(c: Client, id: Id): Client {
    c.(queue := Without(c.queue, id), timers := c.timers - {id}, settled := c.settled + [Settlement(id, TimedOut)])
  }

  function OnQuery(c: Client, id: Id): Client {
    if c.dead then c.(settled := c.settled + [Settlement(id, AlreadyDead)])
    else c.(queue := c.queue + [id], timers := c.timers + {id}, written := c.written + [id])
  }

  // ---- The handle as an object ----

  datatype PendingRequest = PendingRequest(id: Id)

  function Ids(queue: seq<PendingRequest>): (ids: seq<Id>)
    ensures |ids| == |queue|
    ensures forall k | 0 <= k < |queue| :: ids[k] == queue[k].id
  {
    seq(|queue|, k requires 0 <= k < |queue| => queue[k].id)
  }

  class DaemonHandle {
    var queue: seq<PendingRequest>
    var dead: bool
    var timers: set<Id>
    var stdin: seq<Id>
    var settled: seq<Settlement>

    function View(): Client
      reads this
    {
      Client(Ids(queue), dead, timers, stdin, settled)
    }

    constructor ()
      ensures View() == FRESH_CLIENT
    {
      queue, dead, timers, stdin, settled := [], false, {}, [], [];
    }

    method HandleLine(line: Line)
      modifies this
      ensures View() == OnLine(old(View()), line)
    {
      if |queue| == 0 {
        return;
      }
      var pending := queue[0];
      queue := queue[1..];
      timers := timers - {pending.id};
      match line {
        case Rows(rows) => settled := settled + [Settlement(pending.id, Resolved(rows))];
        case ErrorObject(message) => settled := settled + [Settlement(pending.id, ServerError(message))];
        case Other => settled := settled + [Settlement(pending.id, UnexpectedLine)];
      }
    }

    method KillAllPending()
      modifies this
      ensures View() == OnGone(old(View()))
    {
      dead := true;
      var victims := queue;
      queue := [];
      for k := 0 to |victims|
        invariant dead && queue == [] && stdin == old(stdin)
        invariant timers == old(timers) - (set i | 0 <= i < k :: victims[i].id)
        invariant settled == old(settled) + AllGone(Ids(victims)[..k])
      {
        assert AllGone(Ids(victims)[..k + 1]) == AllGone(Ids(victims)[..k]) + [Settlement(victims[k].id, ProcessGone)];
        timers := timers - {victims[k].id};
        settled := settled + [Settlement(victims[k].id, ProcessGone)];
      }
      assert Ids(victims)[..|victims|] == Ids(victims);
      assert (set i | 0 <= i < |victims| :: victims[i].id) == (set id | id in Ids(victims)) by {
        forall id | id in Ids(victims)
          ensures exists i :: 0 <= i < |victims| && victims[i].id == id
        {
          var i :| 0 <= i < |Ids(victims)| && Ids(victims)[i] == id;
        }
      }
    }

    method HandleTimeout(id: Id)
      modifies this
      ensures View() == OnTimeout(old(View()), id)
    {
      var idx := 0;
      while idx < |queue| && queue[idx].id != id
        invariant idx <= |queue| && queue == old(queue)
        invariant forall k | 0 <= k < idx :: queue[k].id != id
      {
        idx := idx + 1;
      }
      WithoutAt(Ids(queue), id, idx);
      if idx < |queue| {
        queue := queue[..idx] + queue[idx + 1..];
      }
      timers := timers - {id};
      settled := settled + [Settlement(id, TimedOut)];
    }

    method Query(id: Id)
      modifies this
      ensures View() == OnQuery(old(View()), id)
    {
      if dead {
        settled := settled + [Settlement(id, AlreadyDead)];
        return;
      }
      timers := timers + {id};
      queue := queue + [PendingRequest(id)];
      stdin := stdin + [id];
    }
  }

  lemma {:induction false} WithoutAt(ids: seq<Id>, id: Id, idx: nat)
    requires idx <= |ids| && forall k | 0 <= k < idx :: ids[k] != id
    requires idx < |ids| ==> ids[idx] == id
    ensures Without(ids, id) == if idx < |ids| then ids[..idx] + ids[idx + 1..] else ids
  {
    if idx > 0 {
      WithoutAt(ids[1..], id, idx - 1);
    }
  }

  /** The module-level map from working directory to handle. */
  class DaemonMap {
    var daemons: map<string, DaemonHandle>

    constructor ()
      ensures daemons == map[]
    {
      daemons := map[];
    }

    /** A live handle is reused; a missing or dead one is replaced by a fresh process. */
    method DaemonSearch(cwd: string, id: Id) returns (handle: DaemonHandle)
      modifies this, if cwd in daemons then {daemons[cwd]} else {}
      ensures daemons == old(daemons)[cwd := handle]
      ensures if cwd in old(daemons) && !old(daemons[cwd].dead)
              then handle == old(daemons)[cwd] && handle.View() == OnQuery(old(daemons[cwd].View()), id)
              else fresh(handle) && handle.View() == OnQuery(FRESH_CLIENT, id)
      ensures cwd in old(daemons) && old(daemons[cwd].dead) ==> unchanged(old(daemons)[cwd])
    {
      if cwd !in daemons || daemons[cwd].dead {
        handle := new DaemonHandle();
        daemons := daemons[cwd := handle];
      } else {
        handle := daemons[cwd];
        assert daemons == daemons[cwd := handle];
      }
      handle.Query(id);
    }
  }
}
