/** All handles ever spawned, live and dead, under the module-level map from directory to handle. */
module DaemonRegistry {
  import opened DaemonClient
  import opened DaemonRuns

  datatype Process = Process(cwd: string, client: Client)

  datatype Registry = Registry(daemons: map<string, nat>, processes: seq<Process>)

  datatype RegistryEvent =
    | Search(cwd: string, id: Id)
    | LineFrom(process: nat, line: Line)
    | TimeoutAt(process: nat, id: Id)
    | GoneAt(process: nat)

  predicate Unused(r: Registry, id: Id) {
    forall i | 0 <= i < |r.processes| ::
      id !in r.processes[i].client.written && id !in SettledIds(r.processes[i].client.settled)
  }

  predicate CanHappen(r: Registry, e: RegistryEvent) {
    match e
    case Search(_, id) => Unused(r, id)
    case LineFrom(i, _) => i < |r.processes|
    case TimeoutAt(i, id) => i < |r.processes| && id in r.processes[i].client.timers
    case GoneAt(i) => i < |r.processes|
  }

  function Update(r: Registry, i: nat, client: Client): Registry
    requires i < |r.processes|
  {
    r.(processes := r.processes[i := r.processes[i].(client := client)])
  }

  predicate Serving(r: Registry, cwd: string) {
    cwd in r.daemons && r.daemons[cwd] < |r.processes| && !r.processes[r.daemons[cwd]].client.dead
  }

  function Happen(r: Registry, e: RegistryEvent): Registry
    requires CanHappen(r, e)
  {
    match e
    case Search(cwd, id) =>
      if Serving(r, cwd) then Update(r, r.daemons[cwd], OnQuery(r.processes[r.daemons[cwd]].client, id))
      else Registry(r.daemons[cwd := |r.processes|], r.processes + [Process(cwd, OnQuery(FRESH_CLIENT, id))])
    case LineFrom(i, line) => Update(r, i, OnLine(r.processes[i].client, line))
    case TimeoutAt(i, id) => Update(r, i, OnTimeout(r.processes[i].client, id))
    case GoneAt(i) => Update(r, i, OnGone(r.processes[i].client))
  }

  ghost predicate IsHistory(r: Registry, events: seq<RegistryEvent>)
    decreases |events|
  {
    events == [] || (CanHappen(r, events[0]) && IsHistory(Happen(r, events[0]), events[1..]))
  }

  ghost function Final(r: Registry, events: seq<RegistryEvent>): Registry
    requires IsHistory(r, events)
    decreases |events|
  {
    if events == [] then r else Final(Happen(r, events[0]), events[1..])
  }

  /** Every handle keeps its accounts, and a live handle is the one the map names for its directory. */
  ghost predicate Sound(r: Registry) {
    && (forall i | 0 <= i < |r.processes| :: Accounted(r.processes[i].client))
    && (forall cwd | cwd in r.daemons ::
          r.daemons[cwd] < |r.processes| && r.processes[r.daemons[cwd]].cwd == cwd)
    && (forall i | 0 <= i < |r.processes| && !r.processes[i].client.dead ::
          r.processes[i].cwd in r.daemons && r.daemons[r.processes[i].cwd] == i)
  }

  lemma UpdateKeepsSound(r: Registry, i: nat, client: Client)
    requires Sound(r) && i < |r.processes| && Accounted(client)
    requires r.processes[i].client.dead ==> client.dead
    ensures Sound(Update(r, i, client))
  {
  }

  lemma {:induction false} EventKeepsSound(r: Registry, e: RegistryEvent)
    requires Sound(r) && CanHappen(r, e)
    ensures Sound(Happen(r, e))
  {
    match e
    case Search(cwd, id) =>
      var client := if Serving(r, cwd) then r.processes[r.daemons[cwd]].client else FRESH_CLIENT;
      QueryKeepsAccounts(client, id);
      if Serving(r, cwd) {
        UpdateKeepsSound(r, r.daemons[cwd], OnQuery(client, id));
      } else {
      }
    case LineFrom(i, line) =>
      LineKeepsAccounts(r.processes[i].client, line);
      UpdateKeepsSound(r, i, OnLine(r.processes[i].client, line));
    case TimeoutAt(i, id) =>
      TimeoutKeepsAccounts(r.processes[i].client, id);
      UpdateKeepsSound(r, i, OnTimeout(r.processes[i].client, id));
    case GoneAt(i) =>
      GoneKeepsAccounts(r.processes[i].client);
      UpdateKeepsSound(r, i, OnGone(r.processes[i].client));
  }

  lemma {:induction false} HistoryKeepsSound(r: Registry, events: seq<RegistryEvent>)
    requires Sound(r) && IsHistory(r, events)
    ensures Sound(Final(r, events))
    decreases |events|
  {
    if events != [] {
      EventKeepsSound(r, events[0]);
      HistoryKeepsSound(Happen(r, events[0]), events[1..]);
    }
  }

  /** From the empty map, over every history: at most one live handle per directory, and a handle
      that was replaced (or died) has settled everything it ever accepted. */
  lemma OneLiveHandlePerDirectory(events: seq<RegistryEvent>, i: nat, j: nat)
    requires IsHistory(Registry(map[], []), events)
    requires i < j < |Final(Registry(map[], []), events).processes|
    requires Final(Registry(map[], []), events).processes[i].cwd == Final(Registry(map[], []), events).processes[j].cwd
    ensures var a, b := Final(Registry(map[], []), events).processes[i].client,
                        Final(Registry(map[], []), events).processes[j].client;
      && (a.dead || b.dead)
      && (a.dead ==> a.queue == [] && a.timers == {} && forall id | id in a.written :: id in SettledIds(a.settled))
      && (b.dead ==> b.queue == [] && b.timers == {} && forall id | id in b.written :: id in SettledIds(b.settled))
  {
    HistoryKeepsSound(Registry(map[], []), events);
  }
}
