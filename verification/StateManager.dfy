/**
 `statemanager.Manager`: a queue of actions, carried out together by `Commit` or undone by
 `Rollback` against an API server that may fail any call.
 */
module StateManager {
  import opened Wrappers
  import opened Sequences
  import opened GeneratorStates
  import opened StateRuns

  // ---------------------------------------------------------------- owner keys

  /** The kind, namespace and name of the resource that owns the states. */
  datatype Resource = Resource(kind: string, namespace: string, name: string)

  /** The text whose hash is the owner key. */
  function OwnerText(resource: Resource, key: string): string {
    resource.kind + "-" + resource.namespace + "-" + resource.name + "-" + key
  }

  /** For one resource the text tells its state keys apart; over all resources it does not. */
  lemma OwnerTextsOfOneResource(resource: Resource, a: string, b: string)
    ensures OwnerText(resource, a) == OwnerText(resource, b) <==> a == b
    ensures OwnerText(Resource("ExternalSecret", "ns", "a-b"), "0") == "ExternalSecret-ns-a-b-0"
         == OwnerText(Resource("ExternalSecret", "ns", "a"), "b-0")
  {
    var prefix := resource.kind + "-" + resource.namespace + "-" + resource.name + "-";
    assert OwnerText(resource, a)[|prefix|..] == a;
    assert OwnerText(resource, b)[|prefix|..] == b;
    assert "ExternalSecret" + "-" + "ns" + "-" + "a-b" + "-" + "0" == "ExternalSecret-ns-a-b-0";
    assert "ExternalSecret" + "-" + "ns" + "-" + "a" + "-" + "b-0" == "ExternalSecret-ns-a-b-0";
  }

  // ---------------------------------------------------------------- the API server

  /** What the client may list: past versions of states of the scope, each state once. Its cache may be stale. */
  ghost predicate MayList(sys: System, list: seq<GeneratorState>, ns: string, ownerKey: string) {
    && (forall s :: s in list ==> s in sys.seen && InScope(s, ns, ownerKey))
    && DistinctNames(list)
  }

  predicate DistinctNames(list: seq<GeneratorState>) {
    forall j, k :: 0 <= j < k < |list| ==> list[j].name != list[k].name
  }

  ghost function Creation(record: GeneratorState): Event {
    if Live(record) then CreateLive(record) else Park(record)
  }

  /** A call that can fail, and how it ended. */
  datatype ApiCall =
    | ListCall(namespace: string, ownerKey: string, result: Option<seq<GeneratorState>>)
    | UpdateCall(name: nat, ok: bool)
    | SetOwnerCall(ok: bool)
    | CreateCall(ok: bool)
    | CleanupCall(state: string, ok: bool)

  /** What is to be seen of a cluster. */
  datatype View = View(sys: System, log: seq<ApiCall>, cleaned: seq<string>, clock: int)

  /**
   The stored states with their history, all calls made so far, the provider states that their generator
   did clean up, and the clock. Every call is one event of a run, or none.
   */
  class Cluster {
    var sys: System
    var log: seq<ApiCall>
    var cleaned: seq<string>
    var nextName: nat
    var clock: int

    ghost predicate Valid()
      reads this
    {
      Reachable(sys) && forall s :: s in sys.seen ==> s.name < nextName
    }

    constructor (clock: int)
      ensures Valid() && sys == EMPTY && log == [] && cleaned == [] && this.clock == clock
    {
      sys, log, cleaned, nextName := EMPTY, [], [], 0;
      this.clock := clock;
      new;
      assert Reaches([], EMPTY);
    }

    ghost function Observed(): View
      reads this
    {
      View(sys, log, cleaned, clock)
    }

    method Now() returns (now: int)
      modifies this`clock
      ensures clock >= old(clock) && now == clock
    {
      var later: int := *;
      if later > clock {
        clock := later;
      }
      now := clock;
    }

    method List(ns: string, ownerKey: string) returns (r: Option<seq<GeneratorState>>)
      requires Valid()
      modifies this`log
      ensures log == old(log) + [ListCall(ns, ownerKey, r)]
      ensures Valid() && (r.Some? ==> MayList(sys, r.value, ns, ownerKey))
    {
      var reachable: bool := *;
      if !reachable {
        log := log + [ListCall(ns, ownerKey, None)];
        return None;
      }
      var list: seq<GeneratorState> := [];
      var rest := sys.seen;
      while rest != {}
        invariant rest <= sys.seen && MayList(sys, list, ns, ownerKey)
        decreases rest
      {
        var s :| s in rest;
        var cached: bool := *;
        if cached && InScope(s, ns, ownerKey) && forall l | l in list :: l.name != s.name {
          list := list + [s];
        }
        rest := rest - {s};
      }
      log := log + [ListCall(ns, ownerKey, Some(list))];
      r := Some(list);
    }

    /** `controllerutil.SetOwnerReference`, which calls nobody but can fail. */
    method SetOwnerReference() returns (ok: bool)
      modifies this`log
      ensures log == old(log) + [SetOwnerCall(ok)]
    {
      ok := *;
      log := log + [SetOwnerCall(ok)];
    }

    /** The server picks a name never used before and stamps the creation time. */
    method Create(state: GeneratorState) returns (ok: bool, ghost record: GeneratorState)
      requires Valid()
      modifies this`sys, this`nextName, this`log
      ensures Valid() && log == old(log) + [CreateCall(ok)]
      ensures record == state.(name := record.name, created := record.created)
      ensures ok ==> FreshName(old(sys), record.name) && sys == Apply(old(sys), Creation(record))
      ensures !ok ==> sys == old(sys)
    {
      ok := *;
      var now: int := *;
      var stored := state.(name := nextName, created := now);
      record := stored;
      log := log + [CreateCall(ok)];
      if ok {
        StillReachable(sys, Creation(record));
        sys := System(sys.records[nextName := stored], sys.seen + {stored}, if Live(stored) then sys.created + [stored] else sys.created);
        nextName := nextName + 1;
      }
    }

    /**
     The server takes an update only of the version it is based on. The one use of it is to flag a
     state that `list` makes `disposeState` flag.
     */
    method Update(base: GeneratorState, state: GeneratorState, ghost list: seq<GeneratorState>) returns (ok: bool)
      requires Valid() && PastListing(sys, list) && base in list && base.name in ToFlag(list)
      requires state.deadline.Some? && state == base.(deadline := state.deadline)
      modifies this`sys, this`log
      ensures Valid() && log == old(log) + [UpdateCall(base.name, ok)]
      ensures ok ==> base.name in old(sys).records && old(sys).records[base.name] == base
      ensures ok ==> sys == Apply(old(sys), DisposeListed(list, map[base.name := state.deadline.value]))
      ensures !ok ==> sys == old(sys)
    {
      ok := *;
      if ok && base.name in sys.records && sys.records[base.name] == base {
        UpdateIsAnEvent(sys, list, base, state);
        sys := System(sys.records[base.name := state], sys.seen + {state}, sys.created);
      } else {
        ok := false;
      }
      log := log + [UpdateCall(base.name, ok)];
    }

    /** The generator's own clean-up of a provider state. */
    method Cleanup(state: string) returns (ok: bool)
      modifies this`log, this`cleaned
      ensures log == old(log) + [CleanupCall(state, ok)]
      ensures cleaned == if ok then old(cleaned) + [state] else old(cleaned)
    {
      ok := *;
      log := log + [CleanupCall(state, ok)];
      if ok {
        cleaned := cleaned + [state];
      }
    }
  }

  lemma UpdateIsAnEvent(sys: System, list: seq<GeneratorState>, base: GeneratorState, state: GeneratorState)
    requires Reachable(sys) && PastListing(sys, list) && base.name in ToFlag(list)
    requires base.name in sys.records && sys.records[base.name] == base
    requires state.deadline.Some? && state == base.(deadline := state.deadline)
    ensures Apply(sys, DisposeListed(list, map[base.name := state.deadline.value]))
         == System(sys.records[base.name := state], sys.seen + {state}, sys.created)
    ensures Reachable(System(sys.records[base.name := state], sys.seen + {state}, sys.created))
  {
    ReachableInv(sys);
    StillReachable(sys, DisposeListed(list, map[base.name := state.deadline.value]));
    UpdateOne(sys, list, base, state);
  }

  lemma UpdateOne(sys: System, list: seq<GeneratorState>, base: GeneratorState, state: GeneratorState)
    requires NamesMatch(sys) && base.name in sys.records && sys.records[base.name] == base
    requires state.deadline.Some? && state == base.(deadline := state.deadline)
    ensures Apply(sys, DisposeListed(list, map[base.name := state.deadline.value]))
         == System(sys.records[base.name := state], sys.seen + {state}, sys.created)
  {
    var records := Updated(sys.records, map[base.name := state.deadline.value]);
    assert records == sys.records[base.name := state];
    assert records[base.name] in records.Values;
    assert sys.seen + records.Values == sys.seen + {state};
  }

  /** Every deadline that was set or changed lies in this period. */
  ghost predicate DeadlinesWithin(before: Store, after: Store, from: int, to: int) {
    forall n :: n in after && (n in before ==> after[n] != before[n]) && after[n].deadline.Some? ==> from <= after[n].deadline.value <= to
  }

  ghost predicate NoDeadlineSet(before: Store, after: Store) {
    forall n :: n in after && (n in before ==> after[n] != before[n]) ==> after[n].deadline.None?
  }

  // ---------------------------------------------------------------- the queue

  /** `EnqueueFlagLatestStateForGC` and `EnqueueMoveStateToGC` put the same action on the queue. */
  datatype QueueItem =
    | Dispose(key: string)
    | SetLatest(key: string, namespace: string, state: string)

  datatype StateError =
    | ListFailed
    | UpdateFailed(name: nat)
    | NoOwnerReference
    | CreateFailed

  /** The provider states a queue is responsible for. */
  function Generated(queue: seq<QueueItem>): seq<string> {
    if queue == [] then [] else Generated(Front(queue)) + if Last(queue).SetLatest? then [Last(queue).state] else []
  }

  /**
   What one `Commit` action reports, the calls it made, and whether it was `current`: it did not act on a
   listing other than a complete one of what was stored.
   */
  datatype Report = Report(errs: seq<StateError>, calls: seq<ApiCall>, current: bool)

  ghost predicate IsClean(report: Report) {
    report.errs == [] && report.current
  }

  /** What one `Commit` action does and reports, given how its calls end. */
  ghost predicate CommitStep(owner: string -> string, ns: string, item: QueueItem, before: System, after: System, report: Report) {
    match item
    case Dispose(key) => MayDispose(before, after, ns, owner(key), report)
    case SetLatest(key, namespace, state) => report.current && MaySet(before, after, namespace, owner(key), state, report)
  }

  ghost predicate MayDispose(before: System, after: System, ns: string, ownerKey: string, report: Report) {
    && report.calls != [] && report.calls[0].ListCall? && report.calls[0].namespace == ns && report.calls[0].ownerKey == ownerKey
    && match report.calls[0].result
       case None => report.errs == [ListFailed] && |report.calls| == 1 && report.current && after == before
       case Some(list) =>
         && (exists updates :: DisposedFrom(before, after, list, updates, ns, ownerKey, report.calls[1..]))
         && report.errs == FailedUpdates(report.calls[1..])
         && (report.current <==> IsListing(list, before.records, ns, ownerKey))
  }

  /** The owner reference is set, then the state is created live; either may fail, and then nothing is. */
  ghost predicate MaySet(before: System, after: System, ns: string, ownerKey: string, state: string, report: Report) {
    if report.calls == [SetOwnerCall(true), CreateCall(true)] then report.errs == [] && MayCreate(before, after, ns, ownerKey, state)
    else
      && after == before
      && (report.calls == [SetOwnerCall(false)] || report.calls == [SetOwnerCall(true), CreateCall(false)])
      && report.errs == [if |report.calls| == 1 then NoOwnerReference else CreateFailed]
  }

  /**
   An update is tried for each state that the listing makes `disposeState` flag, in the order of the
   listing. Where it succeeds, the state was live and is flagged.
   */
  ghost predicate DisposedFrom(before: System, after: System, list: seq<GeneratorState>, updates: map<nat, int>,
                               ns: string, ownerKey: string, calls: seq<ApiCall>) {
    && MayList(before, list, ns, ownerKey)
    && TriedEach(calls, WantedNames(list, |list|)) && updates.Keys == Succeeded(calls)
    && updates.Keys <= ToFlag(list) * before.records.Keys
    && (forall n :: n in updates ==> Live(before.records[n]))
    && after == Apply(before, DisposeListed(list, updates))
  }

  ghost predicate Wanted(list: seq<GeneratorState>, s: GeneratorState) {
    Live(s) && LatestOf(list).Some? && s.name != LatestOf(list).value.name
  }

  /** The names of those of the first `i` states listed that are to be flagged, in order. */
  ghost function WantedNames(list: seq<GeneratorState>, i: nat): seq<nat>
    requires i <= |list|
  {
    if i == 0 then [] else WantedNames(list, i - 1) + if Wanted(list, list[i - 1]) then [list[i - 1].name] else []
  }

  /** The calls are one update for each of the names, in order. */
  ghost predicate TriedEach(calls: seq<ApiCall>, names: seq<nat>) {
    |calls| == |names| && forall i :: 0 <= i < |calls| ==> calls[i].UpdateCall? && calls[i].name == names[i]
  }

  ghost function Succeeded(calls: seq<ApiCall>): set<nat> {
    set call | call in calls && call.UpdateCall? && call.ok :: call.name
  }

  /** An error for each update that failed, in order. */
  ghost function FailedUpdates(calls: seq<ApiCall>): seq<StateError> {
    if calls == [] then []
    else FailedUpdates(Front(calls)) + match Last(calls) case UpdateCall(name, false) => [UpdateFailed(name)] case _ => []
  }

  lemma {:induction false} WantedAreToFlag(list: seq<GeneratorState>, i: nat, n: nat)
    requires i <= |list|
    ensures n in WantedNames(list, i) <==> exists j :: 0 <= j < i && Wanted(list, list[j]) && list[j].name == n
  {
    if i > 0 {
      WantedAreToFlag(list, i - 1, n);
    }
  }

  lemma {:induction false} NoFailedUpdateIff(calls: seq<ApiCall>)
    ensures FailedUpdates(calls) == [] <==> forall call :: call in calls ==> !(call.UpdateCall? && !call.ok)
  {
    if calls != [] {
      NoFailedUpdateIff(Front(calls));
      assert forall call :: call in calls <==> call in Front(calls) || call == Last(calls);
    }
  }

  /** Without an error, all states to flag are flagged. */
  lemma {:induction false} NoErrorMeansAllFlagged(list: seq<GeneratorState>, calls: seq<ApiCall>)
    requires TriedEach(calls, WantedNames(list, |list|)) && FailedUpdates(calls) == []
    ensures ToFlag(list) <= Succeeded(calls)
  {
    NoFailedUpdateIff(calls);
    forall n | n in ToFlag(list)
      ensures n in Succeeded(calls)
    {
      var s :| s in list && Wanted(list, s) && s.name == n;
      var j :| 0 <= j < |list| && list[j] == s;
      WantedAreToFlag(list, |list|, n);
      var i :| 0 <= i < |calls| && calls[i].name == n;
      assert calls[i] in calls;
    }
  }

  /** If each state is listed once, its update is tried once, and then there is an error exactly if some state to flag is not flagged. */
  lemma {:induction false} NoFailuresIff(list: seq<GeneratorState>, calls: seq<ApiCall>)
    requires DistinctNames(list) && TriedEach(calls, WantedNames(list, |list|))
    ensures FailedUpdates(calls) == [] <==> ToFlag(list) <= Succeeded(calls)
  {
    NoFailedUpdateIff(calls);
    if FailedUpdates(calls) == [] {
      NoErrorMeansAllFlagged(list, calls);
    } else {
      var failed :| failed in calls && failed.UpdateCall? && !failed.ok;
      var i :| 0 <= i < |calls| && calls[i] == failed;
      FailedIsNotFlagged(list, calls, i);
    }
  }

  lemma {:induction false} FailedIsNotFlagged(list: seq<GeneratorState>, calls: seq<ApiCall>, i: nat)
    requires DistinctNames(list) && TriedEach(calls, WantedNames(list, |list|)) && i < |calls| && !calls[i].ok
    ensures calls[i].name in ToFlag(list) && calls[i].name !in Succeeded(calls)
  {
    WantedAreToFlag(list, |list|, calls[i].name);
    var j :| 0 <= j < |list| && Wanted(list, list[j]) && list[j].name == calls[i].name;
    ToFlagIff(list, j);
    WantedNamesDistinct(list, |list|);
  }

  lemma {:induction false} WantedNamesDistinct(list: seq<GeneratorState>, i: nat)
    requires DistinctNames(list) && i <= |list|
    ensures forall j, k :: 0 <= j < k < |WantedNames(list, i)| ==> WantedNames(list, i)[j] != WantedNames(list, i)[k]
  {
    if i > 0 {
      WantedNamesDistinct(list, i - 1);
      WantedAreToFlag(list, i - 1, list[i - 1].name);
    }
  }

  ghost predicate MayCreate(before: System, after: System, ns: string, ownerKey: string, state: string) {
    exists record :: CreatedAs(before, after, ns, ownerKey, state, record)
  }

  ghost predicate CreatedAs(before: System, after: System, ns: string, ownerKey: string, state: string, record: GeneratorState) {
    && FreshName(before, record.name) && after == Apply(before, CreateLive(record))
    && record == GeneratorState(record.name, ns, ownerKey, record.created, None, state)
  }

  /** What a whole `Commit` may do and report: every action runs, whether or not those before it failed. */
  ghost predicate CommitRun(owner: string -> string, ns: string, queue: seq<QueueItem>, before: System, after: System, reports: seq<Report>) {
    && |reports| == |queue|
    && if queue == [] then after == before
       else exists mid ::
         && CommitRun(owner, ns, Front(queue), before, mid, Front(reports))
         && CommitStep(owner, ns, Last(queue), mid, after, Last(reports))
  }

  /** `errors.Join` of all that was reported. */
  ghost function Joined(reports: seq<Report>): seq<StateError> {
    if reports == [] then [] else Joined(Front(reports)) + Last(reports).errs
  }

  ghost function CallsMade(reports: seq<Report>): seq<ApiCall> {
    if reports == [] then [] else CallsMade(Front(reports)) + Last(reports).calls
  }

  /** `parked` are the records that were added, each flagged from the start. */
  ghost predicate Parked(before: Store, after: Store, parked: seq<GeneratorState>) {
    && before.Keys <= after.Keys
    && (forall n :: n in before ==> after[n] == before[n])
    && (forall n :: n in after && n !in before ==> after[n].name == n && after[n] in parked)
    && (forall i :: 0 <= i < |parked| ==> parked[i].name !in before && !Live(parked[i]))
    && (forall i :: 0 <= i < |parked| ==> parked[i].name in after && after[parked[i].name] == parked[i])
    && DistinctNames(parked)
  }

  class Manager {
    const cluster: Cluster
    const namespace: string
    const resource: Resource
    const hash: string -> string
    const gcGracePeriod: int
    var queue: seq<QueueItem>

    constructor (cluster: Cluster, namespace: string, resource: Resource, hash: string -> string, gcGracePeriod: int)
      ensures this.cluster == cluster && this.namespace == namespace && this.resource == resource
      ensures this.hash == hash && this.gcGracePeriod == gcGracePeriod && queue == []
    {
      this.cluster, this.namespace, this.resource := cluster, namespace, resource;
      this.hash, this.gcGracePeriod := hash, gcGracePeriod;
      queue := [];
    }

    function OwnerKey(key: string): string {
      hash(OwnerText(resource, key))
    }

    ghost function Owner(): string -> string {
      key => OwnerKey(key)
    }

    method EnqueueFlagLatestStateForGC(key: string)
      modifies this`queue
      ensures queue == old(queue) + [Dispose(key)]
    {
      queue := queue + [Dispose(key)];
    }

    method EnqueueMoveStateToGC(key: string)
      modifies this`queue
      ensures queue == old(queue) + [Dispose(key)]
    {
      queue := queue + [Dispose(key)];
    }

    /** A missing state is not enqueued. */
    method EnqueueSetLatest(key: string, namespace: string, state: Option<string>)
      modifies this`queue
      ensures queue == if state.Some? then old(queue) + [SetLatest(key, namespace, state.value)] else old(queue)
      ensures Generated(queue) == Generated(old(queue)) + if state.Some? then [state.value] else []
    {
      if state.None? {
        return;
      }
      queue := queue + [SetLatest(key, namespace, state.value)];
      assert Front(queue) == old(queue);
    }

    method GetAllStates(key: string) returns (r: Option<seq<GeneratorState>>)
      requires cluster.Valid()
      modifies cluster`log
      ensures cluster.log == old(cluster.log) + [ListCall(namespace, OwnerKey(key), r)]
      ensures cluster.Valid() && (r.Some? ==> MayList(cluster.sys, r.value, namespace, OwnerKey(key)))
    {
      r := cluster.List(namespace, OwnerKey(key));
    }

    /**
     `None` on the outside is the error; inside, that there is no live state. The answer is the latest
     of what was listed, so if that was current it is one of the newest live states.
     */
    method GetLatestState(key: string) returns (r: Option<Option<GeneratorState>>, ghost listed: Option<seq<GeneratorState>>)
      requires cluster.Valid()
      modifies cluster`log
      ensures cluster.log == old(cluster.log) + [ListCall(namespace, OwnerKey(key), listed)]
      ensures cluster.Valid() && (r.Some? <==> listed.Some?)
      ensures r.Some? ==> MayAnswerFromCache(cluster.sys, namespace, OwnerKey(key), r.value)
      ensures r.Some? ==> MayList(cluster.sys, listed.value, namespace, OwnerKey(key)) && r.value == LatestOf(listed.value)
      ensures r.Some? && IsListing(listed.value, cluster.sys.records, namespace, OwnerKey(key)) ==>
                MayAnswer(cluster.sys.records, namespace, OwnerKey(key), r.value)
    {
      var list := cluster.List(namespace, OwnerKey(key));
      listed := list;
      if list.None? {
        r := None;
        return;
      }
      var latest := GetLatest(list.value);
      r := Some(latest);
    }

    method CreateGeneratorState(key: string, namespace: string, state: string) returns (r: Option<GeneratorState>)
      modifies cluster`log
      ensures cluster.log == old(cluster.log) + [SetOwnerCall(r.Some?)]
      ensures r.Some? ==> r.value == GeneratorState(0, namespace, OwnerKey(key), 0, None, state)
    {
      var ownerReferenceSet := cluster.SetOwnerReference();
      r := if ownerReferenceSet then Some(GeneratorState(0, namespace, OwnerKey(key), 0, None, state)) else None;
    }

    /**
     `disposeState`: tries to flag every live state listed but the latest. A failed update does not stop
     it, and is the only error it reports besides a failed listing.
     */
    method DisposeState(key: string) returns (errs: seq<StateError>, ghost listed: Option<seq<GeneratorState>>, ghost updates: map<nat, int>, ghost calls: seq<ApiCall>)
      requires cluster.Valid()
      modifies cluster`sys, cluster`clock, cluster`log
      ensures cluster.Valid() && cluster.clock >= old(cluster.clock)
      ensures cluster.log == old(cluster.log) + ([ListCall(namespace, OwnerKey(key), listed)] + calls)
      ensures listed.None? ==> errs == [ListFailed] && calls == [] && cluster.sys == old(cluster.sys)
      ensures listed.Some? ==> DisposedFrom(old(cluster.sys), cluster.sys, listed.value, updates, namespace, OwnerKey(key), calls)
      ensures listed.Some? ==> errs == FailedUpdates(calls)
      ensures DeadlinesWithin(old(cluster.sys).records, cluster.sys.records, old(cluster.clock) + gcGracePeriod, cluster.clock + gcGracePeriod)
    {
      updates, calls := map[], [];
      var allStates := GetAllStates(key);
      listed := allStates;
      if allStates.None? {
        errs := [ListFailed];
        return;
      }
      var list := allStates.value;
      var latest := GetLatest(list);
      if latest.None? {
        ReachableInv(cluster.sys);
        NoUpdates(cluster.sys, list);
        NothingWanted(list, |list|);
        errs := [];
        return;
      }
      errs, updates, calls := FlagOthers(list, latest.value);
      Associative(old(cluster.log), [ListCall(namespace, OwnerKey(key), listed)], calls);
      UpdatedWithin(old(cluster.sys).records, updates, old(cluster.clock) + gcGracePeriod, cluster.clock + gcGracePeriod);
    }

    /**
     The loop of `disposeState`, on whatever past versions were listed: one update for each live state
     listed that does not have the name of the latest, in order, and an error for each that failed.
     */
    method FlagOthers(list: seq<GeneratorState>, latest: GeneratorState)
      returns (errs: seq<StateError>, ghost updates: map<nat, int>, ghost calls: seq<ApiCall>)
      requires cluster.Valid() && PastListing(cluster.sys, list) && LatestOf(list) == Some(latest)
      modifies cluster`sys, cluster`clock, cluster`log
      ensures cluster.Valid() && cluster.clock >= old(cluster.clock)
      ensures cluster.log == old(cluster.log) + calls && TriedEach(calls, WantedNames(list, |list|))
      ensures errs == FailedUpdates(calls) && updates.Keys == Succeeded(calls)
      ensures updates.Keys <= ToFlag(list) * old(cluster.sys).records.Keys
      ensures forall n :: n in updates ==> Live(old(cluster.sys).records[n])
      ensures cluster.sys == Apply(old(cluster.sys), DisposeListed(list, updates))
      ensures Within(updates, old(cluster.clock) + gcGracePeriod, cluster.clock + gcGracePeriod)
    {
      ghost var before := cluster.Observed();
      errs, updates, calls := [], map[], [];
      FlaggingStarts(before, list, gcGracePeriod);
      for i := 0 to |list|
        invariant cluster.Valid() && Flagging(before, cluster.Observed(), list, updates, errs, calls, gcGracePeriod, i)
      {
        var state := list[i];
        ToFlagIff(list, i);
        ghost var mid := cluster.Observed();
        if state.name == latest.name || state.deadline.Some? {
          FlaggingSkips(before, mid, list, updates, errs, calls, gcGracePeriod, i);
          continue;
        }
        StillPast(before.sys, list, updates);
        var ok;
        ghost var deadline;
        ok, deadline := FlagForGC(state, list);
        ghost var errs';
        updates, errs', calls := FlaggingGoesOn(before, mid, cluster.Observed(), list, updates, errs, calls, gcGracePeriod, i, ok, deadline);
        if !ok {
          errs := errs + [UpdateFailed(state.name)];
        }
      }
    }

    /** The body of the loop: a state gets the deadline of the moment. */
    method FlagForGC(state: GeneratorState, ghost list: seq<GeneratorState>) returns (ok: bool, ghost deadline: int)
      requires cluster.Valid() && PastListing(cluster.sys, list) && state in list && state.name in ToFlag(list)
      modifies cluster`sys, cluster`clock, cluster`log
      ensures cluster.Valid() && cluster.log == old(cluster.log) + [UpdateCall(state.name, ok)]
      ensures old(cluster.clock) + gcGracePeriod <= deadline <= cluster.clock + gcGracePeriod
      ensures ok ==> state.name in old(cluster.sys).records && old(cluster.sys).records[state.name] == state
      ensures ok ==> cluster.sys == Apply(old(cluster.sys), DisposeListed(list, map[state.name := deadline]))
      ensures !ok ==> cluster.sys == old(cluster.sys)
    {
      var now := cluster.Now();
      var updated := state.(deadline := Some(now + gcGracePeriod));
      deadline := updated.deadline.value;
      ok := cluster.Update(state, updated, list);
    }

    method CommitItem(item: QueueItem) returns (errs: seq<StateError>, ghost report: Report)
      requires cluster.Valid()
      modifies cluster`sys, cluster`nextName, cluster`clock, cluster`log
      ensures cluster.Valid() && cluster.clock >= old(cluster.clock)
      ensures report.errs == errs && cluster.log == old(cluster.log) + report.calls
      ensures CommitStep(Owner(), namespace, item, old(cluster.sys), cluster.sys, report)
      ensures DeadlinesWithin(old(cluster.sys).records, cluster.sys.records, old(cluster.clock) + gcGracePeriod, cluster.clock + gcGracePeriod)
    {
      match item
      case Dispose(key) =>
        ghost var before := cluster.sys;
        ghost var listed, updates, calls;
        errs, listed, updates, calls := DisposeState(key);
        report := DisposeReport(before, cluster.sys, namespace, OwnerKey(key), errs, listed, updates, calls);
      case SetLatest(key, ns, state) =>
        errs, report := CommitState(key, ns, state);
    }

    /** The commit of `EnqueueSetLatest`. */
    method CommitState(key: string, ns: string, state: string) returns (errs: seq<StateError>, ghost report: Report)
      requires cluster.Valid()
      modifies cluster`sys, cluster`nextName, cluster`log
      ensures cluster.Valid()
      ensures report.errs == errs && report.current && cluster.log == old(cluster.log) + report.calls
      ensures MaySet(old(cluster.sys), cluster.sys, ns, OwnerKey(key), state, report)
      ensures NoDeadlineSet(old(cluster.sys).records, cluster.sys.records)
    {
      var genState := CreateGeneratorState(key, ns, state);
      if genState.None? {
        errs := [NoOwnerReference];
        report := Report(errs, [SetOwnerCall(false)], true);
        return;
      }
      ghost var before := cluster.sys;
      var ok;
      ghost var record;
      ok, record := cluster.Create(genState.value);
      assert ok ==> CreatedAs(before, cluster.sys, ns, OwnerKey(key), state, record);
      errs := if ok then [] else [CreateFailed];
      report := Report(errs, [SetOwnerCall(true), CreateCall(ok)], true);
    }

    method Commit() returns (errs: seq<StateError>, ghost reports: seq<Report>)
      requires cluster.Valid()
      modifies cluster`sys, cluster`nextName, cluster`clock, cluster`log
      ensures cluster.Valid() && cluster.clock >= old(cluster.clock)
      ensures DeadlinesWithin(old(cluster.sys).records, cluster.sys.records, old(cluster.clock) + gcGracePeriod, cluster.clock + gcGracePeriod)
      ensures CommitRun(Owner(), namespace, queue, old(cluster.sys), cluster.sys, reports) && errs == Joined(reports)
      ensures cluster.log == old(cluster.log) + CallsMade(reports)
    {
      errs, reports := [], [];
      var items := queue;
      ghost var owner, before := Owner(), cluster.Observed();
      for i := 0 to |items|
        invariant cluster.Valid()
        invariant Committed(owner, namespace, items[..i], before, cluster.Observed(), reports, errs, gcGracePeriod)
      {
        ghost var mid := cluster.Observed();
        var err;
        ghost var report;
        err, report := CommitItem(items[i]);
        CommitOneMore(owner, namespace, items, i, before, mid, cluster.Observed(), reports, report, errs, gcGracePeriod);
        errs, reports := errs + err, reports + [report];
      }
      assert items[..|items|] == items;
    }

    /**
     Undoes one action: cleans the provider state up, or else parks it as a record that is flagged
     already; if both fail the state is lost and there is an error.
     */
    method RollbackItem(item: QueueItem) returns (err: Option<StateError>, ghost fate: Fate)
      requires cluster.Valid()
      modifies cluster
      ensures cluster.Valid() && ItemRolledBack(Owner(), item, fate, err, old(cluster.Observed()), cluster.Observed())
    {
      err, fate := None, NothingToDo;
      match item
      case Dispose(_) =>
      case SetLatest(key, ns, state) =>
        var cleanedUp := cluster.Cleanup(state);
        if cleanedUp {
          fate := CleanedUp(state);
          return;
        }
        var genState := CreateGeneratorState(key, ns, state);
        if genState.None? {
          err, fate := Some(NoOwnerReference), Lost(state, NoOwnerReference);
          return;
        }
        var now := cluster.Now();
        var ok;
        ghost var record;
        ok, record := cluster.Create(genState.value.(deadline := Some(now)));
        if ok {
          fate := ParkedAs(record);
        } else {
          err, fate := Some(CreateFailed), Lost(state, CreateFailed);
        }
    }

    /**
     `Rollback`: clean-up is tried once for every provider state of the queue, in order, and each ends
     up cleaned up, parked under its own key as a record flagged for now, or lost with an error.
     Nothing that was stored changes, and the cluster accounts for every provider state.
     */
    method Rollback() returns (errs: seq<StateError>, ghost fates: seq<Fate>)
      requires cluster.Valid()
      modifies cluster
      ensures cluster.Valid() && RolledBack(Owner(), queue, fates, errs, old(cluster.Observed()), cluster.Observed())
      ensures exists calls :: cluster.log == old(cluster.log) + calls && CleanupsTried(calls) == Generated(queue)
      ensures |Generated(queue)|
           == (|cluster.cleaned| - |old(cluster.cleaned)|) + (|cluster.sys.records| - |old(cluster.sys).records|) + |errs|
    {
      errs, fates := [], [];
      var items := queue;
      ghost var owner, before := Owner(), cluster.Observed();
      for i := 0 to |items|
        invariant cluster.Valid() && RolledBack(owner, items[..i], fates, errs, before, cluster.Observed())
      {
        ghost var mid := cluster.Observed();
        ReachableInv(mid.sys);
        var err;
        ghost var fate;
        err, fate := RollbackItem(items[i]);
        RollBackOne(owner, items, i, fates, errs, before, mid, cluster.Observed(), fate, err);
        fates := fates + [fate];
        if err.Some? {
          errs := errs + [err.value];
        }
      }
      assert items[..|items|] == items;
      RollbackAccounts(owner, items, fates, errs, before, cluster.Observed());
      EachCleanupTriedOnce(items, fates);
    }
  }

  /** The report of a dispose. */
  lemma DisposeReport(before: System, after: System, ns: string, ownerKey: string, errs: seq<StateError>,
                      listed: Option<seq<GeneratorState>>, updates: map<nat, int>, calls: seq<ApiCall>) returns (report: Report)
    requires listed.None? ==> errs == [ListFailed] && calls == [] && after == before
    requires listed.Some? ==> DisposedFrom(before, after, listed.value, updates, ns, ownerKey, calls) && errs == FailedUpdates(calls)
    ensures report.errs == errs && report.calls == [ListCall(ns, ownerKey, listed)] + calls && MayDispose(before, after, ns, ownerKey, report)
  {
    report := Report(errs, [ListCall(ns, ownerKey, listed)] + calls, listed.Some? ==> IsListing(listed.value, before.records, ns, ownerKey));
    assert report.calls[1..] == calls;
  }

  /** If the hash does not clash, a manager tells its state keys apart. */
  lemma OwnerKeysDiffer(m: Manager, a: string, b: string)
    requires forall x, y :: m.hash(x) == m.hash(y) ==> x == y
    ensures m.OwnerKey(a) == m.OwnerKey(b) <==> a == b
  {
    OwnerTextsOfOneResource(m.resource, a, b);
  }

  // ---------------------------------------------------------------- what rolling back conserves

  /** What became of one queued action when it was rolled back. */
  datatype Fate =
    | NothingToDo
    | CleanedUp(state: string)
    | ParkedAs(record: GeneratorState)
    | Lost(state: string, error: StateError)

  ghost predicate Settles(item: QueueItem, fate: Fate, err: Option<StateError>) {
    && (item.Dispose? <==> fate.NothingToDo?)
    && (item.SetLatest? ==> StateOf(fate) == item.state)
    && (fate.Lost? ==> fate.error in {NoOwnerReference, CreateFailed})
    && err == if fate.Lost? then Some(fate.error) else None
  }

  /**
   A parked record carries the namespace and the owner key that a commit would have given it, and a
   deadline at the time it was written.
   */
  ghost predicate FiledUnder(owner: string -> string, from: int, to: int, item: QueueItem, fate: Fate) {
    fate.ParkedAs? ==>
      && item.SetLatest? && fate.record.namespace == item.namespace && fate.record.ownerKey == owner(item.key)
      && fate.record.deadline.Some? && from <= fate.record.deadline.value <= to
  }

  ghost predicate AllFiled(owner: string -> string, from: int, to: int, queue: seq<QueueItem>, fates: seq<Fate>) {
    |fates| == |queue| && forall i :: 0 <= i < |queue| ==> FiledUnder(owner, from, to, queue[i], fates[i])
  }

  lemma FileOne(owner: string -> string, from: int, mid: int, to: int, queue: seq<QueueItem>, i: nat, fates: seq<Fate>, fate: Fate)
    requires i < |queue| && AllFiled(owner, from, mid, queue[..i], fates) && from <= mid <= to
    requires FiledUnder(owner, mid, to, queue[i], fate)
    ensures AllFiled(owner, from, to, queue[..i + 1], fates + [fate])
  {
    forall k | 0 <= k <= i
      ensures FiledUnder(owner, from, to, queue[k], (fates + [fate])[k])
    {
      if k < i {
        assert queue[..i][k] == queue[k];
      }
    }
  }

  lemma {:induction false} CallOne(fates: seq<Fate>, fate: Fate, logBefore: seq<ApiCall>, logMid: seq<ApiCall>, log: seq<ApiCall>)
    requires logMid == logBefore + AllCallsFor(fates) && log == logMid + CallsFor(fate)
    ensures log == logBefore + AllCallsFor(fates + [fate])
  {
    AllCallsNext(fates, fate);
    Associative(logBefore, AllCallsFor(fates), CallsFor(fate));
  }

  lemma {:induction false} AllCallsNext(fates: seq<Fate>, fate: Fate)
    ensures AllCallsFor(fates + [fate]) == AllCallsFor(fates) + CallsFor(fate)
  {
    assert Front(fates + [fate]) == fates && Last(fates + [fate]) == fate;
  }

  lemma Associative<T>(a: seq<T>, b: seq<T>, c: seq<T>)
    ensures a + b + c == a + (b + c)
  {
  }

  function StateOf(fate: Fate): string {
    match fate
    case NothingToDo => ""
    case CleanedUp(state) => state
    case ParkedAs(record) => record.state
    case Lost(state, _) => state
  }

  ghost predicate AllSettled(queue: seq<QueueItem>, fates: seq<Fate>) {
    && |fates| == |queue|
    && forall i :: 0 <= i < |queue| ==>
         (queue[i].Dispose? <==> fates[i].NothingToDo?) && (queue[i].SetLatest? ==> StateOf(fates[i]) == queue[i].state)
  }

  ghost function CleanedBy(fates: seq<Fate>): seq<string> {
    if fates == [] then []
    else CleanedBy(Front(fates)) + match Last(fates) case CleanedUp(state) => [state] case _ => []
  }

  ghost function ParkedBy(fates: seq<Fate>): seq<GeneratorState> {
    if fates == [] then []
    else ParkedBy(Front(fates)) + match Last(fates) case ParkedAs(record) => [record] case _ => []
  }

  ghost function ErrorsOf(fates: seq<Fate>): seq<StateError> {
    if fates == [] then []
    else ErrorsOf(Front(fates)) + match Last(fates) case Lost(_, error) => [error] case _ => []
  }

  /** The trace one settled action leaves in the cluster: a parked record is an event, all else changes nothing stored. */
  ghost predicate Leaves(fate: Fate, before: System, after: System, cleanedBefore: seq<string>, cleaned: seq<string>) {
    && cleaned == cleanedBefore + (if fate.CleanedUp? then [fate.state] else [])
    && if fate.ParkedAs? then Enabled(before, Park(fate.record)) && after == Apply(before, Park(fate.record)) else after == before
  }

  ghost predicate NoLiveVersionAdded(before: System, after: System) {
    && after.created == before.created && before.seen <= after.seen
    && forall s :: s in after.seen && Live(s) ==> s in before.seen
  }

  /** The calls that lead to a fate: clean-up first, then, if it fails, the record that parks the state. */
  ghost function CallsFor(fate: Fate): seq<ApiCall> {
    match fate
    case NothingToDo => []
    case CleanedUp(state) => [CleanupCall(state, true)]
    case ParkedAs(record) => [CleanupCall(record.state, false), SetOwnerCall(true), CreateCall(true)]
    case Lost(state, error) =>
      if error == NoOwnerReference then [CleanupCall(state, false), SetOwnerCall(false)]
      else [CleanupCall(state, false), SetOwnerCall(true), CreateCall(false)]
  }

  ghost function AllCallsFor(fates: seq<Fate>): seq<ApiCall> {
    if fates == [] then [] else AllCallsFor(Front(fates)) + CallsFor(Last(fates))
  }

  /** The provider states whose clean-up was tried. */
  ghost function CleanupsTried(calls: seq<ApiCall>): seq<string> {
    if calls == [] then [] else CleanupsTried(Front(calls)) + if Last(calls).CleanupCall? then [Last(calls).state] else []
  }

  lemma {:induction false} CleanupsTriedSplit(a: seq<ApiCall>, b: seq<ApiCall>)
    ensures CleanupsTried(a + b) == CleanupsTried(a) + CleanupsTried(b)
  {
    if b == [] {
      assert a + b == a;
    } else {
      assert Front(a + b) == a + Front(b) && Last(a + b) == Last(b);
      CleanupsTriedSplit(a, Front(b));
    }
  }

  lemma {:induction false} OneCleanupTried(fate: Fate)
    ensures CleanupsTried(CallsFor(fate)) == if fate.NothingToDo? then [] else [StateOf(fate)]
  {
    if !fate.NothingToDo? {
      var calls := CallsFor(fate);
      var first := [calls[0]];
      assert Front(first) == [] && CleanupsTried(first) == [StateOf(fate)];
      NoMoreCleanups(calls[1..]);
      CleanupsTriedSplit(first, calls[1..]);
      assert calls == first + calls[1..];
    }
  }

  lemma {:induction false} NoMoreCleanups(calls: seq<ApiCall>)
    requires forall call :: call in calls ==> !call.CleanupCall?
    ensures CleanupsTried(calls) == []
  {
    if calls != [] {
      assert Last(calls) in calls;
      NoMoreCleanups(Front(calls));
    }
  }

  /** A roll-back tries to clean up each provider state of the queue once, in order. */
  lemma {:induction false} EachCleanupTriedOnce(queue: seq<QueueItem>, fates: seq<Fate>)
    requires AllSettled(queue, fates)
    ensures CleanupsTried(AllCallsFor(fates)) == Generated(queue)
  {
    if queue != [] {
      EachCleanupTriedOnce(Front(queue), Front(fates));
      OneCleanupTried(Last(fates));
      CleanupsTriedSplit(AllCallsFor(Front(fates)), CallsFor(Last(fates)));
    }
  }

  /** What rolling back one action does: its calls lead to the one fate of its provider state. */
  ghost predicate ItemRolledBack(owner: string -> string, item: QueueItem, fate: Fate, err: Option<StateError>, before: View, after: View) {
    && before.clock <= after.clock
    && after.log == before.log + CallsFor(fate)
    && Settles(item, fate, err) && FiledUnder(owner, before.clock, after.clock, item, fate)
    && Leaves(fate, before.sys, after.sys, before.cleaned, after.cleaned)
  }

  /**
   The outcome of a roll-back: every action is settled, by the calls that lead to its fate, and there is
   nothing in the cluster but its traces.
   */
  ghost predicate RolledBack(owner: string -> string, queue: seq<QueueItem>, fates: seq<Fate>, errs: seq<StateError>, before: View, after: View) {
    && before.clock <= after.clock
    && after.log == before.log + AllCallsFor(fates)
    && AllFiled(owner, before.clock, after.clock, queue, fates)
    && AllSettled(queue, fates) && errs == ErrorsOf(fates)
    && after.cleaned == before.cleaned + CleanedBy(fates)
    && Parked(before.sys.records, after.sys.records, ParkedBy(fates)) && NoLiveVersionAdded(before.sys, after.sys)
  }

  lemma RollBackOne(owner: string -> string, queue: seq<QueueItem>, i: nat, fates: seq<Fate>, errs: seq<StateError>,
                    before: View, mid: View, after: View, fate: Fate, err: Option<StateError>)
    requires i < |queue| && RolledBack(owner, queue[..i], fates, errs, before, mid) && NamesMatch(mid.sys)
    requires ItemRolledBack(owner, queue[i], fate, err, mid, after)
    ensures RolledBack(owner, queue[..i + 1], fates + [fate], if err.Some? then errs + [err.value] else errs, before, after)
  {
    FileOne(owner, before.clock, mid.clock, after.clock, queue, i, fates, fate);
    CallOne(fates, fate, before.log, mid.log, after.log);
    SettleOne(queue, i, fates, fate, err);
    CleanOne(fates, fate, before.cleaned, mid.cleaned, after.cleaned);
    ParkOne(before.sys, mid.sys, after.sys, fates, fate);
  }

  lemma {:induction false} ParkOne(before: System, mid: System, after: System, fates: seq<Fate>, fate: Fate)
    requires Parked(before.records, mid.records, ParkedBy(fates)) && NoLiveVersionAdded(before, mid) && NamesMatch(mid)
    requires if fate.ParkedAs? then Enabled(mid, Park(fate.record)) && after == Apply(mid, Park(fate.record)) else after == mid
    ensures Parked(before.records, after.records, ParkedBy(fates + [fate])) && NoLiveVersionAdded(before, after)
  {
    ParkedByNext(fates, fate);
    if fate.ParkedAs? {
      ParkMore(before.records, mid.records, after.records, ParkedBy(fates), fate.record);
      ParkAddsNoLive(before, mid, fate.record);
    }
  }

  lemma {:induction false} ParkedByNext(fates: seq<Fate>, fate: Fate)
    ensures ParkedBy(fates + [fate]) == if fate.ParkedAs? then ParkedBy(fates) + [fate.record] else ParkedBy(fates)
  {
    assert Front(fates + [fate]) == fates;
    assert ParkedBy(fates) + [] == ParkedBy(fates);
  }

  lemma ParkAddsNoLive(before: System, mid: System, record: GeneratorState)
    ensures NoLiveVersionAdded(before, mid) && !Live(record) ==> NoLiveVersionAdded(before, Apply(mid, Park(record)))
  {
  }

  lemma {:induction false} CleanOne(fates: seq<Fate>, fate: Fate, cleanedBefore: seq<string>, cleanedMid: seq<string>, cleaned: seq<string>)
    requires cleanedMid == cleanedBefore + CleanedBy(fates)
    requires cleaned == cleanedMid + if fate.CleanedUp? then [fate.state] else []
    ensures cleaned == cleanedBefore + CleanedBy(fates + [fate])
  {
    assert Front(fates + [fate]) == fates;
  }

  lemma {:induction false} SettleOne(queue: seq<QueueItem>, i: nat, fates: seq<Fate>, fate: Fate, err: Option<StateError>)
    requires i < |queue| && AllSettled(queue[..i], fates) && Settles(queue[i], fate, err)
    ensures AllSettled(queue[..i + 1], fates + [fate])
    ensures ParkedBy(fates + [fate]) == ParkedBy(fates) + if fate.ParkedAs? then [fate.record] else []
    ensures ErrorsOf(fates + [fate]) == ErrorsOf(fates) + if err.Some? then [err.value] else []
  {
    assert Front(fates + [fate]) == fates;
  }

  /** As many provider states as were enqueued are cleaned up, parked, or reported as an error. */
  lemma {:induction false} RollbackConserves(queue: seq<QueueItem>, fates: seq<Fate>)
    requires AllSettled(queue, fates)
    ensures |Generated(queue)| == |CleanedBy(fates)| + |ParkedBy(fates)| + |ErrorsOf(fates)|
  {
    if queue != [] {
      var n := |queue| - 1;
      RollbackConserves(queue[..n], fates[..n]);
    }
  }

  /** And so the cluster shows: its clean-ups, its new records and the errors account for every provider state. */
  lemma {:induction false} RollbackAccounts(owner: string -> string, queue: seq<QueueItem>, fates: seq<Fate>, errs: seq<StateError>, before: View, after: View)
    requires RolledBack(owner, queue, fates, errs, before, after)
    ensures |Generated(queue)|
         == (|after.cleaned| - |before.cleaned|) + (|after.sys.records| - |before.sys.records|) + |errs|
  {
    RollbackConserves(queue, fates);
    ParkedCount(before.sys.records, after.sys.records, ParkedBy(fates));
  }

  lemma ParkedCount(before: Store, after: Store, parked: seq<GeneratorState>)
    requires Parked(before, after, parked)
    ensures |after| == |before| + |parked|
  {
    DistinctCount(parked);
    ParkedNames(before, after, parked);
    var names := NamesOf(parked);
    assert |before.Keys + names| == |before.Keys| + |names|;
  }

  lemma ParkedNames(before: Store, after: Store, parked: seq<GeneratorState>)
    requires Parked(before, after, parked)
    ensures after.Keys == before.Keys + NamesOf(parked) && before.Keys !! NamesOf(parked)
  {
    forall n | n in after && n !in before
      ensures n in NamesOf(parked)
    {
      var i :| 0 <= i < |parked| && parked[i] == after[n];
    }
    forall n | n in NamesOf(parked)
      ensures n in after && n !in before
    {
      var s :| s in parked && s.name == n;
      var i :| 0 <= i < |parked| && parked[i] == s;
    }
  }

  lemma {:induction false} DistinctCount(list: seq<GeneratorState>)
    requires DistinctNames(list)
    ensures |NamesOf(list)| == |list|
  {
    if list != [] {
      var n := |list| - 1;
      DistinctCount(list[..n]);
      NamesOfNext(list, n);
      assert list[..n + 1] == list;
    }
  }

  /** No error means no leak: each enqueued provider state is cleaned up or parked as a flagged record. */
  lemma {:induction false} NoErrorNoLeak(queue: seq<QueueItem>, fates: seq<Fate>, i: int)
    requires AllSettled(queue, fates) && ErrorsOf(fates) == [] && 0 <= i < |queue| && queue[i].SetLatest?
    ensures queue[i].state in CleanedBy(fates)
         || (fates[i].ParkedAs? && fates[i].record.state == queue[i].state && fates[i].record in ParkedBy(fates))
  {
    var n := |queue| - 1;
    if i < n {
      NoErrorNoLeak(queue[..n], fates[..n], i);
    }
  }

  /** Rolling back never changes what `GetLatestState` may answer from a current listing, for any key. */
  lemma RollbackKeepsAnswers(before: Store, after: Store, parked: seq<GeneratorState>, ns: string, ownerKey: string,
                             answer: Option<GeneratorState>)
    requires WellNamed(before) && Parked(before, after, parked)
    ensures MayAnswer(before, ns, ownerKey, answer) <==> MayAnswer(after, ns, ownerKey, answer)
  {
    ParkedIsFlagged(before, after, parked);
    FlaggedRecordsDoNotAnswer(before, after, ns, ownerKey, answer);
  }

  lemma ParkedIsFlagged(before: Store, after: Store, parked: seq<GeneratorState>)
    ensures Parked(before, after, parked) ==> OnlyFlaggedAdded(before, after)
  {
  }

  /** What `GetLatestState` may answer from any listing its client may return. */
  ghost predicate MayAnswerFromCache(sys: System, ns: string, ownerKey: string, answer: Option<GeneratorState>) {
    exists list :: MayList(sys, list, ns, ownerKey) && LatestOf(list) == answer
  }

  function LiveOnly(list: seq<GeneratorState>): seq<GeneratorState> {
    if list == [] then [] else LiveOnly(Front(list)) + if Live(Last(list)) then [Last(list)] else []
  }

  lemma {:induction false} LiveOnlyListed(list: seq<GeneratorState>, s: GeneratorState)
    requires s in LiveOnly(list)
    ensures s in list && Live(s)
  {
    if s in LiveOnly(Front(list)) {
      LiveOnlyListed(Front(list), s);
    }
  }

  lemma {:induction false} LiveOnlyLatest(list: seq<GeneratorState>)
    ensures LatestOf(LiveOnly(list)) == LatestOf(list)
  {
    if list != [] {
      LiveOnlyLatest(Front(list));
      if Live(Last(list)) {
        assert Front(LiveOnly(list)) == LiveOnly(Front(list)) && Last(LiveOnly(list)) == Last(list);
      } else {
        assert LiveOnly(list) == LiveOnly(Front(list));
      }
    }
  }

  lemma {:induction false} LiveOnlyDistinct(list: seq<GeneratorState>)
    requires DistinctNames(list)
    ensures DistinctNames(LiveOnly(list))
  {
    if list != [] {
      var front := Front(list);
      LiveOnlyDistinct(front);
      forall s | s in LiveOnly(front)
        ensures s.name != Last(list).name
      {
        LiveOnlyListed(front, s);
        var j :| 0 <= j < |front| && front[j] == s;
        assert list[j] == s;
      }
    }
  }

  /** Nor does it change what may be answered from a stale listing. */
  lemma RollbackKeepsCachedAnswers(before: System, after: System, ns: string, ownerKey: string, answer: Option<GeneratorState>)
    requires NoLiveVersionAdded(before, after)
    ensures MayAnswerFromCache(before, ns, ownerKey, answer) <==> MayAnswerFromCache(after, ns, ownerKey, answer)
  {
    if MayAnswerFromCache(after, ns, ownerKey, answer) {
      var list :| MayList(after, list, ns, ownerKey) && LatestOf(list) == answer;
      LiveOnlyLatest(list);
      LiveOnlyDistinct(list);
      forall s | s in LiveOnly(list)
        ensures s in before.seen && InScope(s, ns, ownerKey)
      {
        LiveOnlyListed(list, s);
      }
      assert MayList(before, LiveOnly(list), ns, ownerKey);
    }
    if MayAnswerFromCache(before, ns, ownerKey, answer) {
      var list :| MayList(before, list, ns, ownerKey) && LatestOf(list) == answer;
      assert MayList(after, list, ns, ownerKey);
    }
  }

  // ---------------------------------------------------------------- proofs about the loops

  ghost function NamesOf(list: seq<GeneratorState>): set<nat> {
    set s | s in list :: s.name
  }

  lemma NamesOfNext(list: seq<GeneratorState>, i: nat)
    requires i < |list|
    ensures NamesOf(list[..i + 1]) == NamesOf(list[..i]) + {list[i].name}
    ensures DistinctNames(list) ==> list[i].name !in NamesOf(list[..i])
  {
    assert list[..i + 1] == list[..i] + [list[i]];
    forall s | s in list[..i + 1]
      ensures s in list[..i] || s == list[i]
    {
    }
    assert list[i] in list[..i + 1];
    forall s | s in list[..i]
      ensures s in list[..i + 1]
    {
    }
  }

  ghost predicate Within(updates: map<nat, int>, from: int, to: int) {
    forall n :: n in updates ==> from <= updates[n] <= to
  }

  lemma UpdatedWithin(before: Store, updates: map<nat, int>, from: int, to: int)
    ensures Within(updates, from, to) ==> DeadlinesWithin(before, Updated(before, updates), from, to)
  {
  }

  lemma DeadlinesCompose(before: Store, mid: Store, after: Store, from: int, a: int, to: int)
    ensures DeadlinesWithin(before, mid, from, a) && DeadlinesWithin(mid, after, a, to) && from <= a <= to ==> DeadlinesWithin(before, after, from, to)
  {
  }

  lemma {:induction false} NoUpdates(sys: System, list: seq<GeneratorState>)
    requires NamesMatch(sys)
    ensures Apply(sys, DisposeListed(list, map[])) == sys
    ensures LatestOf(list).None? ==> ToFlag(list) == {}
  {
    assert Updated(sys.records, map[]) == sys.records;
    assert sys.seen + sys.records.Values == sys.seen;
  }

  ghost predicate FlaggedSome(before: System, now: System, list: seq<GeneratorState>, updates: map<nat, int>) {
    && NamesMatch(before) && PastListing(before, list)
    && updates.Keys <= ToFlag(list) * before.records.Keys
    && (forall n :: n in updates ==> Live(before.records[n]))
    && now == Apply(before, DisposeListed(list, updates))
  }

  /** The invariant of the loop of `disposeState`. */
  ghost predicate Flagging(before: View, now: View, list: seq<GeneratorState>, updates: map<nat, int>, errs: seq<StateError>,
                           calls: seq<ApiCall>, grace: int, i: nat) {
    && before.clock <= now.clock && now.log == before.log + calls
    && FlaggedSome(before.sys, now.sys, list, updates) && Within(updates, before.clock + grace, now.clock + grace)
    && Reported(list, updates, errs, calls, i)
  }

  lemma {:induction false} FlaggingStarts(before: View, list: seq<GeneratorState>, grace: int)
    requires Reachable(before.sys) && PastListing(before.sys, list)
    ensures Flagging(before, before, list, map[], [], [], grace, 0)
  {
    ReachableInv(before.sys);
    NoUpdates(before.sys, list);
  }

  lemma {:induction false} FlaggingSkips(before: View, now: View, list: seq<GeneratorState>, updates: map<nat, int>, errs: seq<StateError>,
                                         calls: seq<ApiCall>, grace: int, i: nat)
    requires i < |list| && Flagging(before, now, list, updates, errs, calls, grace, i) && !Wanted(list, list[i])
    ensures Flagging(before, now, list, updates, errs, calls, grace, i + 1)
  {
    ReportSkipped(list, updates, errs, calls, i);
  }

  lemma {:induction false} FlaggingGoesOn(before: View, mid: View, now: View, list: seq<GeneratorState>, updates: map<nat, int>, errs: seq<StateError>,
                                          calls: seq<ApiCall>, grace: int, i: nat, ok: bool, deadline: int)
      returns (updates': map<nat, int>, errs': seq<StateError>, calls': seq<ApiCall>)
    requires i < |list| && Flagging(before, mid, list, updates, errs, calls, grace, i) && Wanted(list, list[i])
    requires mid.clock + grace <= deadline <= now.clock + grace && now.log == mid.log + [UpdateCall(list[i].name, ok)]
    requires ok ==> list[i].name in mid.sys.records && mid.sys.records[list[i].name] == list[i]
    requires now.sys == if ok then Apply(mid.sys, DisposeListed(list, map[list[i].name := deadline])) else mid.sys
    ensures updates' == if ok then updates[list[i].name := deadline] else updates
    ensures errs' == if ok then errs else errs + [UpdateFailed(list[i].name)]
    ensures calls' == calls + [UpdateCall(list[i].name, ok)]
    ensures Flagging(before, now, list, updates', errs', calls', grace, i + 1)
  {
    updates' := if ok then updates[list[i].name := deadline] else updates;
    errs' := if ok then errs else errs + [UpdateFailed(list[i].name)];
    calls' := calls + [UpdateCall(list[i].name, ok)];
    ReportOne(list, updates, errs, calls, i, ok, deadline);
    Associative(before.log, calls, [UpdateCall(list[i].name, ok)]);
    FlaggedOneMore(before.sys, mid.sys, now.sys, list, updates, i, ok, deadline);
    WithinOneMore(updates, before.clock + grace, mid.clock + grace, now.clock + grace, list[i].name, deadline);
  }

  lemma {:induction false} WithinOneMore(updates: map<nat, int>, from: int, a: int, to: int, n: nat, deadline: int)
    requires Within(updates, from, a) && from <= a <= deadline <= to
    ensures Within(updates, from, to) && Within(updates[n := deadline], from, to)
  {
  }

  lemma {:induction false} FlaggedOneMore(before: System, mid: System, now: System, list: seq<GeneratorState>, updates: map<nat, int>,
                                          i: nat, ok: bool, deadline: int)
    requires i < |list| && FlaggedSome(before, mid, list, updates) && Wanted(list, list[i])
    requires ok ==> list[i].name in mid.records && mid.records[list[i].name] == list[i]
    requires now == if ok then Apply(mid, DisposeListed(list, map[list[i].name := deadline])) else mid
    ensures FlaggedSome(before, now, list, if ok then updates[list[i].name := deadline] else updates)
  {
    if ok {
      ToFlagIff(list, i);
      FlagOneMore(before, mid, now, list, updates, list[i], deadline);
    }
  }

  lemma StillPast(before: System, list: seq<GeneratorState>, updates: map<nat, int>)
    ensures PastListing(before, list) ==> PastListing(Apply(before, DisposeListed(list, updates)), list)
  {
  }

  /** Flagging one state more is one more update of the same listing. */
  lemma FlagOneMore(before: System, mid: System, now: System, list: seq<GeneratorState>, updates: map<nat, int>,
                    state: GeneratorState, deadline: int)
    requires FlaggedSome(before, mid, list, updates) && state.name in ToFlag(list) && Live(state)
    requires state.name in mid.records && mid.records[state.name] == state
    requires now == Apply(mid, DisposeListed(list, map[state.name := deadline]))
    ensures FlaggedSome(before, now, list, updates[state.name := deadline]) && state.name !in updates
  {
    UpdatedTwice(before.records, updates, state.name, deadline);
    SeenTwice(before, updates, state.name, deadline);
  }

  lemma UpdatedTwice(records: Store, updates: map<nat, int>, n: nat, deadline: int)
    ensures Updated(Updated(records, updates), map[n := deadline]) == Updated(records, updates[n := deadline])
  {
  }

  /** What the two updates stored in between is either an older version or what they store in the end. */
  lemma SeenTwice(before: System, updates: map<nat, int>, n: nat, deadline: int)
    requires NamesMatch(before) && n !in updates
    ensures before.seen + Updated(before.records, updates).Values + Updated(before.records, updates[n := deadline]).Values
         == before.seen + Updated(before.records, updates[n := deadline]).Values
  {
    var mid, end := Updated(before.records, updates), Updated(before.records, updates[n := deadline]);
    forall s | s in mid.Values
      ensures s in before.seen + end.Values
    {
      var k :| k in mid && mid[k] == s;
      assert if k == n then s in before.seen else end[k] == s && end[k] in end.Values;
    }
  }

  lemma {:induction false} ToFlagIff(list: seq<GeneratorState>, i: nat)
    requires i < |list|
    ensures list[i] in list
    ensures Live(list[i]) && LatestOf(list).Some? && list[i].name != LatestOf(list).value.name ==> list[i].name in ToFlag(list)
  {
  }

  /** For each of the first `i` states listed that are to be flagged there was one call, which flagged it or is reported. */
  ghost predicate Reported(list: seq<GeneratorState>, updates: map<nat, int>, errs: seq<StateError>, calls: seq<ApiCall>, i: nat) {
    && i <= |list| && TriedEach(calls, WantedNames(list, i))
    && errs == FailedUpdates(calls) && updates.Keys == Succeeded(calls)
  }

  lemma {:induction false} WantedNamesNext(list: seq<GeneratorState>, i: nat)
    requires i < |list|
    ensures WantedNames(list, i + 1) == if Wanted(list, list[i]) then WantedNames(list, i) + [list[i].name] else WantedNames(list, i)
  {
  }

  lemma {:induction false} ReportSkipped(list: seq<GeneratorState>, updates: map<nat, int>, errs: seq<StateError>, calls: seq<ApiCall>, i: nat)
    requires i < |list| && Reported(list, updates, errs, calls, i) && !Wanted(list, list[i])
    ensures Reported(list, updates, errs, calls, i + 1)
  {
    WantedNamesNext(list, i);
  }

  lemma {:induction false} OneMoreTry(calls: seq<ApiCall>, names: seq<nat>, name: nat, ok: bool)
    ensures TriedEach(calls, names) ==> TriedEach(calls + [UpdateCall(name, ok)], names + [name])
  {
  }

  lemma {:induction false} OneMoreFailure(calls: seq<ApiCall>, name: nat, ok: bool)
    ensures FailedUpdates(calls + [UpdateCall(name, ok)]) == if ok then FailedUpdates(calls) else FailedUpdates(calls) + [UpdateFailed(name)]
  {
    assert Front(calls + [UpdateCall(name, ok)]) == calls;
  }

  lemma {:induction false} OneMoreSuccess(calls: seq<ApiCall>, name: nat, ok: bool)
    ensures Succeeded(calls + [UpdateCall(name, ok)]) == if ok then Succeeded(calls) + {name} else Succeeded(calls)
  {
    var more := calls + [UpdateCall(name, ok)];
    assert forall call :: call in more <==> call in calls || call == UpdateCall(name, ok);
    if ok {
      assert UpdateCall(name, true) in more;
    }
  }

  lemma {:induction false} ReportOne(list: seq<GeneratorState>, updates: map<nat, int>, errs: seq<StateError>, calls: seq<ApiCall>, i: nat,
                                     ok: bool, deadline: int)
    requires i < |list| && Wanted(list, list[i]) && Reported(list, updates, errs, calls, i)
    ensures Reported(list, if ok then updates[list[i].name := deadline] else updates,
                     if ok then errs else errs + [UpdateFailed(list[i].name)], calls + [UpdateCall(list[i].name, ok)], i + 1)
  {
    WantedNamesNext(list, i);
    OneMoreTry(calls, WantedNames(list, i), list[i].name, ok);
    OneMoreFailure(calls, list[i].name, ok);
    OneMoreSuccess(calls, list[i].name, ok);
    OneMoreKey(updates, list[i].name, deadline);
  }

  lemma {:induction false} OneMoreKey(updates: map<nat, int>, n: nat, deadline: int)
    ensures updates[n := deadline].Keys == updates.Keys + {n}
  {
  }

  lemma {:induction false} NothingWanted(list: seq<GeneratorState>, i: nat)
    requires LatestOf(list).None? && i <= |list|
    ensures WantedNames(list, i) == []
  {
    if i > 0 {
      NothingWanted(list, i - 1);
    }
  }

  /** The invariant of the loop of `Commit`. */
  ghost predicate Committed(owner: string -> string, ns: string, queue: seq<QueueItem>, before: View, now: View,
                            reports: seq<Report>, errs: seq<StateError>, grace: int) {
    && before.clock <= now.clock
    && CommitRun(owner, ns, queue, before.sys, now.sys, reports)
    && errs == Joined(reports) && now.log == before.log + CallsMade(reports)
    && DeadlinesWithin(before.sys.records, now.sys.records, before.clock + grace, now.clock + grace)
  }

  lemma CommitOneMore(owner: string -> string, ns: string, queue: seq<QueueItem>, i: nat, before: View, mid: View, after: View,
                      reports: seq<Report>, report: Report, errs: seq<StateError>, grace: int)
    requires i < |queue| && Committed(owner, ns, queue[..i], before, mid, reports, errs, grace)
    requires CommitStep(owner, ns, queue[i], mid.sys, after.sys, report) && after.log == mid.log + report.calls
    requires DeadlinesWithin(mid.sys.records, after.sys.records, mid.clock + grace, after.clock + grace) && mid.clock <= after.clock
    ensures Committed(owner, ns, queue[..i + 1], before, after, reports + [report], errs + report.errs, grace)
  {
    assert Front(queue[..i + 1]) == queue[..i] && Last(queue[..i + 1]) == queue[i];
    assert Front(reports + [report]) == reports && Last(reports + [report]) == report;
    JoinedOneMore(reports, report);
    LogOneMore(before.log, reports, report);
    DeadlinesCompose(before.sys.records, mid.sys.records, after.sys.records, before.clock + grace, mid.clock + grace, after.clock + grace);
  }

  lemma {:induction false} LogOneMore(log: seq<ApiCall>, reports: seq<Report>, report: Report)
    ensures log + CallsMade(reports + [report]) == log + CallsMade(reports) + report.calls
  {
    assert Front(reports + [report]) == reports && Last(reports + [report]) == report;
    Associative(log, CallsMade(reports), report.calls);
  }

  lemma {:induction false} JoinedOneMore(reports: seq<Report>, report: Report)
    ensures Joined(reports + [report]) == Joined(reports) + report.errs
  {
    assert Front(reports + [report]) == reports;
  }

  lemma ParkMore(before: Store, mid: Store, after: Store, parked: seq<GeneratorState>, record: GeneratorState)
    requires Parked(before, mid, parked) && after == mid[record.name := record] && record.name !in mid && !Live(record)
    ensures Parked(before, after, parked + [record])
  {
    var more := parked + [record];
    assert more[|parked|] == record;
    forall n | n in after && n !in before
      ensures after[n].name == n && after[n] in more
    {
      if n in mid {
        assert mid[n] in parked;
      }
    }
  }
}
