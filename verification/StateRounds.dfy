/**
 Rounds of reconciling: each round commits a queue that flags the old states of a key and sets a new
 one. How many live states remain depends on which of the two comes first.
 */
module StateRounds {
  import opened Wrappers
  import opened Sequences
  import opened GeneratorStates
  import opened StateRuns
  import opened StateManager

  function FlagThenSet(key: string, ns: string, state: string): seq<QueueItem> {
    [Dispose(key), SetLatest(key, ns, state)]
  }

  function SetThenFlag(key: string, ns: string, state: string): seq<QueueItem> {
    [SetLatest(key, ns, state), Dispose(key)]
  }

  ghost predicate IsNewestName(store: Store, ns: string, ownerKey: string, name: nat) {
    && name in LiveNames(store, ns, ownerKey)
    && forall n :: n in LiveNames(store, ns, ownerKey) ==> store[n].created <= store[name].created
  }

  /** One live state is left if there was any, and it is a newest one; and only deadlines have changed. */
  ghost predicate LeavesLatest(before: System, after: System, ns: string, ownerKey: string, latest: Option<nat>) {
    && NamesMatch(after) && OnlyDeadlinesDiffer(before.records, after.records)
    && (latest.None? <==> LiveNames(before.records, ns, ownerKey) == {})
    && LiveNames(after.records, ns, ownerKey) == (if latest.Some? then {latest.value} else {})
    && (latest.Some? ==> IsNewestName(before.records, ns, ownerKey, latest.value))
  }

  ghost predicate OnlyDeadlinesDiffer(before: Store, after: Store) {
    && after.Keys == before.Keys
    && forall n :: n in before ==> after[n].state == before[n].state && after[n].created == before[n].created
  }

  lemma DisposeChangesDeadlinesOnly(before: System, list: seq<GeneratorState>, updates: map<nat, int>)
    ensures NamesMatch(before) ==> var after := Apply(before, DisposeListed(list, updates));
            NamesMatch(after) && OnlyDeadlinesDiffer(before.records, after.records)
  {
  }

  /** A dispose without errors, on a current listing. */
  ghost predicate CleanDispose(before: System, after: System, ns: string, ownerKey: string) {
    exists report :: MayDispose(before, after, ns, ownerKey, report) && IsClean(report)
  }

  ghost predicate CleanStep(owner: string -> string, ns: string, item: QueueItem, before: System, after: System) {
    exists report :: CommitStep(owner, ns, item, before, after, report) && IsClean(report)
  }

  /** A commit of two actions without errors, on current listings. */
  ghost predicate CleanRun(owner: string -> string, ns: string, queue: seq<QueueItem>, before: System, after: System) {
    exists reports :: CommitRun(owner, ns, queue, before, after, reports) && forall r :: r in reports ==> IsClean(r)
  }

  /** Without errors and on a current listing, a dispose leaves the latest. */
  lemma CleanDisposeOf(before: System, after: System, ns: string, ownerKey: string) returns (latest: Option<nat>)
    requires NamesMatch(before) && CleanDispose(before, after, ns, ownerKey)
    ensures LeavesLatest(before, after, ns, ownerKey, latest)
  {
    var list, updates := CleanListing(before, after, ns, ownerKey);
    latest := DisposeOnCurrentListing(before, list, updates, ns, ownerKey);
  }

  lemma CleanListing(before: System, after: System, ns: string, ownerKey: string) returns (list: seq<GeneratorState>, updates: map<nat, int>)
    requires CleanDispose(before, after, ns, ownerKey)
    ensures IsListing(list, before.records, ns, ownerKey) && after == Apply(before, DisposeListed(list, updates))
    ensures updates.Keys == ToFlag(list) && updates.Keys <= before.records.Keys
  {
    var report :| MayDispose(before, after, ns, ownerKey, report) && IsClean(report);
    list, updates := ReportedListing(before, after, ns, ownerKey, report);
    NoErrorMeansAllFlagged(list, report.calls[1..]);
  }

  lemma ReportedListing(before: System, after: System, ns: string, ownerKey: string, report: Report) returns (list: seq<GeneratorState>, updates: map<nat, int>)
    requires MayDispose(before, after, ns, ownerKey, report) && IsClean(report)
    ensures report.calls != [] && IsListing(list, before.records, ns, ownerKey)
    ensures DisposedFrom(before, after, list, updates, ns, ownerKey, report.calls[1..]) && FailedUpdates(report.calls[1..]) == []
  {
    list := report.calls[0].result.value;
    updates :| DisposedFrom(before, after, list, updates, ns, ownerKey, report.calls[1..]);
  }

  lemma DisposeOnCurrentListing(before: System, list: seq<GeneratorState>, updates: map<nat, int>, ns: string, ownerKey: string)
    returns (latest: Option<nat>)
    requires NamesMatch(before) && IsListing(list, before.records, ns, ownerKey)
    requires updates.Keys == ToFlag(list) && updates.Keys <= before.records.Keys
    ensures LeavesLatest(before, Apply(before, DisposeListed(list, updates)), ns, ownerKey, latest)
  {
    DisposeChangesDeadlinesOnly(before, list, updates);
    latest := LatestLeft(before.records, list, updates, ns, ownerKey);
  }

  lemma LatestLeft(before: Store, list: seq<GeneratorState>, updates: map<nat, int>, ns: string, ownerKey: string)
    returns (latest: Option<nat>)
    requires WellNamed(before) && IsListing(list, before, ns, ownerKey)
    requires updates.Keys == ToFlag(list) && updates.Keys <= before.Keys
    ensures latest.None? <==> LiveNames(before, ns, ownerKey) == {}
    ensures LiveNames(Updated(before, updates), ns, ownerKey) == if latest.Some? then {latest.value} else {}
    ensures latest.Some? ==> IsNewestName(before, ns, ownerKey, latest.value)
  {
    UpdatesDispose(list, before, updates, ns, ownerKey);
    CleanDisposeLeavesOne(list, before, Updated(before, updates), ns, ownerKey);
    ToFlagIsAllButLatest(list, before, ns, ownerKey);
    if LatestOf(list).Some? {
      LatestIsNewestLive(list, before, ns, ownerKey);
      latest := Some(LatestOf(list).value.name);
    } else {
      latest := None;
    }
  }

  lemma CleanCreateOf(before: System, after: System, ns: string, ownerKey: string, state: string) returns (name: nat)
    requires NamesMatch(before) && MayCreate(before, after, ns, ownerKey, state)
    ensures NamesMatch(after) && name !in before.records && name in after.records && after.records.Keys == before.records.Keys + {name}
    ensures after.records[name].state == state && forall n :: n in before.records ==> after.records[n] == before.records[n]
    ensures LiveNames(after.records, ns, ownerKey) == LiveNames(before.records, ns, ownerKey) + {name}
  {
    var record :| CreatedAs(before, after, ns, ownerKey, state, record);
    name := record.name;
  }

  /** A run of two actions without errors, on current listings, goes through one system in between. */
  lemma TwoSteps(owner: string -> string, ns: string, queue: seq<QueueItem>, before: System, after: System) returns (mid: System)
    requires |queue| == 2 && CleanRun(owner, ns, queue, before, after)
    ensures CleanStep(owner, ns, queue[0], before, mid) && CleanStep(owner, ns, queue[1], mid, after)
  {
    mid := LastStep(owner, ns, queue, before, after);
    var start := LastStep(owner, ns, Front(queue), before, mid);
  }

  lemma LastStep(owner: string -> string, ns: string, queue: seq<QueueItem>, before: System, after: System) returns (mid: System)
    requires queue != [] && CleanRun(owner, ns, queue, before, after)
    ensures CleanRun(owner, ns, Front(queue), before, mid) && CleanStep(owner, ns, Last(queue), mid, after)
    ensures |queue| == 1 ==> mid == before
  {
    var reports :| CommitRun(owner, ns, queue, before, after, reports) && forall r :: r in reports ==> IsClean(r);
    var m :| CommitRun(owner, ns, Front(queue), before, m, Front(reports)) && CommitStep(owner, ns, Last(queue), m, after, Last(reports));
    mid := m;
  }

  lemma CleanSteps(owner: string -> string, ns: string, key: string, state: string, item: QueueItem, before: System, after: System)
    requires CleanStep(owner, ns, item, before, after)
    ensures item == Dispose(key) ==> CleanDispose(before, after, ns, owner(key))
    ensures item == SetLatest(key, ns, state) ==> MayCreate(before, after, ns, owner(key), state)
  {
    var report :| CommitStep(owner, ns, item, before, after, report) && IsClean(report);
    if item == Dispose(key) {
      assert MayDispose(before, after, ns, owner(key), report);
    }
  }

  lemma AddOneSize(names: set<nat>, name: nat)
    ensures name !in names ==> |names + {name}| == |names| + 1
  {
  }

  /** Flag first, then set: two states are live afterwards, or one if none was before. */
  lemma FlagThenSetRound(owner: string -> string, ns: string, key: string, state: string, before: System, after: System)
    requires NamesMatch(before) && CleanRun(owner, ns, FlagThenSet(key, ns, state), before, after)
    ensures NamesMatch(after)
    ensures |LiveNames(after.records, ns, owner(key))| == if LiveNames(before.records, ns, owner(key)) == {} then 1 else 2
  {
    var mid := TwoSteps(owner, ns, FlagThenSet(key, ns, state), before, after);
    CleanSteps(owner, ns, key, state, Dispose(key), before, mid);
    CleanSteps(owner, ns, key, state, SetLatest(key, ns, state), mid, after);
    var latest := CleanDisposeOf(before, mid, ns, owner(key));
    var name := CleanCreateOf(mid, after, ns, owner(key), state);
    AddOneSize(LiveNames(mid.records, ns, owner(key)), name);
  }

  /**
   Set first, then flag: exactly one state is live afterwards. It is a newest one, so it is the new
   one if the new one was created after all that were live.
   */
  lemma SetThenFlagRound(owner: string -> string, ns: string, key: string, state: string, before: System, after: System) returns (name: nat)
    requires NamesMatch(before) && CleanRun(owner, ns, SetThenFlag(key, ns, state), before, after)
    ensures NamesMatch(after)
    ensures after.records.Keys == before.records.Keys + {name} && name !in before.records && after.records[name].state == state
    ensures |LiveNames(after.records, ns, owner(key))| == 1
    ensures (forall n :: n in LiveNames(before.records, ns, owner(key)) ==> before.records[n].created < after.records[name].created) ==>
              LiveNames(after.records, ns, owner(key)) == {name}
  {
    var mid := TwoSteps(owner, ns, SetThenFlag(key, ns, state), before, after);
    CleanSteps(owner, ns, key, state, SetLatest(key, ns, state), before, mid);
    CleanSteps(owner, ns, key, state, Dispose(key), mid, after);
    name := CleanCreateOf(before, mid, ns, owner(key), state);
    var latest := CleanDisposeOf(mid, after, ns, owner(key));
    assert name in LiveNames(mid.records, ns, owner(key));
    if forall n :: n in LiveNames(before.records, ns, owner(key)) ==> before.records[n].created < after.records[name].created {
      assert mid.records[name].created <= mid.records[latest.value].created;
    }
  }

  /** `systems[i]` is the cluster after `i` rounds that set the states `made`, without errors and on current listings. */
  ghost predicate Rounds(owner: string -> string, ns: string, key: string, flagFirst: bool, made: seq<string>, systems: seq<System>) {
    && |systems| == |made| + 1 && NamesMatch(systems[0])
    && forall i :: 0 <= i < |made| ==>
         CleanRun(owner, ns, if flagFirst then FlagThenSet(key, ns, made[i]) else SetThenFlag(key, ns, made[i]), systems[i], systems[i + 1])
  }

  lemma {:induction false} RoundsKeepNames(owner: string -> string, ns: string, key: string, flagFirst: bool, made: seq<string>, systems: seq<System>, i: nat)
    requires Rounds(owner, ns, key, flagFirst, made, systems) && i < |systems|
    ensures NamesMatch(systems[i])
  {
    if i > 0 {
      RoundsKeepNames(owner, ns, key, flagFirst, made, systems, i - 1);
      if flagFirst {
        FlagThenSetRound(owner, ns, key, made[i - 1], systems[i - 1], systems[i]);
      } else {
        var name := SetThenFlagRound(owner, ns, key, made[i - 1], systems[i - 1], systems[i]);
      }
    }
  }

  /**
   Over any number of rounds without errors, whatever the start: flagging first leaves at most two
   live states, and exactly two from the second round on; setting first leaves exactly one.
   */
  lemma RoundsBoundLiveStates(owner: string -> string, ns: string, key: string, flagFirst: bool, made: seq<string>, systems: seq<System>, i: nat)
    requires Rounds(owner, ns, key, flagFirst, made, systems) && 0 < i < |systems|
    ensures flagFirst ==> |LiveNames(systems[i].records, ns, owner(key))| == if LiveNames(systems[i - 1].records, ns, owner(key)) == {} then 1 else 2
    ensures flagFirst && i > 1 ==> |LiveNames(systems[i].records, ns, owner(key))| == 2
    ensures !flagFirst ==> |LiveNames(systems[i].records, ns, owner(key))| == 1
  {
    RoundsKeepNames(owner, ns, key, flagFirst, made, systems, i - 1);
    if flagFirst {
      FlagThenSetRound(owner, ns, key, made[i - 1], systems[i - 1], systems[i]);
      if i > 1 {
        RoundsKeepNames(owner, ns, key, flagFirst, made, systems, i - 2);
        FlagThenSetRound(owner, ns, key, made[i - 2], systems[i - 2], systems[i - 1]);
      }
    } else {
      var name := SetThenFlagRound(owner, ns, key, made[i - 1], systems[i - 1], systems[i]);
    }
  }
}
