/**
 What a `Manager` does to the stored states is made of the events of `StateRuns`, whatever its listings
 showed. Each call to the API server is one event, and a listing justifies its updates whatever others
 do in between, so what holds over all runs holds for any number of managers at work.
 */
module StateRefinement {
  import opened Wrappers
  import opened Sequences
  import opened GeneratorStates
  import opened StateManager
  import opened StateRuns

  lemma DisposeIsAnEvent(before: System, after: System, ns: string, ownerKey: string, report: Report) returns (e: Event)
    requires MayDispose(before, after, ns, ownerKey, report) && after != before
    ensures Enabled(before, e) && Apply(before, e) == after
  {
    var list := report.calls[0].result.value;
    var updates :| DisposedFrom(before, after, list, updates, ns, ownerKey, report.calls[1..]);
    e := DisposeListed(list, updates);
  }

  lemma CreateIsAnEvent(before: System, after: System, ns: string, ownerKey: string, state: string) returns (e: Event)
    requires MayCreate(before, after, ns, ownerKey, state)
    ensures Enabled(before, e) && Apply(before, e) == after
  {
    var record :| CreatedAs(before, after, ns, ownerKey, state, record);
    e := CreateLive(record);
  }

  /** An action of `Commit` is one event, on a stale listing too, or leaves the cluster alone. */
  lemma CommitStepIsAnEvent(owner: string -> string, ns: string, item: QueueItem, before: System, after: System, report: Report)
    returns (e: Event)
    requires CommitStep(owner, ns, item, before, after, report) && after != before
    ensures Enabled(before, e) && Apply(before, e) == after
  {
    match item
    case Dispose(key) =>
      e := DisposeIsAnEvent(before, after, ns, owner(key), report);
    case SetLatest(key, namespace, state) =>
      e := CreateIsAnEvent(before, after, namespace, owner(key), state);
  }

  /** After whatever happened since it was listed, a state to be flagged that is still stored may be flagged. */
  lemma {:induction false} UpdateStaysEnabled(sys: System, events: seq<Event>, list: seq<GeneratorState>, name: nat, deadline: int)
    requires PastListing(sys, list) && name in ToFlag(list) && name in After(sys, events).records
    ensures Enabled(After(sys, events), DisposeListed(list, map[name := deadline]))
  {
    VersionsStaySeen(sys, events);
  }

  /** A whole `Commit`, with failures and stale listings wherever they may be, is a run. */
  lemma {:induction false} CommitIsARun(owner: string -> string, ns: string, queue: seq<QueueItem>, before: System, after: System, reports: seq<Report>)
    returns (events: seq<Event>)
    requires CommitRun(owner, ns, queue, before, after, reports)
    ensures IsRun(before, events) && After(before, events) == after
  {
    if queue == [] {
      return [];
    }
    var mid :| CommitRun(owner, ns, Front(queue), before, mid, Front(reports)) && CommitStep(owner, ns, Last(queue), mid, after, Last(reports));
    var first := CommitIsARun(owner, ns, Front(queue), before, mid, Front(reports));
    if after == mid {
      return first;
    }
    var e := CommitStepIsAnEvent(owner, ns, Last(queue), mid, after, Last(reports));
    OneMore(before, first, e);
    events := first + [e];
  }

  /** An action of `Rollback` is one event, or leaves the stored states alone. */
  lemma RollbackStepIsAnEvent(fate: Fate, before: System, after: System, cleanedBefore: seq<string>, cleaned: seq<string>) returns (e: Event)
    requires Leaves(fate, before, after, cleanedBefore, cleaned) && after != before
    ensures Enabled(before, e) && Apply(before, e) == after && e.Park?
  {
    e := Park(fate.record);
  }

  /**
   In a cluster that managers and the garbage collector have used in any way, no `Commit` loses a state
   that is later than all other live-created states of its scope, not even on stale listings.
   */
  lemma {:induction false} CommitLosesNoNewest(owner: string -> string, ns: string, queue: seq<QueueItem>, before: System, after: System, reports: seq<Report>,
                                               s: GeneratorState)
    requires Reachable(before) && CommitRun(owner, ns, queue, before, after, reports) && Unrivalled(after, s)
    ensures s.name in after.records && after.records[s.name] == s && Live(s)
  {
    ReachableInv(before);
    var events := CommitIsARun(owner, ns, queue, before, after, reports);
    RunKeepsInv(before, events);
  }
}
