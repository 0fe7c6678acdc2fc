/**
 Everything that happens to the generator states of a cluster over time, in any order: live states
 are created, roll-backs park flagged ones, disposes act on whatever a stale cache shows them and
 fail to update some, and the garbage collector deletes flagged ones.
 */
module StateRuns {
  import opened Wrappers
  import opened Sequences
  import opened GeneratorStates

  /**
   `records` is what the API server stores now, `seen` every version of a state it ever stored, and
   `created` the states that were created live, oldest first.
   */
  datatype System = System(records: Store, seen: set<GeneratorState>, created: seq<GeneratorState>)

  datatype Event =
    | CreateLive(state: GeneratorState)
    | Park(state: GeneratorState)
    | DisposeListed(list: seq<GeneratorState>, updates: map<nat, int>)
    | Delete(name: nat)

  /** The server never uses a name twice. */
  ghost predicate FreshName(sys: System, name: nat) {
    forall s :: s in sys.seen ==> s.name != name
  }

  ghost predicate SameScope(s: GeneratorState, t: GeneratorState) {
    s.namespace == t.namespace && s.ownerKey == t.ownerKey
  }

  /** Two states are in one scope exactly if listing for the one finds the other: same namespace, same owner key. */
  lemma SameScopeIff(s: GeneratorState, t: GeneratorState)
    ensures SameScope(s, t) <==> InScope(s, t.namespace, t.ownerKey)
    ensures SameScope(s, t) <==> (s.namespace, s.ownerKey) == (t.namespace, t.ownerKey)
  {
  }

  /** A listing of one scope may be as stale as it likes: each entry is some version that was stored at some time. */
  ghost predicate PastListing(sys: System, list: seq<GeneratorState>) {
    && (forall s :: s in list ==> s in sys.seen)
    && (forall s, t :: s in list && t in list ==> SameScope(s, t))
  }

  /** Of the states a listing makes `disposeState` flag, those in `updates` are updated. */
  ghost predicate Enabled(sys: System, e: Event) {
    match e
    case CreateLive(state) => FreshName(sys, state.name) && Live(state)
    case Park(state) => FreshName(sys, state.name) && !Live(state)
    case DisposeListed(list, updates) => PastListing(sys, list) && updates.Keys <= ToFlag(list) * sys.records.Keys
    case Delete(name) => name in sys.records && !Live(sys.records[name])
  }

  ghost function Stored(sys: System, state: GeneratorState): System {
    sys.(records := sys.records[state.name := state], seen := sys.seen + {state})
  }

  ghost function Apply(sys: System, e: Event): System {
    match e
    case CreateLive(state) => Stored(sys, state).(created := sys.created + [state])
    case Park(state) => Stored(sys, state)
    case DisposeListed(_, updates) =>
      var records := Updated(sys.records, updates);
      sys.(records := records, seen := sys.seen + records.Values)
    case Delete(name) => sys.(records := sys.records - {name})
  }

  /** The system after a sequence of events. */
  ghost function After(sys: System, events: seq<Event>): System {
    if events == [] then sys else Apply(After(sys, Front(events)), Last(events))
  }

  ghost predicate IsRun(sys: System, events: seq<Event>) {
    events == [] || (IsRun(sys, Front(events)) && Enabled(After(sys, Front(events)), Last(events)))
  }

  const EMPTY: System := System(map[], {}, [])

  ghost predicate Kept(sys: System, s: GeneratorState) {
    s.name in sys.records && sys.records[s.name] == s
  }

  /** Another live-created state of the scope has a timestamp that is as late, or later. */
  ghost predicate Rival(sys: System, s: GeneratorState, c: GeneratorState) {
    c in sys.created && SameScope(c, s) && c != s && c.created >= s.created
  }

  ghost predicate Unrivalled(sys: System, s: GeneratorState) {
    s in sys.created && forall c :: c in sys.created ==> !Rival(sys, s, c)
  }

  // ---------------------------------------------------------------- the invariant

  ghost predicate NamesMatch(sys: System) {
    && (forall n :: n in sys.records ==> sys.records[n].name == n && sys.records[n] in sys.seen)
    && (forall c :: c in sys.created ==> c in sys.seen && Live(c))
  }

  /** A version without a deadline is a live-created state, and the only one with its name. */
  ghost predicate LiveIsCreated(sys: System) {
    forall s, c :: s in sys.seen && Live(s) ==>
      s in sys.created && (c in sys.created && c.name == s.name ==> c == s)
  }

  ghost predicate UnrivalledKept(sys: System) {
    forall s :: Unrivalled(sys, s) ==> Kept(sys, s)
  }

  ghost predicate Inv(sys: System) {
    NamesMatch(sys) && LiveIsCreated(sys) && UnrivalledKept(sys)
  }

  /** Whatever listing makes `disposeState` flag a live-created state shows a rival of it. */
  lemma FlaggedHasRival(sys: System, list: seq<GeneratorState>, s: GeneratorState) returns (c: GeneratorState)
    requires NamesMatch(sys) && LiveIsCreated(sys) && PastListing(sys, list)
    requires s in sys.created && s.name in ToFlag(list)
    ensures Rival(sys, s, c)
  {
    var listed :| listed in list && Live(listed) && LatestOf(list).Some? && listed.name != LatestOf(list).value.name && listed.name == s.name;
    var i := LatestIsFirstNewest(list);
    c := list[i];
    assert listed == s && c in list;
    var k :| 0 <= k < |list| && list[k] == listed;
  }

  /** No listing, however stale, makes `disposeState` flag a state without a rival. */
  lemma UnrivalledIsNotFlagged(sys: System, list: seq<GeneratorState>, s: GeneratorState)
    requires NamesMatch(sys) && LiveIsCreated(sys) && PastListing(sys, list) && Unrivalled(sys, s)
    ensures s.name !in ToFlag(list)
  {
    if s.name in ToFlag(list) {
      var c := FlaggedHasRival(sys, list, s);
    }
  }

  lemma CreateKeepsNames(sys: System, state: GeneratorState)
    requires NamesMatch(sys) && LiveIsCreated(sys) && FreshName(sys, state.name) && Live(state)
    ensures NamesMatch(Apply(sys, CreateLive(state))) && LiveIsCreated(Apply(sys, CreateLive(state)))
  {
    var created := sys.created + [state];
    forall s, c | s in sys.seen + {state} && Live(s)
      ensures s in created && (c in created && c.name == s.name ==> c == s)
    {
      assert state in created;
      assert c in created ==> c in sys.created || c == state;
      assert c in sys.created ==> c in sys.seen;
    }
  }

  lemma CreateKeepsInv(sys: System, state: GeneratorState)
    requires Inv(sys) && Enabled(sys, CreateLive(state))
    ensures Inv(Apply(sys, CreateLive(state)))
  {
    var sys' := Apply(sys, CreateLive(state));
    CreateKeepsNames(sys, state);
    forall s | Unrivalled(sys', s)
      ensures Kept(sys', s)
    {
      if s in sys.created {
        FewerRivals(sys, sys', s);
        assert s in sys.seen;
      }
    }
  }

  lemma FewerRivals(sys: System, sys': System, s: GeneratorState)
    requires sys.created <= sys'.created && s in sys.created && Unrivalled(sys', s)
    ensures Unrivalled(sys, s)
  {
    forall c | c in sys.created
      ensures !Rival(sys, s, c)
    {
      assert c in sys'.created;
    }
  }

  lemma ParkKeepsInv(sys: System, state: GeneratorState)
    requires Inv(sys) && Enabled(sys, Park(state))
    ensures Inv(Apply(sys, Park(state)))
  {
    var sys' := Apply(sys, Park(state));
    forall s | Unrivalled(sys', s)
      ensures Kept(sys', s)
    {
      FewerRivals(sys, sys', s);
      assert s in sys.seen;
    }
  }

  /** Updates add no version without a deadline. */
  lemma UpdatesAddNoLiveVersion(sys: System, updates: map<nat, int>, s: GeneratorState)
    ensures NamesMatch(sys) && s in sys.seen + Updated(sys.records, updates).Values && Live(s) ==> s in sys.seen
  {
  }

  lemma DisposeKeepsInv(sys: System, list: seq<GeneratorState>, updates: map<nat, int>)
    requires Inv(sys) && Enabled(sys, DisposeListed(list, updates))
    ensures Inv(Apply(sys, DisposeListed(list, updates)))
  {
    var sys' := Apply(sys, DisposeListed(list, updates));
    forall s | Unrivalled(sys', s)
      ensures Kept(sys', s)
    {
      FewerRivals(sys, sys', s);
      UnrivalledIsNotFlagged(sys, list, s);
    }
    forall s | s in sys'.seen && Live(s)
      ensures s in sys.seen
    {
      UpdatesAddNoLiveVersion(sys, updates, s);
    }
  }

  lemma DeleteKeepsInv(sys: System, name: nat)
    requires Inv(sys) && Enabled(sys, Delete(name))
    ensures Inv(Apply(sys, Delete(name)))
  {
    var sys' := Apply(sys, Delete(name));
    forall s | Unrivalled(sys', s)
      ensures Kept(sys', s)
    {
      FewerRivals(sys, sys', s);
    }
  }

  lemma EventKeepsInv(sys: System, e: Event)
    requires Inv(sys) && Enabled(sys, e)
    ensures Inv(Apply(sys, e))
  {
    match e
    case CreateLive(state) => CreateKeepsInv(sys, state);
    case Park(state) => ParkKeepsInv(sys, state);
    case DisposeListed(list, updates) => DisposeKeepsInv(sys, list, updates);
    case Delete(name) => DeleteKeepsInv(sys, name);
  }

  lemma {:induction false} RunKeepsInv(sys: System, events: seq<Event>)
    requires Inv(sys) && IsRun(sys, events)
    ensures Inv(After(sys, events))
  {
    if events != [] {
      RunKeepsInv(sys, Front(events));
      EventKeepsInv(After(sys, Front(events)), Last(events));
    }
  }

  /** A system that the cluster can be in. */
  ghost predicate Reachable(sys: System) {
    exists events :: Reaches(events, sys)
  }

  ghost predicate Reaches(events: seq<Event>, sys: System) {
    IsRun(EMPTY, events) && After(EMPTY, events) == sys
  }

  lemma ReachableInv(sys: System)
    requires Reachable(sys)
    ensures Inv(sys)
  {
    var events :| Reaches(events, sys);
    RunKeepsInv(EMPTY, events);
  }

  lemma {:induction false} OneMore(sys: System, events: seq<Event>, e: Event)
    ensures After(sys, events + [e]) == Apply(After(sys, events), e)
    ensures IsRun(sys, events + [e]) <==> IsRun(sys, events) && Enabled(After(sys, events), e)
  {
    assert Front(events + [e]) == events;
  }

  lemma StillReachable(sys: System, e: Event)
    requires Reachable(sys) && Enabled(sys, e)
    ensures Reachable(Apply(sys, e))
  {
    var events :| Reaches(events, sys);
    OneMore(EMPTY, events, e);
    assert Reaches(events + [e], Apply(sys, e));
  }

  // ---------------------------------------------------------------- which states can be lost

  /** A listing that makes `disposeState` flag `s` exists exactly if `s` has a rival. */
  lemma CanBeFlaggedIff(sys: System, s: GeneratorState)
    requires NamesMatch(sys) && LiveIsCreated(sys) && s in sys.created && Kept(sys, s)
    ensures (exists e: Event :: Enabled(sys, e) && e.DisposeListed? && s.name in e.updates) <==> exists c :: Rival(sys, s, c)
  {
    if c :| Rival(sys, s, c) {
      var e := FlagByRival(sys, s, c, 0);
      assert Enabled(sys, e) && e.DisposeListed? && s.name in e.updates;
    } else {
      forall e: Event | Enabled(sys, e) && e.DisposeListed?
        ensures s.name !in e.updates
      {
        UnrivalledIsNotFlagged(sys, e.list, s);
      }
    }
  }

  /** The listing that shows the rival first. */
  lemma FlagByRival(sys: System, s: GeneratorState, c: GeneratorState, deadline: int) returns (e: Event)
    requires NamesMatch(sys) && LiveIsCreated(sys) && s in sys.created && Kept(sys, s) && Rival(sys, s, c)
    ensures Enabled(sys, e) && e == DisposeListed([c, s], map[s.name := deadline])
  {
    var list := [c, s];
    e := DisposeListed(list, map[s.name := deadline]);
    assert s in sys.seen && c in sys.seen;
    assert FirstNewest(list, 0);
    LatestIff(list, 0);
    assert list[1] in list;
  }

  /** Events that create no live state can end in a system that no longer stores `s` as it was created. */
  ghost predicate CanBeLost(sys: System, s: GeneratorState) {
    exists events :: Loses(sys, events, s)
  }

  ghost predicate Loses(sys: System, events: seq<Event>, s: GeneratorState) {
    IsRun(sys, events) && After(sys, events).created == sys.created && !Kept(After(sys, events), s)
  }

  /**
   Over all runs: a live-created state can be flagged or deleted exactly if some other live-created
   state of its scope has a timestamp that is as late, or later.
   */
  lemma CanBeLostIff(sys: System, s: GeneratorState)
    requires Reachable(sys) && s in sys.created
    ensures CanBeLost(sys, s) <==> exists c :: Rival(sys, s, c)
  {
    ReachableInv(sys);
    if CanBeLost(sys, s) {
      var events :| Loses(sys, events, s);
      var c := LostHasRival(sys, events, s);
    }
    if c :| Rival(sys, s, c) {
      var events := LoseToRival(sys, s, c);
    }
  }

  lemma LostHasRival(sys: System, events: seq<Event>, s: GeneratorState) returns (c: GeneratorState)
    requires Inv(sys) && s in sys.created && Loses(sys, events, s)
    ensures Rival(sys, s, c)
  {
    RunKeepsInv(sys, events);
    c :| c in sys.created && Rival(After(sys, events), s, c);
  }

  lemma LoseToRival(sys: System, s: GeneratorState, c: GeneratorState) returns (events: seq<Event>)
    requires NamesMatch(sys) && LiveIsCreated(sys) && s in sys.created && Rival(sys, s, c)
    ensures Loses(sys, events, s)
  {
    if Kept(sys, s) {
      var e := FlagByRival(sys, s, c, 0);
      OneMore(sys, [], e);
      events := [] + [e];
      assert Live(s);
    } else {
      events := [];
    }
  }

  /**
   In every run, a state whose timestamp is later than those of all other live-created states of its
   scope is neither flagged nor deleted, however stale the listings and whatever the other timestamps.
   */
  lemma {:induction false} UnrivalledIsNeverLost(events: seq<Event>, s: GeneratorState)
    requires IsRun(EMPTY, events) && Unrivalled(After(EMPTY, events), s)
    ensures Kept(After(EMPTY, events), s) && Live(s)
  {
    RunKeepsInv(EMPTY, events);
  }

  lemma {:induction false} VersionsStaySeen(sys: System, events: seq<Event>)
    ensures sys.seen <= After(sys, events).seen
  {
    if events != [] {
      VersionsStaySeen(sys, Front(events));
    }
  }

  // ---------------------------------------------------------------- listings of one moment

  lemma {:induction false} Prefix(events: seq<Event>, k: nat)
    requires IsRun(EMPTY, events) && k <= |events|
    ensures IsRun(EMPTY, events[..k]) && After(EMPTY, events[..k]).seen <= After(EMPTY, events).seen
    decreases |events|
  {
    if k == |events| {
      assert events[..k] == events;
    } else {
      Prefix(Front(events), k);
      assert Front(events)[..k] == events[..k];
    }
  }

  /** A listing of what was stored after `k` events makes `disposeState` flag the state. */
  ghost predicate FlagsAt(events: seq<Event>, k: int, list: seq<GeneratorState>, s: GeneratorState) {
    && 0 <= k <= |events|
    && IsListing(list, After(EMPTY, events[..k]).records, s.namespace, s.ownerKey) && s.name in ToFlag(list)
  }

  /** After `k` events the state was stored, live, beside a live rival. */
  ghost predicate RivalledAt(events: seq<Event>, k: int, s: GeneratorState, c: GeneratorState) {
    && 0 <= k <= |events|
    && Kept(After(EMPTY, events[..k]), s) && LiveRival(After(EMPTY, events[..k]).records, s, c)
  }

  /**
   A cache that lags behind but is never in between two moments is less of a danger: some listing of
   one past moment makes `disposeState` flag a live-created state exactly if at some moment the state
   was live together with another one that is as late, or later.
   */
  lemma {:induction false} PastMomentFlagsIff(events: seq<Event>, s: GeneratorState)
    requires IsRun(EMPTY, events) && s in After(EMPTY, events).created
    ensures (exists k, list :: FlagsAt(events, k, list, s)) <==> exists k, c :: RivalledAt(events, k, s, c)
  {
    RunKeepsInv(EMPTY, events);
    if k, list :| FlagsAt(events, k, list, s) {
      var c := FlaggedBesideRival(events, k, list, s);
    }
    if k, c :| RivalledAt(events, k, s, c) {
      Prefix(events, k);
      RunKeepsInv(EMPTY, events[..k]);
      var list := RivalFirst(After(EMPTY, events[..k]).records, s, c);
      assert FlagsAt(events, k, list, s);
    }
  }

  lemma FlaggedBesideRival(events: seq<Event>, k: int, list: seq<GeneratorState>, s: GeneratorState) returns (c: GeneratorState)
    requires IsRun(EMPTY, events) && s in After(EMPTY, events).created
    requires FlagsAt(events, k, list, s)
    ensures RivalledAt(events, k, s, c)
  {
    RunKeepsInv(EMPTY, events);
    Prefix(events, k);
    RunKeepsInv(EMPTY, events[..k]);
    var store := After(EMPTY, events[..k]).records;
    ToFlagIsAllButLatest(list, store, s.namespace, s.ownerKey);
    assert store[s.name] in After(EMPTY, events[..k]).seen;
    assert store[s.name] == s;
    CurrentListingFlagsIff(store, s);
    c :| LiveRival(store, s, c);
  }

  // ---------------------------------------------------------------- timestamps in order

  ghost predicate Increasing(sys: System) {
    forall i, j :: 0 <= i < j < |sys.created| && SameScope(sys.created[i], sys.created[j]) ==>
      sys.created[i].created < sys.created[j].created
  }

  /** `s` is the state of its scope that was created live last. */
  ghost predicate IsNewest(sys: System, s: GeneratorState) {
    exists i :: 0 <= i < |sys.created| && sys.created[i] == s && forall j :: i < j < |sys.created| ==> !SameScope(sys.created[j], s)
  }

  lemma NewestIsUnrivalled(sys: System, s: GeneratorState)
    requires Increasing(sys) && IsNewest(sys, s)
    ensures Unrivalled(sys, s)
  {
    var i :| 0 <= i < |sys.created| && sys.created[i] == s && forall j :: i < j < |sys.created| ==> !SameScope(sys.created[j], s);
    forall c | c in sys.created
      ensures !Rival(sys, s, c)
    {
      var k :| 0 <= k < |sys.created| && sys.created[k] == c;
    }
  }

  /**
   Over every run in which the live states of a scope get strictly increasing timestamps, the newest
   live-created state of a scope is never flagged and never deleted.
   */
  lemma {:induction false} NewestIsNeverLost(events: seq<Event>, s: GeneratorState)
    requires IsRun(EMPTY, events) && Increasing(After(EMPTY, events)) && IsNewest(After(EMPTY, events), s)
    ensures Kept(After(EMPTY, events), s) && Live(s)
  {
    NewestIsUnrivalled(After(EMPTY, events), s);
    UnrivalledIsNeverLost(events, s);
  }

  /**
   Timestamps have a resolution of one second, which makes this possible: two states are created at
   the same time, and the newer one is flagged and deleted.
   */
  lemma EqualTimestampsLoseTheNewest(a: GeneratorState, b: GeneratorState, deadline: int) returns (events: seq<Event>)
    requires Live(a) && Live(b) && SameScope(a, b) && a.created == b.created && a.name != b.name
    ensures IsRun(EMPTY, events)
    ensures IsNewest(After(EMPTY, events), b) && b.name !in After(EMPTY, events).records
  {
    var created, sys := TieCreated(a, b);
    RunKeepsInv(EMPTY, created);
    assert sys.created[1] == b && sys.created[0] == a;
    events := FlagAndDelete(created, sys, b, a, deadline);
  }

  lemma FlagAndDelete(created: seq<Event>, sys: System, s: GeneratorState, c: GeneratorState, deadline: int) returns (events: seq<Event>)
    requires IsRun(EMPTY, created) && sys == After(EMPTY, created) && Inv(sys)
    requires s in sys.created && Kept(sys, s) && Rival(sys, s, c)
    ensures IsRun(EMPTY, events) && After(EMPTY, events).created == sys.created && s.name !in After(EMPTY, events).records
  {
    var dispose := FlagByRival(sys, s, c, deadline);
    OneMore(EMPTY, created, dispose);
    OneMore(EMPTY, created + [dispose], Delete(s.name));
    events := created + [dispose] + [Delete(s.name)];
  }

  lemma TieCreated(a: GeneratorState, b: GeneratorState) returns (events: seq<Event>, sys: System)
    requires Live(a) && Live(b) && a.name != b.name
    ensures IsRun(EMPTY, events) && sys == After(EMPTY, events)
    ensures sys.created == [a, b] && Kept(sys, a) && Kept(sys, b)
  {
    FirstCreated(a);
    SecondCreated(a, b);
    OneMore(EMPTY, [], CreateLive(a));
    OneMore(EMPTY, [] + [CreateLive(a)], CreateLive(b));
    events := [] + [CreateLive(a)] + [CreateLive(b)];
    sys := System(map[a.name := a][b.name := b], {a} + {b}, [a] + [b]);
  }

  lemma FirstCreated(a: GeneratorState)
    requires Live(a)
    ensures Enabled(EMPTY, CreateLive(a)) && Apply(EMPTY, CreateLive(a)) == System(map[a.name := a], {a}, [a])
  {
  }

  lemma SecondCreated(a: GeneratorState, b: GeneratorState)
    requires Live(b) && a.name != b.name
    ensures var sys := System(map[a.name := a], {a}, [a]);
            && Enabled(sys, CreateLive(b))
            && Apply(sys, CreateLive(b)) == System(map[a.name := a][b.name := b], {a} + {b}, [a] + [b])
  {
  }

  /**
   When exactly one dispose is a danger: a listing that shows the state live makes `disposeState` flag
   it unless it is the first of the newest live states listed.
   */
  lemma FlaggedUnlessFirstNewest(list: seq<GeneratorState>, i: int)
    requires 0 <= i < |list| && Live(list[i]) && forall j, k :: 0 <= j < k < |list| ==> list[j].name != list[k].name
    ensures list[i].name in ToFlag(list) <==> !FirstNewest(list, i)
  {
    LatestIff(list, i);
    NoLatestIffNoneLive(list);
    var k := LatestIsFirstNewest(list);
    assert list[i] in list && list[k] in list;
  }
}
