/**
 Generator states as values: which state is the latest, and what flagging all others for garbage
 collection does to a store of states.
 */
module GeneratorStates {
  import opened Wrappers

  /**
   A stored GeneratorState. `ownerKey` is the owner-key label that ties it to a resource and a state
   key; `deadline` is `GarbageCollectionDeadline`; `state` is what the generator produced.
   */
  datatype GeneratorState = GeneratorState(
    name: nat,
    namespace: string,
    ownerKey: string,
    created: int,
    deadline: Option<int>,
    state: string)

  type Store = map<nat, GeneratorState>

  predicate Live(s: GeneratorState) {
    s.deadline.None?
  }

  // ---------------------------------------------------------------- the latest state

  /** `getLatest` as a fold: a live state replaces the latest so far only if it was created after it. */
  function LatestOf(list: seq<GeneratorState>): Option<GeneratorState> {
    if list == [] then None
    else
      var latest, state := LatestOf(list[..|list| - 1]), list[|list| - 1];
      if !Live(state) then latest
      else if latest.None? || state.created > latest.value.created then Some(state)
      else latest
  }

  method GetLatest(list: seq<GeneratorState>) returns (latest: Option<GeneratorState>)
    ensures latest == LatestOf(list)
  {
    latest := None;
    for i := 0 to |list|
      invariant latest == LatestOf(list[..i])
    {
      var state := list[i];
      assert list[..i + 1][..i] == list[..i];
      if state.deadline.Some? {
        continue;
      }
      if latest.None? {
        latest := Some(state);
        continue;
      }
      if state.created > latest.value.created {
        latest := Some(state);
      }
    }
    assert list[..|list|] == list;
  }

  /** `list[i]` is live, no live state of the list is newer, and none before it is as new. */
  ghost predicate FirstNewest(list: seq<GeneratorState>, i: int) {
    && 0 <= i < |list| && Live(list[i])
    && forall j :: 0 <= j < |list| && Live(list[j]) ==>
         list[j].created <= list[i].created && (j < i ==> list[j].created < list[i].created)
  }

  lemma {:induction false} LatestIsFirstNewest(list: seq<GeneratorState>) returns (i: int)
    requires LatestOf(list).Some?
    ensures FirstNewest(list, i) && list[i] == LatestOf(list).value
  {
    var n := |list| - 1;
    var front := list[..n];
    if LatestOf(front).Some? {
      i := LatestIsFirstNewest(front);
      assert forall j :: 0 <= j < n ==> front[j] == list[j];
      if LatestOf(list) != LatestOf(front) {
        i := n;
      } else if Live(list[n]) && list[n].created > list[i].created {
        i := n;
      }
    } else {
      NoLatestIffNoneLive(front);
      assert forall j :: 0 <= j < n ==> front[j] == list[j];
      i := n;
    }
  }

  lemma {:induction false} NoLatestIffNoneLive(list: seq<GeneratorState>)
    ensures LatestOf(list).None? <==> forall j :: 0 <= j < |list| ==> !Live(list[j])
  {
    if list != [] {
      var front := list[..|list| - 1];
      NoLatestIffNoneLive(front);
      assert forall j :: 0 <= j < |front| ==> front[j] == list[j];
    }
  }

  /**
   A state is picked exactly if it is live, no live state in the list is newer, and none listed
   before it is as new. With equal timestamps the order of the list decides.
   */
  lemma {:induction false} LatestIff(list: seq<GeneratorState>, i: int)
    requires 0 <= i < |list| && forall j, k :: 0 <= j < k < |list| ==> list[j].name != list[k].name
    ensures LatestOf(list) == Some(list[i]) <==> FirstNewest(list, i)
  {
    NoLatestIffNoneLive(list);
    if LatestOf(list).Some? {
      var k := LatestIsFirstNewest(list);
      assert LatestOf(list) == Some(list[i]) ==> k == i;
    }
  }

  // ---------------------------------------------------------------- listings

  predicate InScope(s: GeneratorState, ns: string, ownerKey: string) {
    s.namespace == ns && s.ownerKey == ownerKey
  }

  ghost predicate WellNamed(store: Store) {
    forall n :: n in store ==> store[n].name == n
  }

  ghost function Scope(store: Store, ns: string, ownerKey: string): set<nat> {
    set n | n in store && InScope(store[n], ns, ownerKey)
  }

  /** The names of the states of a scope that are not flagged. */
  ghost function LiveNames(store: Store, ns: string, ownerKey: string): set<nat> {
    set n | n in store && InScope(store[n], ns, ownerKey) && Live(store[n])
  }

  /** `list` holds the states called `names`, each once, in some order. */
  ghost predicate Enumerates(list: seq<GeneratorState>, store: Store, names: set<nat>) {
    && names <= store.Keys
    && (forall i :: 0 <= i < |list| ==> list[i].name in names && store[list[i].name] == list[i])
    && (forall n :: n in names ==> store[n] in list)
    && (forall i, j :: 0 <= i < j < |list| ==> list[i].name != list[j].name)
  }

  /** What listing a scope may return: the API promises no order. */
  ghost predicate IsListing(list: seq<GeneratorState>, store: Store, ns: string, ownerKey: string) {
    Enumerates(list, store, Scope(store, ns, ownerKey))
  }

  lemma {:induction false} Enumerate(store: Store, names: set<nat>) returns (list: seq<GeneratorState>)
    requires WellNamed(store) && names <= store.Keys
    ensures Enumerates(list, store, names)
  {
    if names == {} {
      list := [];
    } else {
      var n :| n in names;
      var rest := Enumerate(store, names - {n});
      list := [store[n]] + rest;
    }
  }

  // ---------------------------------------------------------------- disposing

  /** The states that `disposeState` wants to flag: all live ones that do not have the latest one's name. */
  ghost function ToFlag(list: seq<GeneratorState>): set<nat> {
    set s | s in list && Live(s) && LatestOf(list).Some? && s.name != LatestOf(list).value.name :: s.name
  }

  ghost predicate Flagged(before: GeneratorState, after: GeneratorState) {
    Live(before) && !Live(after) && after == before.(deadline := after.deadline)
  }

  /** Exactly the states to flag get a deadline, except those whose update failed. */
  ghost predicate Disposed(list: seq<GeneratorState>, before: Store, after: Store, failed: set<nat>) {
    && after.Keys == before.Keys
    && forall n :: n in before.Keys ==>
         if n in ToFlag(list) && n !in failed then Flagged(before[n], after[n]) else after[n] == before[n]
  }

  /** The store after these deadlines were set. */
  ghost function Updated(records: Store, updates: map<nat, int>): Store {
    map n | n in records :: if n in updates then records[n].(deadline := Some(updates[n])) else records[n]
  }

  /** On a complete listing, updating states that were to be flagged is disposing. */
  lemma UpdatesDispose(list: seq<GeneratorState>, before: Store, updates: map<nat, int>, ns: string, ownerKey: string)
    requires WellNamed(before) && IsListing(list, before, ns, ownerKey) && updates.Keys <= ToFlag(list) * before.Keys
    ensures Disposed(list, before, Updated(before, updates), ToFlag(list) - updates.Keys)
  {
    ListedNames(list, before, Scope(before, ns, ownerKey));
    forall n | n in updates
      ensures Live(before[n])
    {
      var s :| s in list && Live(s) && s.name == n;
    }
  }

  lemma ListedNames(list: seq<GeneratorState>, store: Store, names: set<nat>)
    requires WellNamed(store) && Enumerates(list, store, names)
    ensures forall n :: n in names ==> store[n] in list && store[n].name == n
    ensures forall s :: s in list ==> s.name in names && store[s.name] == s
  {
  }

  /** On a complete listing, the states to flag are all live ones but the latest. */
  lemma {:induction false} ToFlagIsAllButLatest(list: seq<GeneratorState>, store: Store, ns: string, ownerKey: string)
    requires WellNamed(store) && IsListing(list, store, ns, ownerKey)
    ensures LatestOf(list).None? ==> LiveNames(store, ns, ownerKey) == {} && ToFlag(list) == {}
    ensures LatestOf(list).Some? ==>
              && LatestOf(list).value.name in LiveNames(store, ns, ownerKey)
              && store[LatestOf(list).value.name] == LatestOf(list).value
              && ToFlag(list) == LiveNames(store, ns, ownerKey) - {LatestOf(list).value.name}
  {
    ListedNames(list, store, Scope(store, ns, ownerKey));
    if LatestOf(list).Some? {
      var i := LatestIsFirstNewest(list);
      assert list[i] in list;
      forall n | n in LiveNames(store, ns, ownerKey) - {list[i].name}
        ensures n in ToFlag(list)
      {
        assert store[n] in list;
      }
    } else {
      NoLatestIffNoneLive(list);
      forall n | n in store
        ensures n !in LiveNames(store, ns, ownerKey)
      {
        if n in Scope(store, ns, ownerKey) {
          assert store[n] in list;
        }
      }
    }
  }

  /**
   After disposing on a complete listing, what is live in the scope is the latest and whatever could
   not be updated; deadlines that were set and all other scopes are as before.
   */
  lemma {:induction false} DisposeEffect(list: seq<GeneratorState>, before: Store, after: Store, failed: set<nat>, ns: string, ownerKey: string)
    requires WellNamed(before) && IsListing(list, before, ns, ownerKey) && Disposed(list, before, after, failed)
    ensures WellNamed(after)
    ensures LatestOf(list).Some? ==> after.Keys == before.Keys && LatestOf(list).value.name in after
                                     && after[LatestOf(list).value.name] == LatestOf(list).value
    ensures LatestOf(list).Some? ==>
              LiveNames(after, ns, ownerKey) == LiveNames(before, ns, ownerKey) * ({LatestOf(list).value.name} + failed)
    ensures LatestOf(list).None? ==> after == before && LiveNames(after, ns, ownerKey) == {}
    ensures forall n :: n in before && (!Live(before[n]) || !InScope(before[n], ns, ownerKey)) ==> n in after && after[n] == before[n]
  {
    ToFlagIsAllButLatest(list, before, ns, ownerKey);
    assert forall n :: n in before.Keys ==> after[n] == before[n] || Flagged(before[n], after[n]);
  }

  /** Without failed updates exactly one state stays live, the latest, if any was. */
  lemma {:induction false} CleanDisposeLeavesOne(list: seq<GeneratorState>, before: Store, after: Store, ns: string, ownerKey: string)
    requires WellNamed(before) && IsListing(list, before, ns, ownerKey) && Disposed(list, before, after, {})
    ensures LiveNames(after, ns, ownerKey) == if LatestOf(list).Some? then {LatestOf(list).value.name} else {}
  {
    DisposeEffect(list, before, after, {}, ns, ownerKey);
    ToFlagIsAllButLatest(list, before, ns, ownerKey);
  }

  /** Disposing again right after a clean dispose does nothing. */
  lemma SecondDisposeDoesNothing(list: seq<GeneratorState>, before: Store, after: Store,
                                 list': seq<GeneratorState>, after': Store, failed': set<nat>, ns: string, ownerKey: string)
    requires WellNamed(before) && IsListing(list, before, ns, ownerKey) && Disposed(list, before, after, {})
    requires IsListing(list', after, ns, ownerKey) && Disposed(list', after, after', failed')
    ensures after' == after
  {
    DisposeEffect(list, before, after, {}, ns, ownerKey);
    CleanDisposeLeavesOne(list, before, after, ns, ownerKey);
    ToFlagIsAllButLatest(list', after, ns, ownerKey);
    NothingToFlag(list', after, after', failed');
  }

  lemma NothingToFlag(list: seq<GeneratorState>, before: Store, after: Store, failed: set<nat>)
    ensures ToFlag(list) == {} && Disposed(list, before, after, failed) ==> after == before
  {
  }

  /**
   After a dispose with failed updates, a clean one converges: one state stays live, and if the same
   latest is picked it is the one a clean dispose would have left at once.
   */
  lemma {:induction false} RetryConverges(list: seq<GeneratorState>, before: Store, after: Store, failed: set<nat>,
                                          list': seq<GeneratorState>, after': Store, ns: string, ownerKey: string)
    requires WellNamed(before) && IsListing(list, before, ns, ownerKey) && Disposed(list, before, after, failed)
    requires IsListing(list', after, ns, ownerKey) && Disposed(list', after, after', {})
    ensures LiveNames(after, ns, ownerKey) <= LiveNames(before, ns, ownerKey)
    ensures LatestOf(list).Some? <==> LatestOf(list').Some?
    ensures LatestOf(list).Some? ==> LatestOf(list).value.name in LiveNames(after, ns, ownerKey)
    ensures LatestOf(list').Some? ==> LiveNames(after', ns, ownerKey) == {LatestOf(list').value.name}
    ensures LatestOf(list').Some? ==> LatestOf(list').value.created == LatestOf(list).value.created
  {
    DisposeEffect(list, before, after, failed, ns, ownerKey);
    DisposeEffect(list', after, after', {}, ns, ownerKey);
    ToFlagIsAllButLatest(list, before, ns, ownerKey);
    ToFlagIsAllButLatest(list', after, ns, ownerKey);
    if LatestOf(list).Some? {
      LatestIsNewestLive(list, before, ns, ownerKey);
      LatestIsNewestLive(list', after, ns, ownerKey);
      assert LatestOf(list).value.name in LiveNames(after, ns, ownerKey);
    }
  }

  lemma {:induction false} LatestIsNewestLive(list: seq<GeneratorState>, store: Store, ns: string, ownerKey: string)
    requires WellNamed(store) && IsListing(list, store, ns, ownerKey) && LatestOf(list).Some?
    ensures forall n :: n in LiveNames(store, ns, ownerKey) ==> store[n].created <= LatestOf(list).value.created
  {
    var i := LatestIsFirstNewest(list);
    ListedNames(list, store, Scope(store, ns, ownerKey));
    forall n | n in LiveNames(store, ns, ownerKey)
      ensures store[n].created <= list[i].created
    {
      assert n in Scope(store, ns, ownerKey);
      var j :| 0 <= j < |list| && list[j] == store[n];
    }
  }

  /** `c` is live in the store, in the scope of `s`, and as late or later. */
  ghost predicate LiveRival(store: Store, s: GeneratorState, c: GeneratorState) {
    && c.name in LiveNames(store, s.namespace, s.ownerKey) && store[c.name] == c
    && c != s && c.created >= s.created
  }

  /** A complete listing of the store can make `disposeState` flag a live state exactly if that has a live rival. */
  lemma CurrentListingFlagsIff(store: Store, s: GeneratorState)
    requires WellNamed(store) && s.name in LiveNames(store, s.namespace, s.ownerKey) && store[s.name] == s
    ensures (exists list :: IsListing(list, store, s.namespace, s.ownerKey) && s.name in ToFlag(list)) <==>
              exists c :: LiveRival(store, s, c)
  {
    if list :| IsListing(list, store, s.namespace, s.ownerKey) && s.name in ToFlag(list) {
      ToFlagIsAllButLatest(list, store, s.namespace, s.ownerKey);
      LatestIsNewestLive(list, store, s.namespace, s.ownerKey);
      assert LiveRival(store, s, LatestOf(list).value);
    }
    if c :| LiveRival(store, s, c) {
      var list := RivalFirst(store, s, c);
    }
  }

  lemma RivalFirst(store: Store, s: GeneratorState, c: GeneratorState) returns (list: seq<GeneratorState>)
    requires WellNamed(store) && s.name in LiveNames(store, s.namespace, s.ownerKey) && store[s.name] == s
    requires LiveRival(store, s, c)
    ensures IsListing(list, store, s.namespace, s.ownerKey) && s.name in ToFlag(list)
  {
    list := ListingWithFirst(store, s.namespace, s.ownerKey, c);
    ToFlagIsAllButLatest(list, store, s.namespace, s.ownerKey);
    var i := LatestIsFirstNewest(list);
    assert list[0] == c;
    assert list[i] != s;
  }

  // ---------------------------------------------------------------- what GetLatestState may answer

  ghost predicate MayAnswer(store: Store, ns: string, ownerKey: string, answer: Option<GeneratorState>) {
    exists list :: IsListing(list, store, ns, ownerKey) && LatestOf(list) == answer
  }

  /** A live state of the scope that no live state of the scope is newer than. */
  ghost predicate NewestLive(store: Store, ns: string, ownerKey: string, s: GeneratorState) {
    && s.name in LiveNames(store, ns, ownerKey) && store[s.name] == s
    && forall n :: n in LiveNames(store, ns, ownerKey) ==> store[n].created <= s.created
  }

  lemma ListingWithFirst(store: Store, ns: string, ownerKey: string, s: GeneratorState) returns (list: seq<GeneratorState>)
    requires WellNamed(store) && s.name in Scope(store, ns, ownerKey) && store[s.name] == s
    ensures IsListing(list, store, ns, ownerKey) && list != [] && list[0] == s
  {
    var rest := Enumerate(store, Scope(store, ns, ownerKey) - {s.name});
    list := [s] + rest;
  }

  lemma {:induction false} FirstOfTheNewestIsPicked(list: seq<GeneratorState>, store: Store, ns: string, ownerKey: string, s: GeneratorState)
    requires WellNamed(store) && NewestLive(store, ns, ownerKey, s)
    requires IsListing(list, store, ns, ownerKey) && list != [] && list[0] == s
    ensures LatestOf(list) == Some(s)
  {
    forall j | 0 <= j < |list| && Live(list[j])
      ensures list[j].created <= s.created
    {
      assert list[j].name in Scope(store, ns, ownerKey);
      assert list[j].name in LiveNames(store, ns, ownerKey);
    }
    LatestIff(list, 0);
  }

  /** `GetLatestState` answers nothing exactly if nothing is live, and may answer exactly the newest live states. */
  lemma AnswerIff(store: Store, ns: string, ownerKey: string, s: GeneratorState)
    requires WellNamed(store)
    ensures MayAnswer(store, ns, ownerKey, None) <==> LiveNames(store, ns, ownerKey) == {}
    ensures MayAnswer(store, ns, ownerKey, Some(s)) <==> NewestLive(store, ns, ownerKey, s)
  {
    if MayAnswer(store, ns, ownerKey, None) {
      var list :| IsListing(list, store, ns, ownerKey) && LatestOf(list) == None;
      ToFlagIsAllButLatest(list, store, ns, ownerKey);
    }
    if LiveNames(store, ns, ownerKey) == {} {
      var list := Enumerate(store, Scope(store, ns, ownerKey));
      ToFlagIsAllButLatest(list, store, ns, ownerKey);
      assert IsListing(list, store, ns, ownerKey);
    }
    if MayAnswer(store, ns, ownerKey, Some(s)) {
      var list :| IsListing(list, store, ns, ownerKey) && LatestOf(list) == Some(s);
      ToFlagIsAllButLatest(list, store, ns, ownerKey);
      LatestIsNewestLive(list, store, ns, ownerKey);
    }
    if NewestLive(store, ns, ownerKey, s) {
      assert s.name in Scope(store, ns, ownerKey);
      var list := ListingWithFirst(store, ns, ownerKey, s);
      FirstOfTheNewestIsPicked(list, store, ns, ownerKey, s);
    }
  }

  /** `after` is `before` with records added that are flagged from the start. */
  ghost predicate OnlyFlaggedAdded(before: Store, after: Store) {
    && before.Keys <= after.Keys
    && (forall n :: n in before ==> after[n] == before[n])
    && (forall n :: n in after && n !in before ==> !Live(after[n]))
  }

  /** Adding flagged records never changes what `GetLatestState` may answer, for any key. */
  lemma FlaggedRecordsDoNotAnswer(before: Store, after: Store, ns: string, ownerKey: string, answer: Option<GeneratorState>)
    requires WellNamed(before) && WellNamed(after) && OnlyFlaggedAdded(before, after)
    ensures MayAnswer(before, ns, ownerKey, answer) <==> MayAnswer(after, ns, ownerKey, answer)
  {
    assert LiveNames(before, ns, ownerKey) == LiveNames(after, ns, ownerKey);
    if answer.Some? {
      AnswerIff(before, ns, ownerKey, answer.value);
      AnswerIff(after, ns, ownerKey, answer.value);
    } else {
      var any := GeneratorState(0, ns, ownerKey, 0, None, "");
      AnswerIff(before, ns, ownerKey, any);
      AnswerIff(after, ns, ownerKey, any);
    }
  }
}
