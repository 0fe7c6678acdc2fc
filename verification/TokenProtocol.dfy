/**
 `GetToken` run by any number of callers at once: double-checked locking around the token cache. Each
 event is one atomic step of one caller, or time passing.
 */
module TokenProtocol {
  import opened Wrappers
  import opened Sequences
  import opened TokenManager

  /** Where a caller is in `GetToken`. */
  datatype Pc =
    | Idle
    | WaitingForLock
    | Rechecking
    | CreatingToken
    | Exchanging
    | Storing(token: string, expiry: int)
    | Unlocking

  /** A `Set` of the cache, and a token served from the cache with the expiry it had there. */
  datatype Stored = Stored(token: string, expiry: int, at: int)
  datatype Served = Served(token: string, expiry: int, at: int)

  /** Callers that are not in `pc` are idle. The last three fields record what happened. */
  datatype System = System(
    now: int,
    token: string,
    expiry: int,
    lock: Option<nat>,
    pc: map<nat, Pc>,
    exchanged: set<Exchange>,
    stores: seq<Stored>,
    served: seq<Served>)

  datatype Event =
    | Tick(passed: nat)
    | FastCheck(c: nat)
    | Lock(c: nat)
    | Recheck(c: nat)
    | CreateToken(c: nat, ok: bool)
    | ExchangeToken(c: nat, result: Option<Exchange>)
    | Set(c: nat)
    | Unlock(c: nat)

  function PcOf(sys: System, c: nat): Pc {
    if c in sys.pc then sys.pc[c] else Idle
  }

  predicate CacheUsable(sys: System) {
    Usable(sys.token, sys.expiry, sys.now)
  }

  predicate Enabled(sys: System, e: Event) {
    match e
    case Tick(_) => true
    case FastCheck(c) => PcOf(sys, c).Idle?
    case Lock(c) => PcOf(sys, c).WaitingForLock? && sys.lock.None?
    case Recheck(c) => PcOf(sys, c).Rechecking?
    case CreateToken(c, _) => PcOf(sys, c).CreatingToken?
    case ExchangeToken(c, _) => PcOf(sys, c).Exchanging?
    case Set(c) => PcOf(sys, c).Storing?
    case Unlock(c) => PcOf(sys, c).Unlocking?
  }

  function Goto(sys: System, c: nat, pc: Pc): System {
    sys.(pc := sys.pc[c := pc])
  }

  /** The cache hit of either check: the token is served. */
  function Serve(sys: System): System {
    sys.(served := sys.served + [Served(sys.token, sys.expiry, sys.now)])
  }

  function Apply(sys: System, e: Event): System
    requires Enabled(sys, e)
  {
    match e
    case Tick(passed) => sys.(now := sys.now + passed)
    case FastCheck(c) => if CacheUsable(sys) then Serve(sys) else Goto(sys, c, WaitingForLock)
    case Lock(c) => Goto(sys, c, Rechecking).(lock := Some(c))
    case Recheck(c) => if CacheUsable(sys) then Goto(Serve(sys), c, Unlocking) else Goto(sys, c, CreatingToken)
    case CreateToken(c, ok) => Goto(sys, c, if ok then Exchanging else Unlocking)
    case ExchangeToken(c, None) => Goto(sys, c, Unlocking)
    case ExchangeToken(c, Some(x)) => Goto(sys, c, Storing(x.token, x.expiry)).(exchanged := sys.exchanged + {x})
    case Set(c) =>
      var pc := PcOf(sys, c);
      Goto(sys, c, Unlocking).(token := pc.token, expiry := pc.expiry, stores := sys.stores + [Stored(pc.token, pc.expiry, sys.now)])
    case Unlock(c) => Goto(sys, c, Idle).(lock := None)
  }

  function Start(now: int): System {
    System(now, "", 0, None, map[], {}, [], [])
  }

  ghost predicate Reaches(sys: System, events: seq<Event>, end: System) {
    if events == [] then end == sys
    else exists mid :: Reaches(sys, events[..|events| - 1], mid) && Steps(mid, Last(events), end)
  }

  ghost predicate Steps(sys: System, e: Event, end: System) {
    Enabled(sys, e) && end == Apply(sys, e)
  }

  // ---------------------------------------------------------------- the invariant

  predicate HoldsLock(pc: Pc) {
    !pc.Idle? && !pc.WaitingForLock?
  }

  /** Between the second cache check and `Set`. */
  predicate Refreshing(pc: Pc) {
    pc.CreatingToken? || pc.Exchanging? || pc.Storing?
  }

  ghost predicate LockIsExclusive(sys: System) {
    forall c: nat :: HoldsLock(PcOf(sys, c)) <==> sys.lock == Some(c)
  }

  /** While a caller refreshes, the cache has nothing to serve: time only makes it less usable. */
  ghost predicate RefreshOnlyIfStale(sys: System) {
    sys.lock.Some? && Refreshing(PcOf(sys, sys.lock.value)) ==> !CacheUsable(sys)
  }

  ghost predicate CacheIsLastStore(sys: System) {
    if sys.stores == [] then sys.token == ""
    else
      var last := sys.stores[|sys.stores| - 1];
      sys.token == last.token && sys.expiry == last.expiry && last.at <= sys.now
  }

  /** Each store found the one before it no longer usable. */
  ghost predicate StoresReplaceStale(stores: seq<Stored>) {
    forall i :: 0 < i < |stores| ==>
      stores[i - 1].at <= stores[i].at && !Usable(stores[i - 1].token, stores[i - 1].expiry, stores[i].at)
  }

  ghost predicate StoresAreExchanges(sys: System) {
    && (forall i :: 0 <= i < |sys.stores| ==> Exchange(sys.stores[i].token, sys.stores[i].expiry) in sys.exchanged)
    && (forall c: nat :: PcOf(sys, c).Storing? ==> Exchange(PcOf(sys, c).token, PcOf(sys, c).expiry) in sys.exchanged)
  }

  ghost predicate WasStored(stores: seq<Stored>, s: Served) {
    exists i :: 0 <= i < |stores| && stores[i].token == s.token && stores[i].expiry == s.expiry && stores[i].at <= s.at
  }

  ghost predicate ServedUsable(sys: System) {
    forall i :: 0 <= i < |sys.served| ==>
      WasStored(sys.stores, sys.served[i]) && Usable(sys.served[i].token, sys.served[i].expiry, sys.served[i].at)
  }

  ghost predicate Inv(sys: System) {
    && LockIsExclusive(sys) && RefreshOnlyIfStale(sys) && CacheIsLastStore(sys)
    && StoresReplaceStale(sys.stores) && StoresAreExchanges(sys) && ServedUsable(sys)
  }

  lemma ServeKeepsServed(sys: System)
    requires Inv(sys) && CacheUsable(sys)
    ensures ServedUsable(Serve(sys))
  {
    var n := |sys.stores| - 1;
    assert n >= 0 && sys.stores[n].token == sys.token;
    assert WasStored(sys.stores, Served(sys.token, sys.expiry, sys.now));
  }

  lemma MoreStoresStillStored(stores: seq<Stored>, more: Stored, s: Served)
    requires WasStored(stores, s)
    ensures WasStored(stores + [more], s)
  {
    var i :| 0 <= i < |stores| && stores[i].token == s.token && stores[i].expiry == s.expiry && stores[i].at <= s.at;
    assert (stores + [more])[i] == stores[i];
  }

  lemma SetKeepsInv(sys: System, c: nat)
    requires Inv(sys) && Enabled(sys, Set(c))
    ensures Inv(Apply(sys, Set(c)))
  {
    var pc := PcOf(sys, c);
    var more := Stored(pc.token, pc.expiry, sys.now);
    forall i | 0 <= i < |sys.served|
      ensures WasStored(sys.stores + [more], sys.served[i])
    {
      MoreStoresStillStored(sys.stores, more, sys.served[i]);
    }
  }

  lemma CheckKeepsInv(sys: System, e: Event)
    requires Inv(sys) && Enabled(sys, e) && (e.FastCheck? || e.Recheck?)
    ensures Inv(Apply(sys, e))
  {
    if CacheUsable(sys) {
      ServeKeepsServed(sys);
    }
  }

  lemma LockingKeepsInv(sys: System, e: Event)
    ensures (Inv(sys) && Enabled(sys, e) && (e.Tick? || e.Lock? || e.Unlock?)) ==> Inv(Apply(sys, e))
  {
  }

  lemma CreateTokenKeepsInv(sys: System, c: nat, ok: bool)
    ensures Inv(sys) && Enabled(sys, CreateToken(c, ok)) ==> Inv(Apply(sys, CreateToken(c, ok)))
  {
  }

  lemma ExchangeKeepsInv(sys: System, c: nat, result: Option<Exchange>)
    ensures Inv(sys) && Enabled(sys, ExchangeToken(c, result)) ==> Inv(Apply(sys, ExchangeToken(c, result)))
  {
  }

  lemma StepKeepsInv(sys: System, e: Event)
    requires Inv(sys) && Enabled(sys, e)
    ensures Inv(Apply(sys, e))
  {
    match e
    case FastCheck(_) => CheckKeepsInv(sys, e);
    case Recheck(_) => CheckKeepsInv(sys, e);
    case Tick(_) => LockingKeepsInv(sys, e);
    case Lock(_) => LockingKeepsInv(sys, e);
    case Unlock(_) => LockingKeepsInv(sys, e);
    case CreateToken(c, ok) => CreateTokenKeepsInv(sys, c, ok);
    case ExchangeToken(c, result) => ExchangeKeepsInv(sys, c, result);
    case Set(c) => SetKeepsInv(sys, c);
  }

  lemma {:induction false} RunKeepsInv(start: int, events: seq<Event>, end: System)
    requires Reaches(Start(start), events, end)
    ensures Inv(end)
  {
    if events != [] {
      var mid :| Reaches(Start(start), events[..|events| - 1], mid) && Steps(mid, Last(events), end);
      RunKeepsInv(start, events[..|events| - 1], mid);
      StepKeepsInv(mid, Last(events));
    }
  }

  // ---------------------------------------------------------------- what every run guarantees

  /** At most one caller is between its second cache check and `Set`, and it holds the lock. */
  lemma {:induction false} AtMostOneRefreshes(start: int, events: seq<Event>, end: System, c: nat, d: nat)
    requires Reaches(Start(start), events, end) && Refreshing(PcOf(end, c)) && Refreshing(PcOf(end, d))
    ensures c == d && end.lock == Some(c)
  {
    RunKeepsInv(start, events, end);
  }

  /** No `Set` overwrites a token that could still be served. */
  lemma {:induction false} SetReplacesStaleToken(start: int, events: seq<Event>, end: System, c: nat)
    requires Reaches(Start(start), events, end) && Enabled(end, Set(c))
    ensures !CacheUsable(end)
  {
    RunKeepsInv(start, events, end);
  }

  /**
   Every token served from the cache was stored there with this very expiry, the two came from one
   exchange, and it had more than the buffer left when it was read.
   */
  lemma {:induction false} ServedTokensAreGood(start: int, events: seq<Event>, end: System, i: nat)
    requires Reaches(Start(start), events, end) && i < |end.served|
    ensures var s := end.served[i];
            s.token != "" && s.expiry - s.at > MIN_TOKEN_BUFFER && Exchange(s.token, s.expiry) in end.exchanged
  {
    RunKeepsInv(start, events, end);
    var s := end.served[i];
    var k :| 0 <= k < |end.stores| && end.stores[k].token == s.token && end.stores[k].expiry == s.expiry && end.stores[k].at <= s.at;
    assert Exchange(end.stores[k].token, end.stores[k].expiry) in end.exchanged;
  }

  ghost predicate SameCache(a: System, b: System) {
    a.token == b.token && a.expiry == b.expiry && a.stores == b.stores
  }

  /** While a caller holds the lock, whatever the others do, nobody else changes the cache or takes the lock. */
  lemma {:induction false} CacheHeldWhileLocked(locked: System, events: seq<Event>, end: System, c: nat)
    requires Inv(locked) && locked.lock == Some(c) && Reaches(locked, events, end)
    requires Set(c) !in events && Unlock(c) !in events
    ensures Inv(end) && end.lock == Some(c) && SameCache(locked, end)
  {
    if events != [] {
      var mid :| Reaches(locked, events[..|events| - 1], mid) && Steps(mid, Last(events), end);
      CacheHeldWhileLocked(locked, events[..|events| - 1], mid, c);
      StepKeepsInv(mid, Last(events));
      HolderKeepsLock(mid, Last(events), c);
    }
  }

  lemma HolderKeepsLock(sys: System, e: Event, c: nat)
    requires Inv(sys) && sys.lock == Some(c) && Enabled(sys, e)
    ensures e != Set(c) && e != Unlock(c) ==> Apply(sys, e).lock == Some(c) && SameCache(sys, Apply(sys, e))
  {
    match e
    case Set(d) => assert HoldsLock(PcOf(sys, d));
    case Unlock(d) => assert HoldsLock(PcOf(sys, d));
    case _ =>
  }

  /**
   A refresh that fails leaves the cache as it was when its caller took the lock, whatever others did
   since, and the caller's next step frees the lock.
   */
  lemma {:induction false} FailedRefreshLeavesCache(start: int, before: seq<Event>, locked: System, events: seq<Event>, sys: System, e: Event)
    requires Reaches(Start(start), before, locked) && Reaches(locked, events, sys) && Enabled(sys, e)
    requires (e.CreateToken? && !e.ok) || (e.ExchangeToken? && e.result.None?)
    requires locked.lock == Some(e.c) && Set(e.c) !in events && Unlock(e.c) !in events
    ensures var failed := Apply(sys, e);
            && SameCache(locked, failed) && failed.lock == Some(e.c)
            && Enabled(failed, Unlock(e.c)) && Apply(failed, Unlock(e.c)).lock.None? && SameCache(locked, Apply(failed, Unlock(e.c)))
  {
    RunKeepsInv(start, before, locked);
    CacheHeldWhileLocked(locked, events, sys, e.c);
  }

  // ---------------------------------------------------------------- a caller alone

  /** Either look at the cache serves the token exactly if it is usable, and changes nothing of the cache. */
  lemma LookServesIff(sys: System, e: Event)
    requires Enabled(sys, e) && (e.FastCheck? || e.Recheck?)
    ensures var end := Apply(sys, e);
            && end.served == (if CacheUsable(sys) then sys.served + [Served(sys.token, sys.expiry, sys.now)] else sys.served)
            && SameCache(sys, end) && end.exchanged == sys.exchanged
            && (PcOf(end, e.c).Idle? || PcOf(end, e.c).Unlocking? <==> CacheUsable(sys))
  {
  }

  ghost predicate AllIdle(sys: System) {
    sys.lock.None? && forall c: nat :: PcOf(sys, c).Idle?
  }

  lemma {:induction false} Further(sys: System, events: seq<Event>, mid: System, e: Event, end: System)
    requires Reaches(sys, events, mid) && Steps(mid, e, end)
    ensures Reaches(sys, events + [e], end)
  {
    assert (events + [e])[..|events|] == events && Last(events + [e]) == e;
  }

  lemma {:induction false} ReachesOneMore(sys: System, events: seq<Event>, mid: System, e: Event)
    requires Reaches(sys, events, mid) && Enabled(mid, e)
    ensures Reaches(sys, events + [e], Apply(mid, e))
  {
    Further(sys, events, mid, e, Apply(mid, e));
  }

  lemma MissTakesLock(sys: System, c: nat) returns (events: seq<Event>, end: System)
    requires AllIdle(sys) && !CacheUsable(sys)
    ensures events == [FastCheck(c)] + [Lock(c)] + [Recheck(c)]
    ensures Reaches(sys, events, end) && end == Goto(sys, c, CreatingToken).(lock := Some(c))
  {
    ReachesOneMore(sys, [], sys, FastCheck(c));
    var s1 := Apply(sys, FastCheck(c));
    assert [] + [FastCheck(c)] == [FastCheck(c)];
    ReachesOneMore(sys, [FastCheck(c)], s1, Lock(c));
    var s2 := Apply(s1, Lock(c));
    ReachesOneMore(sys, [FastCheck(c)] + [Lock(c)], s2, Recheck(c));
    events, end := [FastCheck(c)] + [Lock(c)] + [Recheck(c)], Apply(s2, Recheck(c));
    assert end.pc == sys.pc[c := CreatingToken];
  }

  /** The steps after the second look, given how the two calls end. */
  function Calling(c: nat, created: bool, result: Option<Exchange>): seq<Event> {
    if !created then [CreateToken(c, false)]
    else if result.None? then [CreateToken(c, true), ExchangeToken(c, None)]
    else [CreateToken(c, true), ExchangeToken(c, result), Set(c)]
  }

  lemma {:induction false} ReachesFurther(sys: System, events: seq<Event>, mid: System, more: seq<Event>, end: System)
    requires Reaches(sys, events, mid) && Reaches(mid, more, end)
    ensures Reaches(sys, events + more, end)
  {
    if more == [] {
      assert events + more == events;
    } else {
      var last :| Reaches(mid, more[..|more| - 1], last) && Steps(last, Last(more), end);
      ReachesFurther(sys, events, mid, more[..|more| - 1], last);
      ReachesOneMore(sys, events + more[..|more| - 1], last, Last(more));
      assert events + more == events + more[..|more| - 1] + [Last(more)];
    }
  }

  /** The cache after the calls. */
  function CacheAfter(cached: Exchange, created: bool, result: Option<Exchange>): Exchange {
    if created && result.Some? then result.value else cached
  }

  lemma CallsEndUnlocking(sys: System, c: nat, created: bool, result: Option<Exchange>) returns (end: System)
    requires PcOf(sys, c).CreatingToken?
    ensures Reaches(sys, Calling(c, created, result), end)
    ensures end.pc == sys.pc[c := Unlocking] && end.lock == sys.lock && end.now == sys.now
    ensures Exchange(end.token, end.expiry) == CacheAfter(Exchange(sys.token, sys.expiry), created, result)
  {
    ReachesOneMore(sys, [], sys, CreateToken(c, created));
    var s1 := Apply(sys, CreateToken(c, created));
    assert [] + [CreateToken(c, created)] == [CreateToken(c, created)];
    if !created {
      return s1;
    }
    ReachesOneMore(sys, [CreateToken(c, true)], s1, ExchangeToken(c, result));
    var s2 := Apply(s1, ExchangeToken(c, result));
    assert [CreateToken(c, true)] + [ExchangeToken(c, result)] == [CreateToken(c, true), ExchangeToken(c, result)];
    if result.None? {
      assert s2.pc == sys.pc[c := Unlocking];
      return s2;
    }
    ReachesOneMore(sys, [CreateToken(c, true), ExchangeToken(c, result)], s2, Set(c));
    assert [CreateToken(c, true), ExchangeToken(c, result)] + [Set(c)] == Calling(c, created, result);
    end := Apply(s2, Set(c));
    assert end.pc == sys.pc[c := Unlocking];
  }

  /** The calls of these steps, and what the caller answers, as the method makes and gives them. */
  function CallsOf(saToken: string, created: bool, result: Option<Exchange>): seq<EnvironmentCall> {
    if created then [CreateCall(Some(saToken)), ExchangeCall(saToken, result)] else [CreateCall(None)]
  }

  function AnswerOf(created: bool, result: Option<Exchange>): Result<string, TokenError> {
    if !created then Failure(ServiceAccountTokenFailed) else if result.None? then Failure(ExchangeFailed) else Success(result.value.token)
  }

  /** A caller that misses the cache, with nobody else at work, does what the method `GetToken` does. */
  lemma MissAlone(sys: System, c: nat, saToken: string, created: bool, result: Option<Exchange>) returns (end: System)
    requires AllIdle(sys) && !CacheUsable(sys)
    ensures Reaches(sys, [FastCheck(c)] + [Lock(c)] + [Recheck(c)] + Calling(c, created, result) + [Unlock(c)], end)
    ensures AllIdle(end) && end.now == sys.now
    ensures Answers(Exchange(sys.token, sys.expiry), sys.now, CallsOf(saToken, created, result), Exchange(end.token, end.expiry), AnswerOf(created, result))
  {
    var events, locked := MissTakesLock(sys, c);
    var called := CallsEndUnlocking(locked, c, created, result);
    ReachesFurther(sys, events, locked, Calling(c, created, result), called);
    ReachesOneMore(sys, events + Calling(c, created, result), called, Unlock(c));
    end := Apply(called, Unlock(c));
    forall d: nat
      ensures PcOf(end, d).Idle?
    {
      assert PcOf(sys, d).Idle?;
    }
  }

  // ---------------------------------------------------------------- the exchange rate

  /** Every stored token is not empty and has at least `lifetime` left when it is stored. */
  ghost predicate LiveAtLeast(stores: seq<Stored>, lifetime: int) {
    forall i :: 0 <= i < |stores| ==> stores[i].token != "" && stores[i].expiry - stores[i].at >= lifetime
  }

  /** How many stores happened from time `from` to time `from + window`. */
  ghost function StoresWithin(stores: seq<Stored>, from: int, window: int): nat {
    if stores == [] then 0
    else StoresWithin(stores[..|stores| - 1], from, window) + if from <= stores[|stores| - 1].at <= from + window then 1 else 0
  }

  /** From any store to the last one, if it is another, takes at least the lifetime less the buffer. */
  lemma NextStoreIsLater(stores: seq<Stored>, lifetime: int, k: int)
    requires StoresReplaceStale(stores) && LiveAtLeast(stores, lifetime) && 0 <= k < |stores| - 1
    ensures stores[k].at + lifetime - MIN_TOKEN_BUFFER <= stores[|stores| - 1].at
  {
    var n := |stores| - 1;
    StoresOrdered(stores, k, n - 1);
    assert stores[n - 1].expiry - stores[n].at <= MIN_TOKEN_BUFFER;
  }

  lemma OneMoreGap(count: int, gap: int)
    ensures count * gap == (count - 1) * gap + gap
  {
  }

  /** The last store within the window is late enough for all those before it to fit in. */
  lemma {:induction false} StoresAreSpaced(stores: seq<Stored>, lifetime: int, from: int, window: int) returns (k: int)
    requires StoresReplaceStale(stores) && LiveAtLeast(stores, lifetime) && lifetime > MIN_TOKEN_BUFFER
    ensures var count := StoresWithin(stores, from, window);
            count > 0 ==>
              && 0 <= k < |stores| && from <= stores[k].at <= from + window
              && (count - 1) * (lifetime - MIN_TOKEN_BUFFER) <= stores[k].at - from
  {
    k := -1;
    if stores != [] {
      var n := |stores| - 1;
      var front := stores[..n];
      var gap := lifetime - MIN_TOKEN_BUFFER;
      k := StoresAreSpaced(front, lifetime, from, window);
      if from <= stores[n].at <= from + window {
        var count := StoresWithin(front, from, window);
        if count > 0 {
          NextStoreIsLater(stores, lifetime, k);
          OneMoreGap(count, gap);
        }
        k := n;
      }
    }
  }

  lemma {:induction false} StoresOrdered(stores: seq<Stored>, i: int, j: int)
    requires StoresReplaceStale(stores) && 0 <= i <= j < |stores|
    ensures stores[i].at <= stores[j].at
    decreases j
  {
    if i < j {
      StoresOrdered(stores, i, j - 1);
    }
  }

  lemma Product(a: int, b: int, c: int)
    requires c > 0
    ensures a >= b ==> a * c >= b * c
  {
    assert a * c - b * c == (a - b) * c;
  }

  lemma Quotient(n: int, gap: int, window: int)
    requires gap > 0 && n * gap <= window
    ensures n <= window / gap
  {
    var q := window / gap;
    assert window == q * gap + window % gap;
    assert (q + 1) * gap == q * gap + gap;
    Product(n, q + 1, gap);
  }

  lemma {:induction false} StoresAreBounded(stores: seq<Stored>, lifetime: int, from: int, window: int)
    requires StoresReplaceStale(stores) && LiveAtLeast(stores, lifetime) && lifetime > MIN_TOKEN_BUFFER && window >= 0
    ensures StoresWithin(stores, from, window) <= window / (lifetime - MIN_TOKEN_BUFFER) + 1
  {
    var k := StoresAreSpaced(stores, lifetime, from, window);
    var elapsed := if StoresWithin(stores, from, window) > 0 then stores[k].at - from else 0;
    CountFits(StoresWithin(stores, from, window), lifetime - MIN_TOKEN_BUFFER, elapsed, window);
  }

  lemma CountFits(count: nat, gap: int, elapsed: int, window: int)
    requires gap > 0 && 0 <= elapsed <= window && (count > 0 ==> (count - 1) * gap <= elapsed)
    ensures count <= window / gap + 1
  {
    if count > 0 {
      Quotient(count - 1, gap, window);
    }
  }

  /**
   If stored tokens live at least `lifetime`, more than the buffer, then however many callers there
   are, any window of time sees at most window / (lifetime - buffer) + 1 exchanges that are stored.
   */
  lemma {:induction false} ExchangeRateIsBounded(start: int, events: seq<Event>, end: System, lifetime: int, from: int, window: int)
    requires Reaches(Start(start), events, end)
    requires LiveAtLeast(end.stores, lifetime) && lifetime > MIN_TOKEN_BUFFER && window >= 0
    ensures StoresWithin(end.stores, from, window) <= window / (lifetime - MIN_TOKEN_BUFFER) + 1
  {
    RunKeepsInv(start, events, end);
    StoresAreBounded(end.stores, lifetime, from, window);
  }

  // ---------------------------------------------------------------- why the lifetime must exceed the buffer

  ghost predicate AllQuiet(sys: System) {
    AllIdle(sys) && !CacheUsable(sys)
  }

  /** Caller 0 misses the cache and takes the lock. */
  lemma RefreshLocks(sys: System, events: seq<Event>, mid: System) returns (longer: seq<Event>, end: System)
    requires Reaches(sys, events, mid) && AllQuiet(mid)
    ensures Reaches(sys, longer, end) && end == Goto(mid, 0, Rechecking).(lock := Some(0))
  {
    var waiting := Goto(mid, 0, WaitingForLock);
    Further(sys, events, mid, FastCheck(0), waiting);
    end := Goto(waiting, 0, Rechecking).(lock := Some(0));
    longer := events + [FastCheck(0)];
    Further(sys, longer, waiting, Lock(0), end);
    longer := longer + [Lock(0)];
    assert end.pc == mid.pc[0 := Rechecking];
  }

  /** It misses the cache again and creates a service account token. */
  lemma RefreshFetches(sys: System, events: seq<Event>, mid: System) returns (longer: seq<Event>, end: System)
    requires Reaches(sys, events, mid) && PcOf(mid, 0).Rechecking? && !CacheUsable(mid)
    ensures Reaches(sys, longer, end) && end == Goto(mid, 0, Exchanging)
  {
    var creating := Goto(mid, 0, CreatingToken);
    Further(sys, events, mid, Recheck(0), creating);
    end := Goto(creating, 0, Exchanging);
    longer := events + [Recheck(0)];
    Further(sys, longer, creating, CreateToken(0, true), end);
    longer := longer + [CreateToken(0, true)];
    assert end.pc == mid.pc[0 := Exchanging];
  }

  /** It exchanges the token, stores the result and releases the lock. */
  lemma RefreshEnds(sys: System, events: seq<Event>, mid: System, x: Exchange) returns (longer: seq<Event>, end: System)
    requires Reaches(sys, events, mid) && PcOf(mid, 0).Exchanging?
    ensures Reaches(sys, longer, end)
    ensures end == Goto(mid, 0, Idle).(lock := None, token := x.token, expiry := x.expiry, exchanged := mid.exchanged + {x},
                     stores := mid.stores + [Stored(x.token, x.expiry, mid.now)])
  {
    var s1 := Goto(mid, 0, Storing(x.token, x.expiry)).(exchanged := mid.exchanged + {x});
    Further(sys, events, mid, ExchangeToken(0, Some(x)), s1);
    var s2 := Goto(s1, 0, Unlocking).(token := x.token, expiry := x.expiry, stores := mid.stores + [Stored(x.token, x.expiry, mid.now)]);
    Further(sys, events + [ExchangeToken(0, Some(x))], s1, Set(0), s2);
    end := Goto(s2, 0, Idle).(lock := None);
    Further(sys, events + [ExchangeToken(0, Some(x))] + [Set(0)], s2, Unlock(0), end);
    longer := events + [ExchangeToken(0, Some(x))] + [Set(0)] + [Unlock(0)];
    assert end.pc == mid.pc[0 := Idle];
  }

  lemma RefreshRuns(sys: System, events: seq<Event>, mid: System, x: Exchange) returns (longer: seq<Event>, end: System)
    requires Reaches(sys, events, mid) && AllQuiet(mid)
    ensures Reaches(sys, longer, end) && AllIdle(end)
    ensures end.now == mid.now && end.token == x.token && end.expiry == x.expiry
    ensures end.stores == mid.stores + [Stored(x.token, x.expiry, mid.now)]
  {
    var locked, fetched;
    longer, locked := RefreshLocks(sys, events, mid);
    longer, fetched := RefreshFetches(sys, longer, locked);
    longer, end := RefreshEnds(sys, longer, fetched, x);
    forall c: nat
      ensures PcOf(end, c).Idle?
    {
      assert PcOf(mid, c).Idle?;
    }
  }

  /**
   With a lifetime of no more than the buffer, or an empty token, there is no bound at all: a run can
   store any number of exchanges within one instant.
   */
  lemma {:induction false} ShortLivedTokensAreUnbounded(start: int, n: nat, x: Exchange) returns (events: seq<Event>, end: System)
    requires x.token == "" || x.expiry - start <= MIN_TOKEN_BUFFER
    ensures Reaches(Start(start), events, end) && AllQuiet(end) && end.now == start
    ensures StoresWithin(end.stores, start, 0) == n
  {
    if n == 0 {
      events, end := [], Start(start);
    } else {
      var before, mid := ShortLivedTokensAreUnbounded(start, n - 1, x);
      events, end := RefreshRuns(Start(start), before, mid, x);
      assert end.stores[..|end.stores| - 1] == mid.stores;
    }
  }

  lemma LiveOneMore(stores: seq<Stored>, lifetime: int, more: Stored)
    ensures LiveAtLeast(stores, lifetime) && more.token != "" && more.expiry - more.at >= lifetime ==> LiveAtLeast(stores + [more], lifetime)
  {
  }

  /** Time passes until the cached token is just not usable any more. */
  lemma WaitForBuffer(sys: System, events: seq<Event>, mid: System, gap: nat) returns (longer: seq<Event>, end: System)
    requires Reaches(sys, events, mid) && AllIdle(mid) && mid.expiry <= mid.now + gap + MIN_TOKEN_BUFFER
    ensures Reaches(sys, longer, end) && AllQuiet(end) && end == mid.(now := mid.now + gap)
  {
    end := Apply(mid, Tick(gap));
    longer := events + [Tick(gap)];
    Further(sys, events, mid, Tick(gap), end);
    forall c: nat
      ensures PcOf(end, c).Idle?
    {
      assert PcOf(mid, c).Idle?;
    }
  }

  /** Refreshing now stores a token of the given lifetime. */
  lemma RefreshCounts(start: int, lifetime: int, window: int, events: seq<Event>, mid: System) returns (longer: seq<Event>, end: System)
    requires Reaches(Start(start), events, mid) && AllQuiet(mid) && LiveAtLeast(mid.stores, lifetime)
    requires start <= mid.now <= start + window
    ensures Reaches(Start(start), longer, end) && AllIdle(end) && LiveAtLeast(end.stores, lifetime)
    ensures end.now == mid.now && end.expiry == end.now + lifetime
    ensures StoresWithin(end.stores, start, window) == StoresWithin(mid.stores, start, window) + 1
  {
    longer, end := RefreshRuns(Start(start), events, mid, Exchange("token", mid.now + lifetime));
    assert end.stores[..|end.stores| - 1] == mid.stores;
    LiveOneMore(mid.stores, lifetime, Stored("token", mid.now + lifetime, mid.now));
  }

  /**
   The bound on the exchange rate is attained: refreshing as soon as the buffer is reached stores
   n + 1 exchanges within n times the lifetime less the buffer.
   */
  lemma {:induction false} ExchangeRateIsAttained(start: int, lifetime: int, n: nat, window: int) returns (events: seq<Event>, end: System)
    requires lifetime > MIN_TOKEN_BUFFER && window >= n * (lifetime - MIN_TOKEN_BUFFER)
    ensures Reaches(Start(start), events, end) && LiveAtLeast(end.stores, lifetime)
    ensures AllIdle(end) && end.now == start + n * (lifetime - MIN_TOKEN_BUFFER) && end.expiry == end.now + lifetime
    ensures StoresWithin(end.stores, start, window) == n + 1
  {
    var gap := lifetime - MIN_TOKEN_BUFFER;
    if n == 0 {
      events, end := RefreshCounts(start, lifetime, window, [], Start(start));
    } else {
      OneMoreGap(n, gap);
      var before, mid := ExchangeRateIsAttained(start, lifetime, n - 1, window);
      var quiet;
      before, quiet := WaitForBuffer(Start(start), before, mid, gap);
      Product(n, 0, gap);
      events, end := RefreshCounts(start, lifetime, window, before, quiet);
    }
  }
}
