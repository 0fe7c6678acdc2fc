/**
 `cache.Cache`: clients by key, one version each, in a bounded LRU that hands evicted clients to a
 cleanup function. The LRU is the one of `hashicorp/golang-lru`, as far as the cache uses it.
 */
module ClientCache {
  import opened Wrappers
  import opened Sequences

  datatype Key = Key(name: string, namespace: string, kind: string)

  datatype Entry<T> = Entry(key: Key, version: string, client: T)

  // ---------------------------------------------------------------- the LRU as a value

  /** Least recently used first. */
  type Entries<T> = seq<Entry<T>>

  predicate Distinct<T>(entries: Entries<T>) {
    forall i, j :: 0 <= i < j < |entries| ==> entries[i].key != entries[j].key
  }

  predicate Resident<T>(entries: Entries<T>, key: Key) {
    exists i :: 0 <= i < |entries| && entries[i].key == key
  }

  /** Where the key is, or the length if it is nowhere. */
  function Find<T>(entries: Entries<T>, key: Key): (i: nat)
    ensures i <= |entries|
    ensures i < |entries| ==> entries[i].key == key
    ensures Resident(entries, key) <==> i < |entries|
  {
    if entries == [] then 0
    else if entries[0].key == key then 0
    else
      assert Resident(entries, key) ==> exists i :: 0 <= i < |entries[1..]| && entries[1..][i].key == key by {
        if Resident(entries, key) {
          var i :| 0 <= i < |entries| && entries[i].key == key;
          assert entries[1..][i - 1].key == key;
        }
      }
      Find(entries[1..], key) + 1
  }

  /** What one call does: the new entries, the answer, and what became of clients that left. */
  datatype Effect<T> = Effect(entries: Entries<T>, answer: Option<T>, evicted: seq<T>, overwritten: seq<T>)

  /** A hit moves the entry to the fresh end; a version mismatch evicts it. */
  function Looked<T>(entries: Entries<T>, version: string, key: Key): Effect<T> {
    var i := Find(entries, key);
    if i == |entries| then Effect(entries, None, [], [])
    else if entries[i].version == version then Effect(Without(entries, i) + [entries[i]], Some(entries[i].client), [], [])
    else Effect(Without(entries, i), None, [entries[i].client], [])
  }

  /** Adding a resident key overwrites it without telling the cleanup; otherwise a full LRU evicts its stalest entry. */
  function Added<T>(size: nat, entries: Entries<T>, version: string, key: Key, client: T): Effect<T> {
    var i := Find(entries, key);
    var entry := Entry(key, version, client);
    if i < |entries| then Effect(Without(entries, i) + [entry], None, [], [entries[i].client])
    else if |entries| < size || entries == [] then Effect(entries + [entry], None, [], [])
    else Effect(entries[1..] + [entry], None, [entries[0].client], [])
  }

  function Clients<T>(entries: Entries<T>): seq<T> {
    if entries == [] then [] else Clients(entries[..|entries| - 1]) + [entries[|entries| - 1].client]
  }

  // ---------------------------------------------------------------- the cache

  class Cache<T(==)> {
    const size: nat
    /** Whether there is a cleanup function, and the clients it was called with. */
    const hasCleanup: bool
    var entries: Entries<T>
    var cleaned: seq<T>

    ghost predicate Valid()
      reads this
    {
      Distinct(entries) && |entries| <= size && size > 0
    }

    constructor (size: nat, hasCleanup: bool)
      requires size > 0
      ensures Valid() && entries == [] && cleaned == [] && this.size == size && this.hasCleanup == hasCleanup
    {
      this.size, this.hasCleanup := size, hasCleanup;
      entries, cleaned := [], [];
    }

    /** `New`: the LRU refuses a size that is not positive. */
    static method New(size: int, hasCleanup: bool) returns (cache: Cache?<T>)
      ensures cache == null <==> size <= 0
      ensures cache != null ==> fresh(cache) && cache.Valid() && cache.entries == [] && cache.cleaned == []
      ensures cache != null ==> cache.size == size && cache.hasCleanup == hasCleanup
    {
      if size <= 0 {
        return null;
      }
      cache := new Cache(size, hasCleanup);
    }

    method Evict(i: nat)
      requires i < |entries|
      modifies this
      ensures entries == Without(old(entries), i)
      ensures cleaned == old(cleaned) + if hasCleanup then [old(entries)[i].client] else []
    {
      var client := entries[i].client;
      entries := Without(entries, i);
      if hasCleanup {
        cleaned := cleaned + [client];
      }
    }

    method Get(version: string, key: Key) returns (r: Option<T>)
      requires Valid()
      modifies this
      ensures Valid()
      ensures var effect := Looked(old(entries), version, key);
              && entries == effect.entries && r == effect.answer
              && cleaned == old(cleaned) + if hasCleanup then effect.evicted else []
    {
      LookupKeepsValid(size, entries, version, key);
      var i := Find(entries, key);
      if i < |entries| {
        var found := entries[i];
        entries := Without(entries, i) + [found];
        if found.version == version {
          return Some(found.client);
        }
        assert Without(entries, |entries| - 1) == Without(old(entries), i);
        Evict(|entries| - 1);
      }
      r := None;
    }

    method Add(version: string, key: Key, client: T)
      requires Valid()
      modifies this
      ensures Valid()
      ensures var effect := Added(size, old(entries), version, key, client);
              && entries == effect.entries
              && cleaned == old(cleaned) + if hasCleanup then effect.evicted else []
    {
      AddKeepsValid(size, entries, version, key, client);
      var i := Find(entries, key);
      if i < |entries| {
        entries := Without(entries, i) + [Entry(key, version, client)];
        return;
      }
      entries := entries + [Entry(key, version, client)];
      if |entries| > size {
        assert Without(entries, 0) == old(entries)[1..] + [Entry(key, version, client)];
        Evict(0);
      }
    }

    method Contains(key: Key) returns (found: bool)
      ensures found <==> Resident(entries, key)
    {
      found := Find(entries, key) < |entries|;
    }
  }

  lemma NotResidentWithout<T>(entries: Entries<T>, i: nat)
    requires Distinct(entries) && i < |entries|
    ensures Distinct(Without(entries, i)) && !Resident(Without(entries, i), entries[i].key)
  {
    var rest := Without(entries, i);
    forall j | 0 <= j < |rest|
      ensures rest[j] == entries[if j < i then j else j + 1]
    {
    }
  }

  lemma LookupKeepsValid<T>(size: nat, entries: Entries<T>, version: string, key: Key)
    requires Distinct(entries) && |entries| <= size
    ensures Distinct(Looked(entries, version, key).entries) && |Looked(entries, version, key).entries| <= size
  {
    var i := Find(entries, key);
    if i < |entries| {
      NotResidentWithout(entries, i);
    }
  }

  lemma AddKeepsValid<T>(size: nat, entries: Entries<T>, version: string, key: Key, client: T)
    requires Distinct(entries) && |entries| <= size && size > 0
    ensures Distinct(Added(size, entries, version, key, client).entries)
    ensures |Added(size, entries, version, key, client).entries| <= size
  {
    var i := Find(entries, key);
    if i < |entries| {
      NotResidentWithout(entries, i);
    }
  }

  // ---------------------------------------------------------------- the ledger of clients

  datatype Call<T> = Get(version: string, key: Key) | Add(version: string, key: Key, client: T)

  /** All clients ever added, evicted and overwritten, and what is in the cache now. */
  datatype Ledger<T> = Ledger(entries: Entries<T>, added: seq<T>, evicted: seq<T>, overwritten: seq<T>)

  function Book<T>(ledger: Ledger<T>, effect: Effect<T>, added: seq<T>): Ledger<T> {
    Ledger(effect.entries, ledger.added + added, ledger.evicted + effect.evicted, ledger.overwritten + effect.overwritten)
  }

  function AfterCall<T>(size: nat, ledger: Ledger<T>, call: Call<T>): Ledger<T> {
    match call
    case Get(version, key) => Book(ledger, Looked(ledger.entries, version, key), [])
    case Add(version, key, client) => Book(ledger, Added(size, ledger.entries, version, key, client), [client])
  }

  function AfterCalls<T>(size: nat, calls: seq<Call<T>>): Ledger<T> {
    if calls == [] then Ledger([], [], [], [])
    else AfterCall(size, AfterCalls(size, calls[..|calls| - 1]), calls[|calls| - 1])
  }

  /** How often a client occurs. */
  function Count<T(==)>(s: seq<T>, x: T): nat {
    if s == [] then 0 else Count(s[..|s| - 1], x) + if s[|s| - 1] == x then 1 else 0
  }

  lemma {:induction false} CountSplit<T>(a: seq<T>, b: seq<T>, x: T)
    ensures Count(a + b, x) == Count(a, x) + Count(b, x)
  {
    if b == [] {
      assert a + b == a;
    } else {
      assert (a + b)[..|a + b| - 1] == a + b[..|b| - 1];
      CountSplit(a, b[..|b| - 1], x);
    }
  }

  lemma {:induction false} ClientsSplit<T>(a: Entries<T>, b: Entries<T>)
    ensures Clients(a + b) == Clients(a) + Clients(b)
  {
    if b == [] {
      assert a + b == a;
    } else {
      assert (a + b)[..|a + b| - 1] == a + b[..|b| - 1];
      ClientsSplit(a, b[..|b| - 1]);
    }
  }

  function CountIn<T(==)>(entries: Entries<T>, x: T): nat {
    Count(Clients(entries), x)
  }

  lemma CountInSplit<T>(a: Entries<T>, b: Entries<T>, x: T)
    ensures CountIn(a + b, x) == CountIn(a, x) + CountIn(b, x)
  {
    ClientsSplit(a, b);
    CountSplit(Clients(a), Clients(b), x);
  }

  lemma CountOne<T>(e: Entry<T>, x: T)
    ensures CountIn([e], x) == Count([e.client], x)
  {
    assert [e][..0] == [];
    assert Clients([e]) == Clients([]) + [e.client] == [e.client];
  }

  lemma CountInWithout<T>(entries: Entries<T>, i: nat, x: T)
    requires i < |entries|
    ensures CountIn(entries, x) == CountIn(Without(entries, i), x) + Count([entries[i].client], x)
  {
    assert entries == entries[..i] + ([entries[i]] + entries[i + 1..]);
    CountInSplit(entries[..i], [entries[i]] + entries[i + 1..], x);
    CountInSplit([entries[i]], entries[i + 1..], x);
    CountInSplit(entries[..i], entries[i + 1..], x);
    CountOne(entries[i], x);
  }

  /** One call keeps the balance: what comes in equals what stays and what leaves. */
  lemma LookupBalances<T>(entries: Entries<T>, version: string, key: Key, x: T)
    ensures var effect := Looked(entries, version, key);
            CountIn(entries, x) == CountIn(effect.entries, x) + Count(effect.evicted, x) && effect.overwritten == []
  {
    var i := Find(entries, key);
    if i < |entries| {
      CountInWithout(entries, i, x);
      CountInSplit(Without(entries, i), [entries[i]], x);
      CountOne(entries[i], x);
    }
  }

  lemma AddBalances<T>(size: nat, entries: Entries<T>, version: string, key: Key, client: T, x: T)
    ensures var effect := Added(size, entries, version, key, client);
            CountIn(entries, x) + Count([client], x) == CountIn(effect.entries, x) + Count(effect.evicted, x) + Count(effect.overwritten, x)
  {
    var i := Find(entries, key);
    var entry := Entry(key, version, client);
    CountOne(entry, x);
    if i < |entries| {
      CountInWithout(entries, i, x);
      CountInSplit(Without(entries, i), [entry], x);
    } else {
      CountInSplit(entries, [entry], x);
      if entries != [] {
        CountInWithout(entries, 0, x);
        assert Without(entries, 0) == entries[1..];
        CountInSplit(entries[1..], [entry], x);
      }
    }
  }

  /**
   Over every sequence of calls, each client is as often added as it is in the cache, was evicted, and
   was overwritten, together.
   */
  lemma {:induction false} LedgerBalances<T>(size: nat, calls: seq<Call<T>>, x: T)
    ensures var ledger := AfterCalls(size, calls);
            Count(ledger.added, x) == CountIn(ledger.entries, x) + Count(ledger.evicted, x) + Count(ledger.overwritten, x)
  {
    if calls != [] {
      var ledger, call := AfterCalls(size, calls[..|calls| - 1]), calls[|calls| - 1];
      LedgerBalances(size, calls[..|calls| - 1], x);
      match call
      case Get(version, key) =>
        var effect := Looked(ledger.entries, version, key);
        LookupBalances(ledger.entries, version, key, x);
        CountSplit(ledger.evicted, effect.evicted, x);
        assert ledger.added + [] == ledger.added && ledger.overwritten + [] == ledger.overwritten;
      case Add(version, key, client) =>
        var effect := Added(size, ledger.entries, version, key, client);
        AddBalances(size, ledger.entries, version, key, client, x);
        CountSplit(ledger.added, [client], x);
        CountSplit(ledger.evicted, effect.evicted, x);
        CountSplit(ledger.overwritten, effect.overwritten, x);
    }
  }

  /** The last call was a `Get` of the key, and it missed. */
  ghost predicate JustMissed<T>(size: nat, calls: seq<Call<T>>, key: Key) {
    && calls != []
    && match calls[|calls| - 1]
       case Get(version, k) => k == key && Looked(AfterCalls(size, calls[..|calls| - 1]).entries, version, key).answer.None?
       case Add(_, _, _) => false
  }

  /** Every `Add` of the list comes right after a `Get` of its key that missed. */
  ghost predicate MissBeforeAdd<T>(size: nat, calls: seq<Call<T>>) {
    calls == [] ||
    var front, last := calls[..|calls| - 1], calls[|calls| - 1];
    MissBeforeAdd(size, front) && (last.Add? ==> JustMissed(size, front, last.key))
  }

  lemma {:induction false} EntriesStayDistinct<T>(size: nat, calls: seq<Call<T>>)
    requires size > 0
    ensures Distinct(AfterCalls(size, calls).entries) && |AfterCalls(size, calls).entries| <= size
  {
    if calls != [] {
      EntriesStayDistinct(size, calls[..|calls| - 1]);
      var entries := AfterCalls(size, calls[..|calls| - 1]).entries;
      match calls[|calls| - 1]
      case Get(version, key) => LookupKeepsValid(size, entries, version, key);
      case Add(version, key, client) => AddKeepsValid(size, entries, version, key, client);
    }
  }

  /** After a miss the key is not resident, whatever version was there. */
  lemma MissMeansAbsent<T>(entries: Entries<T>, version: string, key: Key)
    requires Distinct(entries) && Looked(entries, version, key).answer.None?
    ensures !Resident(Looked(entries, version, key).entries, key)
  {
    var i := Find(entries, key);
    if i < |entries| {
      NotResidentWithout(entries, i);
    }
  }

  /** A client is overwritten exactly by an `Add` of a resident key. */
  lemma OverwritesIffResident<T>(size: nat, entries: Entries<T>, version: string, key: Key, client: T)
    ensures Added(size, entries, version, key, client).overwritten != [] <==> Resident(entries, key)
  {
  }

  /** Call `i` adds no key that is resident after the calls before it. */
  ghost predicate AddsAbsentKey<T>(size: nat, calls: seq<Call<T>>, i: nat)
    requires i < |calls|
  {
    calls[i].Add? ==> !Resident(AfterCalls(size, calls[..i]).entries, calls[i].key)
  }

  ghost predicate AddsAbsentKeysOnly<T>(size: nat, calls: seq<Call<T>>) {
    forall i :: 0 <= i < |calls| ==> AddsAbsentKey(size, calls, i)
  }

  lemma AddsAbsentKeyInFront<T>(size: nat, calls: seq<Call<T>>, i: nat)
    requires i < |calls| - 1
    ensures AddsAbsentKey(size, Front(calls), i) <==> AddsAbsentKey(size, calls, i)
  {
    assert Front(calls)[..i] == calls[..i];
  }

  lemma AddsAbsentKeysSplit<T>(size: nat, calls: seq<Call<T>>)
    requires calls != []
    ensures AddsAbsentKeysOnly(size, calls) <==> AddsAbsentKeysOnly(size, Front(calls)) && AddsAbsentKey(size, calls, |calls| - 1)
  {
    forall i | 0 <= i < |calls| - 1
      ensures AddsAbsentKey(size, Front(calls), i) <==> AddsAbsentKey(size, calls, i)
    {
      AddsAbsentKeyInFront(size, calls, i);
    }
  }

  /** Over every sequence of calls, nothing is overwritten exactly if no call adds a key that is resident. */
  lemma {:induction false} NothingOverwrittenIff<T>(size: nat, calls: seq<Call<T>>)
    ensures AfterCalls(size, calls).overwritten == [] <==> AddsAbsentKeysOnly(size, calls)
  {
    if calls != [] {
      var front, last := Front(calls), Last(calls);
      NothingOverwrittenIff(size, front);
      AddsAbsentKeysSplit(size, calls);
      if last.Add? {
        OverwritesIffResident(size, AfterCalls(size, front).entries, last.version, last.key, last.client);
      }
    }
  }

  /** Each time a client was added, it is in the cache or was handed to the cleanup, exactly once. */
  ghost predicate NoneLeaked<T(!new)>(ledger: Ledger<T>) {
    forall x :: Count(ledger.added, x) == CountIn(ledger.entries, x) + Count(ledger.evicted, x)
  }

  /** Over every sequence of calls, no client leaks exactly if no call adds a key that is resident. */
  lemma {:induction false} NoneLeakedIff<T(!new)>(size: nat, calls: seq<Call<T>>)
    ensures NoneLeaked(AfterCalls(size, calls)) <==> AddsAbsentKeysOnly(size, calls)
  {
    var ledger := AfterCalls(size, calls);
    forall x
      ensures Count(ledger.added, x) == CountIn(ledger.entries, x) + Count(ledger.evicted, x) + Count(ledger.overwritten, x)
    {
      LedgerBalances(size, calls, x);
    }
    NothingOverwrittenIff(size, calls);
    if ledger.overwritten != [] {
      assert Count(ledger.overwritten, Last(ledger.overwritten)) > 0;
    }
  }

  /** If every `Add` follows a miss of its key, no client leaks. */
  lemma {:induction false} NoClientLeaks<T(!new)>(size: nat, calls: seq<Call<T>>)
    requires size > 0 && MissBeforeAdd(size, calls)
    ensures AddsAbsentKeysOnly(size, calls) && NoneLeaked(AfterCalls(size, calls))
  {
    MissesLeaveKeysAbsent(size, calls);
    NoneLeakedIff(size, calls);
  }

  lemma {:induction false} MissesLeaveKeysAbsent<T>(size: nat, calls: seq<Call<T>>)
    requires size > 0 && MissBeforeAdd(size, calls)
    ensures AddsAbsentKeysOnly(size, calls)
  {
    if calls != [] {
      MissesLeaveKeysAbsent(size, Front(calls));
      if Last(calls).Add? {
        AbsentAfterMiss(size, Front(calls), Last(calls).key);
      }
      AddsAbsentKeysSplit(size, calls);
    }
  }

  /** Two `Add`s of one key: the first client is gone, and no cleanup saw it. */
  lemma {:induction false} TwoAddsLeak<T>(size: nat, key: Key, version: string, first: T, second: T)
    requires size > 0
    ensures AfterCalls(size, [Add(version, key, first), Add(version, key, second)])
         == Ledger([Entry(key, version, second)], [first, second], [], [first])
  {
    var one, two := [Add(version, key, first)], [Add(version, key, first), Add(version, key, second)];
    FirstAdd(size, key, version, first);
    SecondAdd(size, key, version, first, second);
    AfterOneMore(size, one, two[1]);
    assert two == one + [two[1]];
  }

  lemma {:induction false} FirstAdd<T>(size: nat, key: Key, version: string, client: T)
    requires size > 0
    ensures AfterCalls(size, [Add(version, key, client)]) == Ledger([Entry(key, version, client)], [client], [], [])
  {
    AfterOneMore(size, [], Add(version, key, client));
    assert [] + [Add(version, key, client)] == [Add(version, key, client)];
  }

  lemma SecondAdd<T>(size: nat, key: Key, version: string, first: T, second: T)
    requires size > 0
    ensures AfterCall(size, Ledger([Entry(key, version, first)], [first], [], []), Add(version, key, second))
         == Ledger([Entry(key, version, second)], [first, second], [], [first])
  {
    assert Find([Entry(key, version, first)], key) == 0;
  }

  lemma {:induction false} AfterOneMore<T>(size: nat, calls: seq<Call<T>>, call: Call<T>)
    ensures AfterCalls(size, calls + [call]) == AfterCall(size, AfterCalls(size, calls), call)
  {
    assert (calls + [call])[..|calls|] == calls;
  }

  lemma {:induction false} AbsentAfterMiss<T>(size: nat, calls: seq<Call<T>>, key: Key)
    requires size > 0 && JustMissed(size, calls, key)
    ensures !Resident(AfterCalls(size, calls).entries, key)
  {
    var front := calls[..|calls| - 1];
    EntriesStayDistinct(size, front);
    MissMeansAbsent(AfterCalls(size, front).entries, calls[|calls| - 1].version, key);
  }

  // ---------------------------------------------------------------- what is answered

  /** The version and the client of the last `Add` of a key. */
  function LastAdded<T>(calls: seq<Call<T>>, key: Key): Option<(string, T)> {
    if calls == [] then None
    else if Last(calls).Add? && Last(calls).key == key then Some((Last(calls).version, Last(calls).client))
    else LastAdded(Front(calls), key)
  }

  ghost predicate HoldsLastAdded<T>(calls: seq<Call<T>>, entries: Entries<T>) {
    forall e :: e in entries ==> LastAdded(calls, e.key) == Some((e.version, e.client))
  }

  lemma LookupKeepsEntries<T>(entries: Entries<T>, version: string, key: Key, e: Entry<T>)
    requires e in Looked(entries, version, key).entries
    ensures e in entries
  {
  }

  lemma AddKeepsOtherEntries<T>(size: nat, entries: Entries<T>, version: string, key: Key, client: T, e: Entry<T>)
    requires Distinct(entries) && e in Added(size, entries, version, key, client).entries
    ensures e == Entry(key, version, client) || (e in entries && e.key != key)
  {
    var i := Find(entries, key);
    if i < |entries| {
      NotResidentWithout(entries, i);
      if e in Without(entries, i) {
        var j :| 0 <= j < |Without(entries, i)| && Without(entries, i)[j] == e;
      }
    }
  }

  /** What is resident is what was added last under its key. */
  lemma {:induction false} ResidentIsLastAdded<T>(size: nat, calls: seq<Call<T>>)
    requires size > 0
    ensures HoldsLastAdded(calls, AfterCalls(size, calls).entries)
  {
    if calls != [] {
      var front, call := Front(calls), Last(calls);
      var entries := AfterCalls(size, front).entries;
      ResidentIsLastAdded(size, front);
      EntriesStayDistinct(size, front);
      forall e | e in AfterCalls(size, calls).entries
        ensures LastAdded(calls, e.key) == Some((e.version, e.client))
      {
        match call
        case Get(version, key) => LookupKeepsEntries(entries, version, key, e);
        case Add(version, key, client) => AddKeepsOtherEntries(size, entries, version, key, client, e);
      }
    }
  }

  /**
   After any calls, a `Get` answers a client exactly if its key is resident and the last `Add` of the
   key was of this client in the version asked for.
   */
  lemma {:induction false} AnswersIff<T>(size: nat, calls: seq<Call<T>>, version: string, key: Key, client: T)
    requires size > 0
    ensures var entries := AfterCalls(size, calls).entries;
            Looked(entries, version, key).answer == Some(client) <==>
              Resident(entries, key) && LastAdded(calls, key) == Some((version, client))
  {
    ResidentIsLastAdded(size, calls);
    var entries := AfterCalls(size, calls).entries;
    var i := Find(entries, key);
    if i < |entries| {
      assert entries[i] in entries;
    }
  }

  /**
   A key leaves the cache exactly when it is asked for in another version, or when it is the stalest of a
   full cache and a key that is not resident is added.
   */
  lemma {:induction false} EvictsIff<T>(size: nat, calls: seq<Call<T>>, call: Call<T>)
    requires size > 0
    ensures var entries := AfterCalls(size, calls).entries;
            AfterCall(size, AfterCalls(size, calls), call).evicted != AfterCalls(size, calls).evicted <==>
              match call
              case Get(version, key) => Resident(entries, key) && LastAdded(calls, key).Some? && LastAdded(calls, key).value.0 != version
              case Add(_, key, _) => !Resident(entries, key) && |entries| == size
  {
    ResidentIsLastAdded(size, calls);
    EntriesStayDistinct(size, calls);
    var entries := AfterCalls(size, calls).entries;
    var i := Find(entries, call.key);
    if i < |entries| {
      assert entries[i] in entries;
    }
  }

  // ---------------------------------------------------------------- who is evicted

  /** The last call about a key, or -1. */
  function LastUse<T>(calls: seq<Call<T>>, key: Key): int {
    if calls == [] then -1
    else if calls[|calls| - 1].key == key then |calls| - 1
    else LastUse(calls[..|calls| - 1], key)
  }

  ghost predicate InOrderOfUse<T>(calls: seq<Call<T>>, entries: Entries<T>) {
    forall i, j :: 0 <= i < j < |entries| ==> LastUse(calls, entries[i].key) < LastUse(calls, entries[j].key)
  }

  lemma {:induction false} LastUseBound<T>(calls: seq<Call<T>>, key: Key)
    ensures LastUse(calls, key) < |calls|
  {
    if calls != [] {
      LastUseBound(calls[..|calls| - 1], key);
    }
  }

  lemma {:induction false} OrderWithoutUsed<T>(calls: seq<Call<T>>, call: Call<T>, entries: Entries<T>)
    requires InOrderOfUse(calls, entries) && !Resident(entries, call.key)
    ensures InOrderOfUse(calls + [call], entries)
    ensures forall i :: 0 <= i < |entries| ==> LastUse(calls + [call], entries[i].key) < |calls|
  {
    assert (calls + [call])[..|calls|] == calls;
    forall i | 0 <= i < |entries|
      ensures LastUse(calls + [call], entries[i].key) == LastUse(calls, entries[i].key) < |calls|
    {
      LastUseBound(calls, entries[i].key);
    }
  }

  lemma OrderWithUsed<T>(calls: seq<Call<T>>, call: Call<T>, entries: Entries<T>, e: Entry<T>)
    requires InOrderOfUse(calls, entries) && !Resident(entries, call.key) && e.key == call.key
    ensures InOrderOfUse(calls + [call], entries + [e])
  {
    OrderWithoutUsed(calls, call, entries);
    assert LastUse(calls + [call], e.key) == |calls|;
  }

  lemma OrderAfterRemoval<T>(calls: seq<Call<T>>, entries: Entries<T>, i: nat)
    requires InOrderOfUse(calls, entries) && i < |entries|
    ensures InOrderOfUse(calls, Without(entries, i))
  {
    var rest := Without(entries, i);
    assert forall j :: 0 <= j < |rest| ==> rest[j] == entries[if j < i then j else j + 1];
  }

  /** The entries are kept in the order of their last use, so what a full cache evicts was used longest ago. */
  lemma {:induction false} StalestFirst<T>(size: nat, calls: seq<Call<T>>)
    requires size > 0
    ensures InOrderOfUse(calls, AfterCalls(size, calls).entries)
  {
    if calls != [] {
      var front, call := calls[..|calls| - 1], calls[|calls| - 1];
      var entries := AfterCalls(size, front).entries;
      StalestFirst(size, front);
      EntriesStayDistinct(size, front);
      assert calls == front + [call];
      var i := Find(entries, call.key);
      if i < |entries| {
        NotResidentWithout(entries, i);
        OrderAfterRemoval(front, entries, i);
        UseOne(size, front, call, Without(entries, i), AfterCalls(size, calls).entries);
      } else if call.Add? && |entries| >= size {
        OrderAfterRemoval(front, entries, 0);
        assert Without(entries, 0) == entries[1..];
        UseOne(size, front, call, entries[1..], AfterCalls(size, calls).entries);
      } else {
        UseOne(size, front, call, entries, AfterCalls(size, calls).entries);
      }
    }
  }

  lemma UseOne<T>(size: nat, calls: seq<Call<T>>, call: Call<T>, others: Entries<T>, entries: Entries<T>)
    requires InOrderOfUse(calls, others) && !Resident(others, call.key)
    requires entries == others || (|entries| == |others| + 1 && entries == others + [entries[|others|]] && entries[|others|].key == call.key)
    ensures InOrderOfUse(calls + [call], entries)
  {
    if entries == others {
      OrderWithoutUsed(calls, call, others);
    } else {
      OrderWithUsed(calls, call, others, entries[|others|]);
    }
  }
}
