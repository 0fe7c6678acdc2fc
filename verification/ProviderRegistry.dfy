/**
 The two provider registries: `builder` and `maintenance`, each under its own lock. Registering
 writes both, validating a store reads both, and nothing holds the two locks together.
 */
module ProviderRegistry {
  import opened Wrappers

  datatype MaintenanceStatus = Maintained | NotMaintained | Deprecated | OtherStatus(text: string)

  /** Providers are opaque to the registry. */
  type Provider = nat

  /** A store: its name, the backends its spec configures, and the namespace regexes of its conditions. */
  datatype Store = Store(name: string, backends: set<string>, conditions: seq<seq<string>>)

  datatype Warning = Unmaintained(name: string) | WillStopWorking(name: string) | FromProvider(text: string)

  datatype StoreError =
    | BadRegexes(positions: seq<(nat, nat)>)
    | NoSingleBackend
    | NotRegistered(backend: string)
    | NoStatus(backend: string)
    | Rejected(text: string)

  /** How a provider's own validation answers. */
  type Validation = (Provider, Store) -> (seq<Warning>, Option<string>)

  ghost predicate BadRegexAt(compiles: string -> bool, conditions: seq<seq<string>>, ci: nat, ri: nat) {
    ci < |conditions| && ri < |conditions[ci]| && !compiles(conditions[ci][ri])
  }

  /** Position `p` comes before condition `ci`, or in it before regex `ri`. */
  predicate Before(p: (nat, nat), ci: nat, ri: nat) {
    p.0 < ci || (p.0 == ci && p.1 < ri)
  }

  /** Each position once, in the order of the conditions and of the regexes in each. */
  ghost predicate InOrder(positions: seq<(nat, nat)>) {
    forall i, j :: 0 <= i < j < |positions| ==> Before(positions[i], positions[j].0, positions[j].1)
  }

  function WithStatus(warnings: seq<Warning>, status: MaintenanceStatus, name: string): seq<Warning> {
    match status
    case NotMaintained => warnings + [Unmaintained(name)]
    case Deprecated => warnings + [WillStopWorking(name)]
    case Maintained => warnings
    case OtherStatus(_) => warnings
  }

  function Verdict(rejection: Option<string>): Option<StoreError> {
    if rejection.Some? then Some(Rejected(rejection.value)) else None
  }

  /** The one backend that is configured, if there is one. */
  ghost function NameOf(backends: set<string>): Option<string> {
    if |backends| == 1 then var name :| name in backends; Some(name) else None
  }

  lemma NameIsOnly(backends: set<string>, name: string)
    requires backends == {name}
    ensures NameOf(backends) == Some(name)
  {
    assert forall n :: n in backends ==> n == name;
  }

  /**
   What registering does to the two registries: both entries, or a panic. The status is written first,
   so a name with a provider and no status panics with the status written.
   */
  ghost predicate Registers(name: Option<string>, provider: Provider, status: MaintenanceStatus,
                            builder: map<string, Provider>, maintenance: map<string, MaintenanceStatus>,
                            builder': map<string, Provider>, maintenance': map<string, MaintenanceStatus>, returned: bool) {
    && (returned <==> name.Some? && name.value !in maintenance && name.value !in builder)
    && builder' == (if returned then builder[name.value := provider] else builder)
    && maintenance' == if name.Some? && name.value !in maintenance then maintenance[name.value := status] else maintenance
  }

  ghost predicate ForceRegisters(name: Option<string>, provider: Provider, status: MaintenanceStatus,
                                 builder: map<string, Provider>, maintenance: map<string, MaintenanceStatus>,
                                 builder': map<string, Provider>, maintenance': map<string, MaintenanceStatus>, returned: bool) {
    && (returned <==> name.Some?)
    && builder' == (if name.Some? then builder[name.value := provider] else builder)
    && maintenance' == if name.Some? then maintenance[name.value := status] else maintenance
  }

  /** What a panic looks like to the caller: a value instead. */
  datatype Outcome = Returned | Panicked

  /** The package-level state, when one goroutine uses it at a time. */
  class Registry {
    var builder: map<string, Provider>
    var maintenance: map<string, MaintenanceStatus>

    constructor ()
      ensures builder == map[] && maintenance == map[]
    {
      builder, maintenance := map[], map[];
    }

    /** `getProviderName`: exactly one backend must be configured. */
    static method GetProviderName(backends: set<string>) returns (r: Option<string>)
      ensures r.Some? <==> |backends| == 1
      ensures r.Some? ==> backends == {r.value}
      ensures r == NameOf(backends)
    {
      if |backends| != 1 {
        return None;
      }
      var k :| k in backends;
      assert |backends - {k}| == 0;
      NameIsOnly(backends, k);
      r := Some(k);
    }

    method RegisterMaintenanceStatus(status: MaintenanceStatus, backends: set<string>) returns (outcome: Outcome)
      modifies this`maintenance
      ensures outcome.Returned? <==> |backends| == 1 && backends !! old(maintenance).Keys
      ensures outcome.Panicked? ==> maintenance == old(maintenance)
      ensures outcome.Returned? ==> forall name :: backends == {name} ==> maintenance == old(maintenance)[name := status]
    {
      var name := GetProviderName(backends);
      if name.None? {
        return Panicked;
      }
      if name.value in maintenance {
        assert name.value in backends;
        return Panicked;
      }
      maintenance := maintenance[name.value := status];
      outcome := Returned;
    }

    /** The status is written first; a panic at the second check would leave it behind. */
    method Register(provider: Provider, backends: set<string>, status: MaintenanceStatus) returns (outcome: Outcome)
      modifies this
      ensures outcome.Returned? <==> |backends| == 1 && backends !! old(maintenance).Keys && backends !! old(builder).Keys
      ensures outcome.Panicked? ==> builder == old(builder)
      ensures outcome.Returned? ==> forall name :: backends == {name} ==>
                builder == old(builder)[name := provider] && maintenance == old(maintenance)[name := status]
      ensures Registers(NameOf(backends), provider, status, old(builder), old(maintenance), builder, maintenance, outcome.Returned?)
      ensures old(builder.Keys <= maintenance.Keys) ==> builder.Keys <= maintenance.Keys && (outcome.Panicked? ==> maintenance == old(maintenance))
    {
      var name := GetProviderName(backends);
      if name.None? {
        return Panicked;
      }
      assert name.value in backends;
      var first := RegisterMaintenanceStatus(status, backends);
      if first.Panicked? {
        return Panicked;
      }
      if name.value in builder {
        return Panicked;
      }
      builder := builder[name.value := provider];
      outcome := Returned;
    }

    method ForceRegister(provider: Provider, backends: set<string>, status: MaintenanceStatus) returns (outcome: Outcome)
      modifies this
      ensures ForceRegisters(NameOf(backends), provider, status, old(builder), old(maintenance), builder, maintenance, outcome.Returned?)
      ensures outcome.Returned? <==> |backends| == 1
      ensures outcome.Panicked? ==> builder == old(builder) && maintenance == old(maintenance)
      ensures outcome.Returned? ==> forall name :: backends == {name} ==>
                builder == old(builder)[name := provider] && maintenance == old(maintenance)[name := status]
    {
      var name := GetProviderName(backends);
      if name.None? {
        return Panicked;
      }
      builder := builder[name.value := provider];
      maintenance := maintenance[name.value := status];
      outcome := Returned;
    }

    /** No store, no provider, and no error either. */
    method GetProvider(store: Option<Store>) returns (r: Result<Option<Provider>, StoreError>)
      ensures store.None? ==> r == Success(None)
      ensures store.Some? ==> (r.Success? <==> exists name :: store.value.backends == {name} && name in builder)
      ensures store.Some? && r.Success? ==> forall name :: store.value.backends == {name} ==> r.value == Some(builder[name])
      ensures r.Failure? ==>
                if |store.value.backends| != 1 then r.error == NoSingleBackend
                else r.error.NotRegistered? && store.value.backends == {r.error.backend}
    {
      if store.None? {
        return Success(None);
      }
      var backends := store.value.backends;
      var name := GetProviderName(backends);
      if name.None? {
        return Failure(NoSingleBackend);
      }
      assert forall n :: backends == {n} ==> n in {name.value};
      if name.value !in builder {
        return Failure(NotRegistered(name.value));
      }
      r := Success(Some(builder[name.value]));
    }

    method GetMaintenanceStatus(store: Option<Store>) returns (r: Result<MaintenanceStatus, StoreError>)
      ensures store.None? ==> r == Success(NotMaintained)
      ensures store.Some? ==> (r.Success? <==> exists name :: store.value.backends == {name} && name in maintenance)
      ensures store.Some? && r.Success? ==> forall name :: store.value.backends == {name} ==> r.value == maintenance[name]
      ensures r.Failure? ==>
                if |store.value.backends| != 1 then r.error == NoSingleBackend
                else r.error.NoStatus? && store.value.backends == {r.error.backend}
    {
      if store.None? {
        return Success(NotMaintained);
      }
      var backends := store.value.backends;
      var name := GetProviderName(backends);
      if name.None? {
        return Failure(NoSingleBackend);
      }
      assert forall n :: backends == {n} ==> n in {name.value};
      if name.value !in maintenance {
        return Failure(NoStatus(name.value));
      }
      r := Success(maintenance[name.value]);
    }

    /** `validateConditions`: every namespace regex that does not compile is reported, in order. */
    static method ValidateConditions(compiles: string -> bool, conditions: seq<seq<string>>) returns (errs: seq<(nat, nat)>)
      ensures forall ci: nat, ri: nat :: (ci, ri) in errs <==> BadRegexAt(compiles, conditions, ci, ri)
      ensures InOrder(errs)
    {
      errs := [];
      for ci := 0 to |conditions|
        invariant forall c: nat, r: nat :: (c, r) in errs <==> BadRegexAt(compiles, conditions, c, r) && Before((c, r), ci, 0)
        invariant InOrder(errs)
      {
        for ri := 0 to |conditions[ci]|
          invariant forall c: nat, r: nat :: (c, r) in errs <==> BadRegexAt(compiles, conditions, c, r) && Before((c, r), ci, ri)
          invariant InOrder(errs)
        {
          if !compiles(conditions[ci][ri]) {
            errs := errs + [(ci, ri)];
          }
        }
      }
    }

    /**
     `validateStore`. With the status present for every registered provider, it never fails for want
     of a status.
     */
    method ValidateStore(compiles: string -> bool, validate: Validation, store: Store)
      returns (warnings: seq<Warning>, err: Option<StoreError>)
      ensures (exists ci: nat, ri: nat :: BadRegexAt(compiles, store.conditions, ci, ri)) <==> err.Some? && err.value.BadRegexes?
      ensures err.Some? && err.value.BadRegexes? ==>
                && (forall ci: nat, ri: nat :: (ci, ri) in err.value.positions <==> BadRegexAt(compiles, store.conditions, ci, ri))
                && InOrder(err.value.positions)
      ensures builder.Keys <= maintenance.Keys ==> !(err.Some? && err.value.NoStatus?)
      ensures err.None? || err.value.Rejected? ==> exists name :: store.backends == {name} && name in builder && name in maintenance
      ensures err.None? || err.value.Rejected? ==> forall name :: store.backends == {name} ==>
                && warnings == WithStatus(validate(builder[name], store).0, maintenance[name], store.name)
                && err == Verdict(validate(builder[name], store).1)
      ensures err.Some? && err.value.NoSingleBackend? ==> |store.backends| != 1
      ensures err.Some? && err.value.NotRegistered? ==> store.backends == {err.value.backend} && err.value.backend !in builder
      ensures err.Some? && err.value.NoStatus? ==> store.backends == {err.value.backend} && err.value.backend !in maintenance
      ensures err.Some? && !err.value.Rejected? ==> warnings == []
    {
      var bad := ValidateConditions(compiles, store.conditions);
      if bad != [] {
        assert bad[0] in bad;
        assert BadRegexAt(compiles, store.conditions, bad[0].0, bad[0].1);
        return [], Some(BadRegexes(bad));
      }
      var provider := GetProvider(Some(store));
      if provider.Failure? {
        return [], Some(provider.error);
      }
      var status := GetMaintenanceStatus(Some(store));
      if status.Failure? {
        return [], Some(status.error);
      }
      var (warns, rejection) := validate(provider.value.value, store);
      match status.value {
        case NotMaintained => warnings := warns + [Unmaintained(store.name)];
        case Deprecated => warnings := warns + [WillStopWorking(store.name)];
        case Maintained => warnings := warns;
        case OtherStatus(_) => warnings := warns;
      }
      err := if rejection.Some? then Some(Rejected(rejection.value)) else None;
    }
  }
}
