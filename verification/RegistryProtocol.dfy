/**
 Any number of `Register`, `ForceRegister` and `validateStore` calls at once. A step is what one call
 does under one of the two locks.
 */
module RegistryProtocol {
  import opened Wrappers
  import opened ProviderRegistry

  /** A call, with the backend name its spec yields, if it yields one. */
  datatype Call =
    | Register(name: Option<string>, provider: Provider, status: MaintenanceStatus)
    | ForceRegister(name: Option<string>, provider: Provider, status: MaintenanceStatus)
    | Validate(name: Option<string>)

  /** Where a call is. `GotProvider` and `Answered` belong to `Validate`. */
  datatype Pc =
    | Ready
    | Halfway
    | Done
    | Aborted
    | GotProvider(provider: Provider)
    | Answered(provider: Provider, status: MaintenanceStatus)
    | ProviderMissing
    | StatusMissing

  datatype System = System(builder: map<string, Provider>, maintenance: map<string, MaintenanceStatus>, pc: map<nat, Pc>)

  function PcOf(sys: System, c: nat): Pc {
    if c in sys.pc then sys.pc[c] else Ready
  }

  function Goto(sys: System, c: nat, pc: Pc): System {
    sys.(pc := sys.pc[c := pc])
  }

  /** The next step of call `c`; a call that is over stays where it is. */
  function Step(calls: nat -> Call, sys: System, c: nat): System {
    match (calls(c), PcOf(sys, c))
    case (Register(None, _, _), Ready) => Goto(sys, c, Aborted)
    case (Register(Some(name), _, status), Ready) =>
      if name in sys.maintenance then Goto(sys, c, Aborted)
      else Goto(sys, c, Halfway).(maintenance := sys.maintenance[name := status])
    case (Register(Some(name), provider, _), Halfway) =>
      if name in sys.builder then Goto(sys, c, Aborted)
      else Goto(sys, c, Done).(builder := sys.builder[name := provider])
    case (ForceRegister(None, _, _), Ready) => Goto(sys, c, Aborted)
    case (ForceRegister(Some(name), provider, _), Ready) =>
      Goto(sys, c, Halfway).(builder := sys.builder[name := provider])
    case (ForceRegister(Some(name), _, status), Halfway) =>
      Goto(sys, c, Done).(maintenance := sys.maintenance[name := status])
    case (Validate(Some(name)), Ready) =>
      Goto(sys, c, if name in sys.builder then GotProvider(sys.builder[name]) else ProviderMissing)
    case (Validate(None), Ready) => Goto(sys, c, ProviderMissing)
    case (Validate(Some(name)), GotProvider(provider)) =>
      Goto(sys, c, if name in sys.maintenance then Answered(provider, sys.maintenance[name]) else StatusMissing)
    case _ => sys
  }

  const EMPTY: System := System(map[], map[], map[])

  /** The system after the calls in `schedule` each made one step, in this order. */
  function After(calls: nat -> Call, schedule: seq<nat>): System {
    if schedule == [] then EMPTY
    else Step(calls, After(calls, schedule[..|schedule| - 1]), schedule[|schedule| - 1])
  }

  // ---------------------------------------------------------------- a call alone

  /** Both steps of a call, one after the other. */
  function Alone(calls: nat -> Call, sys: System, c: nat): System {
    Step(calls, Step(calls, sys, c), c)
  }

  /** A registration with nobody else at work is the method `Register`. */
  lemma RegisterAlone(calls: nat -> Call, sys: System, c: nat)
    requires calls(c).Register? && PcOf(sys, c).Ready?
    ensures var end := Alone(calls, sys, c);
            && Registers(calls(c).name, calls(c).provider, calls(c).status, sys.builder, sys.maintenance, end.builder, end.maintenance, PcOf(end, c).Done?)
            && (PcOf(end, c).Done? || PcOf(end, c).Aborted?)
  {
  }

  /** A forced registration with nobody else at work is the method `ForceRegister`. */
  lemma ForceRegisterAlone(calls: nat -> Call, sys: System, c: nat)
    requires calls(c).ForceRegister? && PcOf(sys, c).Ready?
    ensures var end := Alone(calls, sys, c);
            && ForceRegisters(calls(c).name, calls(c).provider, calls(c).status, sys.builder, sys.maintenance, end.builder, end.maintenance, PcOf(end, c).Done?)
            && (PcOf(end, c).Done? || PcOf(end, c).Aborted?)
  {
  }

  /** What a validation reads first: in any run, it finds the provider exactly if the name is registered at that step. */
  lemma {:induction false} FirstReadIff(calls: nat -> Call, schedule: seq<nat>, c: nat)
    requires calls(c).Validate? && PcOf(After(calls, schedule), c).Ready?
    ensures var sys, end := After(calls, schedule), After(calls, schedule + [c]);
            && (PcOf(end, c).GotProvider? <==> calls(c).name.Some? && calls(c).name.value in sys.builder)
            && (PcOf(end, c).GotProvider? ==> PcOf(end, c).provider == sys.builder[calls(c).name.value])
            && (PcOf(end, c).GotProvider? || PcOf(end, c).ProviderMissing?)
            && end.builder == sys.builder && end.maintenance == sys.maintenance
  {
    assert (schedule + [c])[..|schedule|] == schedule;
  }

  /** What it reads then: it is answered exactly if the status is there at that step, with the provider it found before. */
  lemma {:induction false} SecondReadIff(calls: nat -> Call, schedule: seq<nat>, c: nat, name: string)
    requires calls(c) == Validate(Some(name)) && PcOf(After(calls, schedule), c).GotProvider?
    ensures var sys, end := After(calls, schedule), After(calls, schedule + [c]);
            && PcOf(end, c) == (if name in sys.maintenance then Answered(PcOf(sys, c).provider, sys.maintenance[name]) else StatusMissing)
            && end.builder == sys.builder && end.maintenance == sys.maintenance
  {
    assert (schedule + [c])[..|schedule|] == schedule;
  }

  // ---------------------------------------------------------------- any calls

  /** A `ForceRegister` of this name has written `builder` and not yet `maintenance`. */
  ghost predicate ForcePending(calls: nat -> Call, sys: System, name: string) {
    exists c: nat :: calls(c).ForceRegister? && calls(c).name == Some(name) && PcOf(sys, c).Halfway?
  }

  ghost predicate StatusOrPending(calls: nat -> Call, sys: System) {
    forall name :: name in sys.builder ==> name in sys.maintenance || ForcePending(calls, sys, name)
  }

  ghost predicate ReadersSawBuilder(calls: nat -> Call, sys: System) {
    forall c: nat :: PcOf(sys, c).GotProvider? ==> calls(c).Validate? && calls(c).name.Some? && calls(c).name.value in sys.builder
  }

  ghost predicate RegisteredFirst(calls: nat -> Call, sys: System) {
    forall c: nat :: PcOf(sys, c).Halfway? ==>
      && !calls(c).Validate? && calls(c).name.Some?
      && (calls(c).Register? ==> calls(c).name.value in sys.maintenance)
  }

  ghost predicate Inv(calls: nat -> Call, sys: System) {
    StatusOrPending(calls, sys) && ReadersSawBuilder(calls, sys) && RegisteredFirst(calls, sys)
  }

  lemma PendingStays(calls: nat -> Call, sys: System, c: nat, name: string)
    requires ForcePending(calls, sys, name)
    ensures ForcePending(calls, Step(calls, sys, c), name) || name in Step(calls, sys, c).maintenance
  {
    var d: nat :| calls(d).ForceRegister? && calls(d).name == Some(name) && PcOf(sys, d).Halfway?;
    if d != c {
      assert PcOf(Step(calls, sys, c), d).Halfway?;
    }
  }

  lemma StatusOrPendingStays(calls: nat -> Call, sys: System, c: nat)
    requires StatusOrPending(calls, sys) && RegisteredFirst(calls, sys)
    ensures StatusOrPending(calls, Step(calls, sys, c))
  {
    var sys' := Step(calls, sys, c);
    forall name | name in sys'.builder
      ensures name in sys'.maintenance || ForcePending(calls, sys', name)
    {
      if name in sys.builder {
        if name !in sys.maintenance {
          PendingStays(calls, sys, c, name);
        }
      } else if calls(c).ForceRegister? {
        assert PcOf(sys', c).Halfway?;
      }
    }
  }

  lemma ReadersStillSawBuilder(calls: nat -> Call, sys: System, c: nat)
    ensures ReadersSawBuilder(calls, sys) ==> ReadersSawBuilder(calls, Step(calls, sys, c))
  {
  }

  lemma RegisteredFirstStays(calls: nat -> Call, sys: System, c: nat)
    ensures RegisteredFirst(calls, sys) ==> RegisteredFirst(calls, Step(calls, sys, c))
  {
  }

  lemma StepKeepsInv(calls: nat -> Call, sys: System, c: nat)
    requires Inv(calls, sys)
    ensures Inv(calls, Step(calls, sys, c))
  {
    StatusOrPendingStays(calls, sys, c);
    ReadersStillSawBuilder(calls, sys, c);
    RegisteredFirstStays(calls, sys, c);
  }

  lemma {:induction false} RunKeepsInv(calls: nat -> Call, schedule: seq<nat>)
    ensures Inv(calls, After(calls, schedule))
  {
    if schedule != [] {
      RunKeepsInv(calls, schedule[..|schedule| - 1]);
      StepKeepsInv(calls, After(calls, schedule[..|schedule| - 1]), schedule[|schedule| - 1]);
    }
  }

  /**
   Over every interleaving of any calls, a validation that found its provider misses the status
   exactly while a `ForceRegister` of that name is between its two writes and no status is there.
   */
  lemma {:induction false} StatusMissingIff(calls: nat -> Call, schedule: seq<nat>, c: nat)
    requires PcOf(After(calls, schedule), c).GotProvider?
    ensures calls(c).Validate? && calls(c).name.Some?
    ensures PcOf(After(calls, schedule + [c]), c).StatusMissing? <==>
              calls(c).name.value !in After(calls, schedule).maintenance && ForcePending(calls, After(calls, schedule), calls(c).name.value)
  {
    RunKeepsInv(calls, schedule);
    assert (schedule + [c])[..|schedule|] == schedule;
  }

  // ---------------------------------------------------------------- without ForceRegister

  ghost predicate NoForce(calls: nat -> Call) {
    forall c: nat :: !calls(c).ForceRegister?
  }

  /** A registration that got past its first check. */
  ghost predicate Claims(calls: nat -> Call, sys: System, c: nat, name: string) {
    calls(c).Register? && calls(c).name == Some(name) && (PcOf(sys, c).Halfway? || PcOf(sys, c).Done?)
  }

  ghost predicate ClaimsAreUnique(calls: nat -> Call, sys: System) {
    forall c: nat, d: nat, name :: Claims(calls, sys, c, name) && Claims(calls, sys, d, name) ==> c == d
  }

  /** The entries of a name come from the one call that claims it: the status at once, the provider when it is done. */
  ghost predicate ClaimsOwnEntries(calls: nat -> Call, sys: System) {
    forall c: nat, name :: Claims(calls, sys, c, name) ==>
      && name in sys.maintenance && sys.maintenance[name] == calls(c).status
      && (PcOf(sys, c).Done? ==> name in sys.builder && sys.builder[name] == calls(c).provider)
      && (PcOf(sys, c).Halfway? ==> name !in sys.builder)
  }

  ghost predicate EntriesAreClaimed(calls: nat -> Call, sys: System) {
    && (forall name :: name in sys.maintenance ==> exists c: nat :: Claims(calls, sys, c, name))
    && (forall name :: name in sys.builder ==> exists c: nat :: Claims(calls, sys, c, name) && PcOf(sys, c).Done?)
  }

  /** What a validation has read is what is registered, and it never misses a status. */
  ghost predicate ReaderAgrees(calls: nat -> Call, sys: System, c: nat) {
    && !PcOf(sys, c).StatusMissing?
    && (PcOf(sys, c).GotProvider? || PcOf(sys, c).Answered? ==>
          && calls(c).Validate? && calls(c).name.Some?
          && calls(c).name.value in sys.builder && sys.builder[calls(c).name.value] == PcOf(sys, c).provider)
    && (PcOf(sys, c).Answered? ==>
          calls(c).name.value in sys.maintenance && sys.maintenance[calls(c).name.value] == PcOf(sys, c).status)
  }

  ghost predicate ReadersAgree(calls: nat -> Call, sys: System) {
    forall c: nat :: ReaderAgrees(calls, sys, c)
  }

  ghost predicate OnlyRegistrationsClaim(calls: nat -> Call, sys: System) {
    forall c: nat :: PcOf(sys, c).Halfway? || PcOf(sys, c).Done? ==> calls(c).Register? && calls(c).name.Some?
  }

  ghost predicate RegisterInv(calls: nat -> Call, sys: System) {
    && ClaimsAreUnique(calls, sys) && ClaimsOwnEntries(calls, sys) && EntriesAreClaimed(calls, sys)
    && ReadersAgree(calls, sys) && OnlyRegistrationsClaim(calls, sys)
  }

  /** A step of `c` moves `c` alone, and entries that are there stay as they are. */
  ghost predicate Grows(sys: System, sys': System, c: nat) {
    && (forall d: nat :: d != c ==> PcOf(sys', d) == PcOf(sys, d))
    && (forall name :: name in sys.builder ==> name in sys'.builder && sys'.builder[name] == sys.builder[name])
    && (forall name :: name in sys.maintenance ==> name in sys'.maintenance && sys'.maintenance[name] == sys.maintenance[name])
  }

  lemma ClaimsPersist(calls: nat -> Call, sys: System, sys': System, c: nat, d: nat, name: string)
    requires Grows(sys, sys', c) && Claims(calls, sys, d, name) && (d == c ==> Claims(calls, sys', c, name))
    ensures Claims(calls, sys', d, name)
  {
  }

  lemma ReadersPersist(calls: nat -> Call, sys: System, sys': System, c: nat)
    requires Grows(sys, sys', c) && ReadersAgree(calls, sys) && ReaderAgrees(calls, sys', c)
    ensures ReadersAgree(calls, sys')
  {
    forall d: nat
      ensures ReaderAgrees(calls, sys', d)
    {
      assert ReaderAgrees(calls, sys, d);
    }
  }

  lemma EntriesPersist(calls: nat -> Call, sys: System, sys': System, c: nat)
    requires Grows(sys, sys', c) && EntriesAreClaimed(calls, sys)
    requires forall name :: Claims(calls, sys, c, name) ==> Claims(calls, sys', c, name)
    requires PcOf(sys, c).Done? ==> PcOf(sys', c).Done?
    requires forall name :: name in sys'.maintenance && name !in sys.maintenance ==> Claims(calls, sys', c, name)
    requires forall name :: name in sys'.builder && name !in sys.builder ==> Claims(calls, sys', c, name) && PcOf(sys', c).Done?
    ensures EntriesAreClaimed(calls, sys')
  {
    forall name | name in sys'.maintenance
      ensures exists d: nat :: Claims(calls, sys', d, name)
    {
      if name in sys.maintenance {
        var d: nat :| Claims(calls, sys, d, name);
        ClaimsPersist(calls, sys, sys', c, d, name);
      } else {
        assert Claims(calls, sys', c, name);
      }
    }
    forall name | name in sys'.builder
      ensures exists d: nat :: Claims(calls, sys', d, name) && PcOf(sys', d).Done?
    {
      if name in sys.builder {
        var d: nat :| Claims(calls, sys, d, name) && PcOf(sys, d).Done?;
        ClaimsPersist(calls, sys, sys', c, d, name);
      } else {
        assert Claims(calls, sys', c, name);
      }
    }
  }

  /** A step after which `c` claims nothing, and which writes nothing. */
  lemma QuietStep(calls: nat -> Call, sys: System, c: nat, pc: Pc)
    requires RegisterInv(calls, sys) && !PcOf(sys, c).Halfway? && !PcOf(sys, c).Done? && !pc.Halfway? && !pc.Done?
    requires ReaderAgrees(calls, Goto(sys, c, pc), c)
    ensures RegisterInv(calls, Goto(sys, c, pc))
  {
    var sys' := Goto(sys, c, pc);
    assert forall d: nat, name :: Claims(calls, sys', d, name) ==> d != c && Claims(calls, sys, d, name);
    ReadersPersist(calls, sys, sys', c);
    EntriesPersist(calls, sys, sys', c);
  }

  function Claimed(calls: nat -> Call, sys: System, c: nat, name: string): System
    requires calls(c).Register?
  {
    Goto(sys, c, Halfway).(maintenance := sys.maintenance[name := calls(c).status])
  }

  function Completed(calls: nat -> Call, sys: System, c: nat, name: string): System
    requires calls(c).Register?
  {
    Goto(sys, c, Done).(builder := sys.builder[name := calls(c).provider])
  }

  /** Claiming a free name adds one claim, and no other call claims that name. */
  lemma ClaimsAfterClaim(calls: nat -> Call, sys: System, c: nat, name: string)
    requires ClaimsOwnEntries(calls, sys) && PcOf(sys, c).Ready? && calls(c).Register? && calls(c).name == Some(name)
    requires name !in sys.maintenance
    ensures Claims(calls, Claimed(calls, sys, c, name), c, name)
    ensures forall d: nat, n :: Claims(calls, Claimed(calls, sys, c, name), d, n) ==>
              (d == c && n == name) || (d != c && n != name && Claims(calls, sys, d, n) && PcOf(Claimed(calls, sys, c, name), d) == PcOf(sys, d))
  {
    forall d: nat, n | Claims(calls, Claimed(calls, sys, c, name), d, n) && d != c
      ensures n != name && Claims(calls, sys, d, n)
    {
      assert Claims(calls, sys, d, n);
    }
  }

  lemma ClaimKeepsOwn(calls: nat -> Call, sys: System, c: nat, name: string)
    requires ClaimsOwnEntries(calls, sys) && ClaimsAreUnique(calls, sys) && PcOf(sys, c).Ready?
    requires calls(c).Register? && calls(c).name == Some(name) && name !in sys.maintenance && name !in sys.builder
    ensures ClaimsOwnEntries(calls, Claimed(calls, sys, c, name)) && ClaimsAreUnique(calls, Claimed(calls, sys, c, name))
  {
    ClaimsAfterClaim(calls, sys, c, name);
  }

  /** The step that writes `maintenance`. */
  lemma ClaimName(calls: nat -> Call, sys: System, c: nat, name: string)
    requires RegisterInv(calls, sys) && PcOf(sys, c).Ready? && calls(c).Register? && calls(c).name == Some(name)
    requires name !in sys.maintenance
    ensures RegisterInv(calls, Claimed(calls, sys, c, name))
  {
    NotInBuilder(calls, sys, name);
    ClaimKeepsOwn(calls, sys, c, name);
    ReadersPersist(calls, sys, Claimed(calls, sys, c, name), c);
    EntriesPersist(calls, sys, Claimed(calls, sys, c, name), c);
  }

  lemma NotInBuilder(calls: nat -> Call, sys: System, name: string)
    requires RegisterInv(calls, sys) && name !in sys.maintenance
    ensures name !in sys.builder
  {
  }

  lemma ClaimsAfterCompletion(calls: nat -> Call, sys: System, c: nat, name: string)
    requires ClaimsAreUnique(calls, sys) && PcOf(sys, c).Halfway? && calls(c).Register? && calls(c).name == Some(name)
    ensures Claims(calls, sys, c, name)
    ensures forall d: nat, n :: Claims(calls, Completed(calls, sys, c, name), d, n) ==>
              Claims(calls, sys, d, n) && (d != c ==> n != name && PcOf(Completed(calls, sys, c, name), d) == PcOf(sys, d))
  {
    assert Claims(calls, sys, c, name);
    forall d: nat, n | Claims(calls, Completed(calls, sys, c, name), d, n)
      ensures Claims(calls, sys, d, n) && (d != c ==> n != name)
    {
      assert Claims(calls, sys, d, n);
    }
  }

  lemma CompletionKeepsOwn(calls: nat -> Call, sys: System, c: nat, name: string)
    requires ClaimsOwnEntries(calls, sys) && ClaimsAreUnique(calls, sys) && PcOf(sys, c).Halfway?
    requires calls(c).Register? && calls(c).name == Some(name)
    ensures name !in sys.builder
    ensures ClaimsOwnEntries(calls, Completed(calls, sys, c, name)) && ClaimsAreUnique(calls, Completed(calls, sys, c, name))
  {
    ClaimsAfterCompletion(calls, sys, c, name);
  }

  /** The step that writes `builder`. */
  lemma CompleteName(calls: nat -> Call, sys: System, c: nat, name: string)
    requires RegisterInv(calls, sys) && PcOf(sys, c).Halfway? && calls(c).Register? && calls(c).name == Some(name)
    ensures name !in sys.builder
    ensures RegisterInv(calls, Completed(calls, sys, c, name))
  {
    CompletionKeepsOwn(calls, sys, c, name);
    ReadersPersist(calls, sys, Completed(calls, sys, c, name), c);
    EntriesPersist(calls, sys, Completed(calls, sys, c, name), c);
  }

  lemma RegisterKeepsInv(calls: nat -> Call, sys: System, c: nat)
    requires NoForce(calls) && RegisterInv(calls, sys) && calls(c).Register?
    ensures RegisterInv(calls, Step(calls, sys, c))
    ensures PcOf(sys, c).Halfway? ==> PcOf(Step(calls, sys, c), c).Done?
  {
    if PcOf(sys, c).Ready? {
      if calls(c).name.Some? && calls(c).name.value !in sys.maintenance {
        ClaimName(calls, sys, c, calls(c).name.value);
      } else {
        QuietStep(calls, sys, c, Aborted);
      }
    } else if PcOf(sys, c).Halfway? {
      CompleteName(calls, sys, c, calls(c).name.value);
    }
  }

  /** A registered name has its status, so a validation that found its provider is answered. */
  lemma ReadKeepsInv(calls: nat -> Call, sys: System, c: nat)
    requires NoForce(calls) && RegisterInv(calls, sys) && calls(c).Validate?
    ensures RegisterInv(calls, Step(calls, sys, c))
  {
    if PcOf(sys, c).Ready? {
      var pc := if calls(c).name.Some? && calls(c).name.value in sys.builder then GotProvider(sys.builder[calls(c).name.value]) else ProviderMissing;
      QuietStep(calls, sys, c, pc);
    } else if PcOf(sys, c).GotProvider? {
      assert ReaderAgrees(calls, sys, c);
      var name := calls(c).name.value;
      var d: nat :| Claims(calls, sys, d, name) && PcOf(sys, d).Done?;
      QuietStep(calls, sys, c, Answered(PcOf(sys, c).provider, sys.maintenance[name]));
    }
  }

  lemma {:induction false} RunKeepsRegisterInv(calls: nat -> Call, schedule: seq<nat>)
    requires NoForce(calls)
    ensures RegisterInv(calls, After(calls, schedule))
  {
    if schedule != [] {
      var front, c := schedule[..|schedule| - 1], schedule[|schedule| - 1];
      RunKeepsRegisterInv(calls, front);
      var sys := After(calls, front);
      if calls(c).Validate? {
        ReadKeepsInv(calls, sys, c);
      } else {
        RegisterKeepsInv(calls, sys, c);
      }
    }
  }

  /**
   In every interleaving of registrations and validations, duplicates included, each name in
   `builder` is in `maintenance`, and both entries come from the same call.
   */
  lemma EntriesComeFromOneCall(calls: nat -> Call, schedule: seq<nat>, name: string) returns (c: nat)
    requires NoForce(calls) && name in After(calls, schedule).builder
    ensures var sys := After(calls, schedule);
            name in sys.maintenance && calls(c) == Register(Some(name), sys.builder[name], sys.maintenance[name])
  {
    RunKeepsRegisterInv(calls, schedule);
    c :| Claims(calls, After(calls, schedule), c, name) && PcOf(After(calls, schedule), c).Done?;
  }

  /** A validation that finds its provider never fails for want of a status, and answers with what one call registered. */
  lemma {:induction false} ValidationFindsItsStatus(calls: nat -> Call, schedule: seq<nat>, c: nat)
    requires NoForce(calls)
    ensures !PcOf(After(calls, schedule), c).StatusMissing?
    ensures PcOf(After(calls, schedule), c).Answered? ==>
              exists d: nat :: calls(c).Validate? && calls(d) == Register(calls(c).name, PcOf(After(calls, schedule), c).provider, PcOf(After(calls, schedule), c).status)
  {
    RunKeepsRegisterInv(calls, schedule);
    assert ReaderAgrees(calls, After(calls, schedule), c);
    if PcOf(After(calls, schedule), c).Answered? {
      var d := EntriesComeFromOneCall(calls, schedule, calls(c).name.value);
    }
  }

  /** A registration that got past its first check is never stopped by the second one: it leaves no status behind. */
  lemma {:induction false} SecondCheckNeverPanics(calls: nat -> Call, schedule: seq<nat>, c: nat)
    requires NoForce(calls) && calls(c).Register? && PcOf(After(calls, schedule), c).Halfway?
    ensures PcOf(After(calls, schedule + [c]), c).Done?
  {
    RunKeepsRegisterInv(calls, schedule);
    assert (schedule + [c])[..|schedule|] == schedule;
    RegisterKeepsInv(calls, After(calls, schedule), c);
  }

  /** Of several registrations of one name at most one completes. */
  lemma {:induction false} OneRegistrationWins(calls: nat -> Call, schedule: seq<nat>, c: nat, d: nat)
    requires NoForce(calls) && calls(c).Register? && calls(d).Register? && calls(c).name == calls(d).name
    requires PcOf(After(calls, schedule), c).Done? && PcOf(After(calls, schedule), d).Done?
    ensures c == d
  {
    RunKeepsRegisterInv(calls, schedule);
    assert Claims(calls, After(calls, schedule), c, calls(c).name.value);
    assert Claims(calls, After(calls, schedule), d, calls(c).name.value);
  }

  /** `ForceRegister` writes in the other order: a validation between its two writes misses the status. */
  lemma ForceRegisterCanBeSeenHalfway(calls: nat -> Call, name: string)
    requires calls(0).ForceRegister? && calls(0).name == Some(name) && calls(1) == Validate(Some(name))
    ensures PcOf(After(calls, [0, 1, 1]), 1).StatusMissing?
  {
    assert [0, 1, 1][..2] == [0, 1] && [0, 1][..1] == [0] && [0][..0] == [];
    var s1 := After(calls, [0]);
    assert s1 == Step(calls, EMPTY, 0);
    var s2 := After(calls, [0, 1]);
    assert s2 == Step(calls, s1, 1);
    assert PcOf(s2, 1).GotProvider?;
  }

  // ---------------------------------------------------------------- what else ForceRegister breaks

  /** A `ForceRegister` of this name that has written `builder`. */
  ghost predicate Forced(calls: nat -> Call, sys: System, c: nat, name: string) {
    calls(c).ForceRegister? && calls(c).name == Some(name) && (PcOf(sys, c).Halfway? || PcOf(sys, c).Done?)
  }

  ghost predicate WritesShow(calls: nat -> Call, sys: System) {
    && (forall c: nat, name :: Claims(calls, sys, c, name) ==> name in sys.maintenance)
    && (forall c: nat, name :: Forced(calls, sys, c, name) ==> name in sys.builder)
  }

  ghost predicate ProvidersExplained(calls: nat -> Call, sys: System) {
    forall name :: name in sys.builder ==> exists c: nat :: WroteProvider(calls, sys, c, name)
  }

  ghost predicate WroteProvider(calls: nat -> Call, sys: System, c: nat, name: string) {
    Forced(calls, sys, c, name) || (Claims(calls, sys, c, name) && PcOf(sys, c).Done?)
  }

  /** A claim is older than the step, or the step made it on a name without a status. */
  lemma ClaimBeforeStep(calls: nat -> Call, sys: System, c: nat, d: nat, name: string)
    ensures Claims(calls, Step(calls, sys, c), d, name) ==> Claims(calls, sys, d, name) || (d == c && name !in sys.maintenance && name in Step(calls, sys, c).maintenance)
  {
  }

  lemma StatusesStay(calls: nat -> Call, sys: System, c: nat)
    ensures sys.maintenance.Keys <= Step(calls, sys, c).maintenance.Keys && sys.builder.Keys <= Step(calls, sys, c).builder.Keys
  {
  }

  lemma ForcedBeforeStep(calls: nat -> Call, sys: System, c: nat, d: nat, name: string)
    ensures Forced(calls, Step(calls, sys, c), d, name) ==> Forced(calls, sys, d, name) || name in Step(calls, sys, c).builder
  {
  }

  lemma StepKeepsClaims(calls: nat -> Call, sys: System, c: nat)
    requires ClaimsAreUnique(calls, sys) && WritesShow(calls, sys)
    ensures ClaimsAreUnique(calls, Step(calls, sys, c)) && WritesShow(calls, Step(calls, sys, c))
  {
    var sys' := Step(calls, sys, c);
    StatusesStay(calls, sys, c);
    forall d: nat, name | Claims(calls, sys', d, name)
      ensures name in sys'.maintenance && (Claims(calls, sys, d, name) || (d == c && name !in sys.maintenance))
    {
      ClaimBeforeStep(calls, sys, c, d, name);
    }
    forall d: nat, name | Forced(calls, sys', d, name)
      ensures name in sys'.builder
    {
      ForcedBeforeStep(calls, sys, c, d, name);
    }
  }

  lemma ExplanationStays(calls: nat -> Call, sys: System, c: nat, d: nat, name: string)
    ensures WroteProvider(calls, sys, d, name) ==> WroteProvider(calls, Step(calls, sys, c), d, name)
  {
  }

  lemma NewProviderExplained(calls: nat -> Call, sys: System, c: nat, name: string)
    ensures name in Step(calls, sys, c).builder && name !in sys.builder ==> WroteProvider(calls, Step(calls, sys, c), c, name)
  {
  }

  lemma StepKeepsProvidersExplained(calls: nat -> Call, sys: System, c: nat)
    requires ProvidersExplained(calls, sys)
    ensures ProvidersExplained(calls, Step(calls, sys, c))
  {
    forall name | name in Step(calls, sys, c).builder
      ensures exists d: nat :: WroteProvider(calls, Step(calls, sys, c), d, name)
    {
      if name in sys.builder {
        var d: nat :| WroteProvider(calls, sys, d, name);
        ExplanationStays(calls, sys, c, d, name);
      } else {
        NewProviderExplained(calls, sys, c, name);
      }
    }
  }

  lemma {:induction false} RunKeepsWrites(calls: nat -> Call, schedule: seq<nat>)
    ensures ClaimsAreUnique(calls, After(calls, schedule)) && WritesShow(calls, After(calls, schedule))
    ensures ProvidersExplained(calls, After(calls, schedule))
  {
    if schedule != [] {
      var front := schedule[..|schedule| - 1];
      RunKeepsWrites(calls, front);
      StepKeepsClaims(calls, After(calls, front), schedule[|schedule| - 1]);
      StepKeepsProvidersExplained(calls, After(calls, front), schedule[|schedule| - 1]);
    }
  }

  /**
   Among any calls, a registration that got past its first check is stopped by the second one exactly
   if a `ForceRegister` of its name has written the provider.
   */
  lemma {:induction false} SecondCheckPanicsIff(calls: nat -> Call, schedule: seq<nat>, c: nat, name: string)
    requires calls(c).Register? && calls(c).name == Some(name) && PcOf(After(calls, schedule), c).Halfway?
    ensures PcOf(After(calls, schedule + [c]), c).Aborted? <==> exists d: nat :: Forced(calls, After(calls, schedule), d, name)
  {
    var sys := After(calls, schedule);
    RunKeepsWrites(calls, schedule);
    assert (schedule + [c])[..|schedule|] == schedule;
    assert Claims(calls, sys, c, name);
    if name in sys.builder {
      var d: nat :| WroteProvider(calls, sys, d, name);
      assert Forced(calls, sys, d, name);
    }
  }

  /** The call that wrote the provider of a name last. */
  ghost function ProviderWriter(calls: nat -> Call, schedule: seq<nat>, name: string): Option<nat> {
    if schedule == [] then None
    else
      var sys, c := After(calls, schedule[..|schedule| - 1]), schedule[|schedule| - 1];
      if WritesProvider(calls, sys, c, name) then Some(c) else ProviderWriter(calls, schedule[..|schedule| - 1], name)
  }

  ghost function StatusWriter(calls: nat -> Call, schedule: seq<nat>, name: string): Option<nat> {
    if schedule == [] then None
    else
      var sys, c := After(calls, schedule[..|schedule| - 1]), schedule[|schedule| - 1];
      if WritesStatus(calls, sys, c, name) then Some(c) else StatusWriter(calls, schedule[..|schedule| - 1], name)
  }

  ghost predicate WritesProvider(calls: nat -> Call, sys: System, c: nat, name: string) {
    && !calls(c).Validate? && calls(c).name == Some(name)
    && if calls(c).ForceRegister? then PcOf(sys, c).Ready? else PcOf(sys, c).Halfway? && name !in sys.builder
  }

  ghost predicate WritesStatus(calls: nat -> Call, sys: System, c: nat, name: string) {
    && !calls(c).Validate? && calls(c).name == Some(name)
    && if calls(c).ForceRegister? then PcOf(sys, c).Halfway? else PcOf(sys, c).Ready? && name !in sys.maintenance
  }

  lemma ProviderStep(calls: nat -> Call, sys: System, c: nat, name: string)
    ensures var sys' := Step(calls, sys, c);
            if WritesProvider(calls, sys, c, name) then name in sys'.builder && sys'.builder[name] == calls(c).provider
            else (name in sys'.builder <==> name in sys.builder) && (name in sys.builder ==> sys'.builder[name] == sys.builder[name])
  {
  }

  lemma StatusStep(calls: nat -> Call, sys: System, c: nat, name: string)
    ensures var sys' := Step(calls, sys, c);
            if WritesStatus(calls, sys, c, name) then name in sys'.maintenance && sys'.maintenance[name] == calls(c).status
            else (name in sys'.maintenance <==> name in sys.maintenance) && (name in sys.maintenance ==> sys'.maintenance[name] == sys.maintenance[name])
  {
  }

  /** The entries of a name are what its last writers registered. */
  lemma {:induction false} ProviderIsTheWriters(calls: nat -> Call, schedule: seq<nat>, name: string)
    ensures var sys, w := After(calls, schedule), ProviderWriter(calls, schedule, name);
            && (name in sys.builder <==> w.Some?)
            && (w.Some? ==> !calls(w.value).Validate? && sys.builder[name] == calls(w.value).provider)
  {
    if schedule != [] {
      var front, c := schedule[..|schedule| - 1], schedule[|schedule| - 1];
      ProviderIsTheWriters(calls, front, name);
      ProviderStep(calls, After(calls, front), c, name);
    }
  }

  lemma {:induction false} StatusIsTheWriters(calls: nat -> Call, schedule: seq<nat>, name: string)
    ensures var sys, w := After(calls, schedule), StatusWriter(calls, schedule, name);
            && (name in sys.maintenance <==> w.Some?)
            && (w.Some? ==> !calls(w.value).Validate? && sys.maintenance[name] == calls(w.value).status)
  {
    if schedule != [] {
      var front, c := schedule[..|schedule| - 1], schedule[|schedule| - 1];
      StatusIsTheWriters(calls, front, name);
      StatusStep(calls, After(calls, front), c, name);
    }
  }

  // ---------------------------------------------------------------- whose status stands

  ghost predicate StartsForce(calls: nat -> Call, sys: System, c: nat, name: string) {
    calls(c).ForceRegister? && calls(c).name == Some(name) && PcOf(sys, c).Ready?
  }

  ghost predicate EndsForce(calls: nat -> Call, sys: System, c: nat, name: string) {
    calls(c).ForceRegister? && calls(c).name == Some(name) && PcOf(sys, c).Halfway?
  }

  ghost predicate ForceDone(calls: nat -> Call, sys: System, c: nat, name: string) {
    calls(c).ForceRegister? && calls(c).name == Some(name) && PcOf(sys, c).Done?
  }

  ghost predicate SomeForceDone(calls: nat -> Call, sys: System, name: string) {
    exists c: nat :: ForceDone(calls, sys, c, name)
  }

  /** The call made the step that wrote the status. */
  ghost predicate HasWrittenStatus(calls: nat -> Call, schedule: seq<nat>, c: nat, name: string) {
    schedule != [] &&
    var front, d := schedule[..|schedule| - 1], schedule[|schedule| - 1];
    HasWrittenStatus(calls, front, c, name) || (d == c && WritesStatus(calls, After(calls, front), c, name))
  }

  lemma {:induction false} WrittenStatusShows(calls: nat -> Call, schedule: seq<nat>, c: nat, name: string)
    requires HasWrittenStatus(calls, schedule, c, name)
    ensures name in After(calls, schedule).maintenance && calls(c).name == Some(name)
  {
    var front, d := schedule[..|schedule| - 1], schedule[|schedule| - 1];
    StatusStep(calls, After(calls, front), d, name);
    if HasWrittenStatus(calls, front, c, name) {
      WrittenStatusShows(calls, front, c, name);
    }
  }

  lemma {:induction false} DoneForceHasStatus(calls: nat -> Call, schedule: seq<nat>, c: nat, name: string)
    requires ForceDone(calls, After(calls, schedule), c, name)
    ensures name in After(calls, schedule).maintenance
  {
    if schedule != [] {
      var front, d := schedule[..|schedule| - 1], schedule[|schedule| - 1];
      StatusStep(calls, After(calls, front), d, name);
      DoneBeforeStep(calls, After(calls, front), d, c, name);
      if ForceDone(calls, After(calls, front), c, name) {
        DoneForceHasStatus(calls, front, c, name);
      }
    }
  }

  lemma DoneBeforeStep(calls: nat -> Call, sys: System, d: nat, c: nat, name: string)
    ensures ForceDone(calls, Step(calls, sys, d), c, name) <==>
              ForceDone(calls, sys, c, name) || (d == c && EndsForce(calls, sys, c, name))
  {
  }

  lemma SomeDoneBeforeStep(calls: nat -> Call, sys: System, d: nat, name: string)
    ensures SomeForceDone(calls, Step(calls, sys, d), name) <==> SomeForceDone(calls, sys, name) || EndsForce(calls, sys, d, name)
  {
    if SomeForceDone(calls, Step(calls, sys, d), name) {
      var c: nat :| ForceDone(calls, Step(calls, sys, d), c, name);
      DoneBeforeStep(calls, sys, d, c, name);
    }
    if SomeForceDone(calls, sys, name) {
      var c: nat :| ForceDone(calls, sys, c, name);
      DoneBeforeStep(calls, sys, d, c, name);
    }
    DoneBeforeStep(calls, sys, d, d, name);
  }

  /** On a name that has a status, only the second step of a `ForceRegister` writes one. */
  lemma StatusWritesAreForced(calls: nat -> Call, sys: System, d: nat, name: string)
    ensures name in sys.maintenance ==> (WritesStatus(calls, sys, d, name) <==> EndsForce(calls, sys, d, name))
  {
  }

  /**
   In every run of any calls, the status that a `Register` wrote stands, whatever became of the call,
   exactly until a `ForceRegister` of the name is done.
   */
  lemma {:induction false} RegisteredStatusStandsIff(calls: nat -> Call, schedule: seq<nat>, c: nat, name: string)
    requires calls(c).Register? && HasWrittenStatus(calls, schedule, c, name)
    ensures StatusWriter(calls, schedule, name) == Some(c) <==> !SomeForceDone(calls, After(calls, schedule), name)
  {
    var front, d := schedule[..|schedule| - 1], schedule[|schedule| - 1];
    var sys := After(calls, front);
    SomeDoneBeforeStep(calls, sys, d, name);
    if HasWrittenStatus(calls, front, c, name) {
      RegisteredStatusStandsIff(calls, front, c, name);
      WrittenStatusShows(calls, front, c, name);
      StatusWritesAreForced(calls, sys, d, name);
    } else if SomeForceDone(calls, sys, name) {
      var f: nat :| ForceDone(calls, sys, f, name);
      DoneForceHasStatus(calls, front, f, name);
    }
  }

  lemma {:induction false} HalfwayHasWritten(calls: nat -> Call, schedule: seq<nat>, c: nat, name: string)
    requires calls(c).Register? && calls(c).name == Some(name) && PcOf(After(calls, schedule), c).Halfway?
    ensures HasWrittenStatus(calls, schedule, c, name)
  {
    if schedule != [] {
      var front, d := schedule[..|schedule| - 1], schedule[|schedule| - 1];
      if PcOf(After(calls, front), c).Halfway? {
        HalfwayHasWritten(calls, front, c, name);
      } else {
        HalfwayBeforeStep(calls, After(calls, front), c, d, name);
      }
    }
  }

  lemma HalfwayBeforeStep(calls: nat -> Call, sys: System, c: nat, d: nat, name: string)
    ensures calls(c).Register? && calls(c).name == Some(name) && PcOf(Step(calls, sys, d), c).Halfway? ==> PcOf(sys, c).Halfway? || (d == c && WritesStatus(calls, sys, d, name))
  {
  }

  /**
   Among any calls, a registration past its first check panics at the second and leaves its own status
   standing exactly if a `ForceRegister` of its name is halfway and none is done.
   */
  lemma {:induction false} LeavesItsStatusIff(calls: nat -> Call, schedule: seq<nat>, c: nat, name: string)
    requires calls(c).Register? && calls(c).name == Some(name) && PcOf(After(calls, schedule), c).Halfway?
    ensures var sys, sys' := After(calls, schedule), After(calls, schedule + [c]);
            PcOf(sys', c).Aborted? && StatusWriter(calls, schedule + [c], name) == Some(c) <==>
              (exists d: nat :: EndsForce(calls, sys, d, name)) && !SomeForceDone(calls, sys, name)
    ensures StatusWriter(calls, schedule + [c], name) == Some(c) ==>
              name in After(calls, schedule + [c]).maintenance && After(calls, schedule + [c]).maintenance[name] == calls(c).status
  {
    var sys := After(calls, schedule);
    SecondCheckPanicsIff(calls, schedule, c, name);
    HalfwayHasWritten(calls, schedule, c, name);
    RegisteredStatusStandsIff(calls, schedule, c, name);
    StatusIsTheWriters(calls, schedule + [c], name);
    assert (schedule + [c])[..|schedule|] == schedule;
    if d: nat :| EndsForce(calls, sys, d, name) {
      assert Forced(calls, sys, d, name);
    }
    if d: nat :| Forced(calls, sys, d, name) {
      assert EndsForce(calls, sys, d, name) || ForceDone(calls, sys, d, name);
    }
  }

  // ---------------------------------------------------------------- which entries are paired

  /** Another `ForceRegister` of the name made its first step after the first step of `c`. */
  ghost predicate Overtaken(calls: nat -> Call, schedule: seq<nat>, c: nat, name: string) {
    schedule != [] &&
    var front, d := schedule[..|schedule| - 1], schedule[|schedule| - 1];
    || Overtaken(calls, front, c, name)
    || (d != c && StartsForce(calls, After(calls, front), d, name) && !PcOf(After(calls, front), c).Ready?)
  }

  /** Another `ForceRegister` of the name made its second step after the second step of `c`. */
  ghost predicate Outlasted(calls: nat -> Call, schedule: seq<nat>, c: nat, name: string) {
    schedule != [] &&
    var front, d := schedule[..|schedule| - 1], schedule[|schedule| - 1];
    || Outlasted(calls, front, c, name)
    || (d != c && EndsForce(calls, After(calls, front), d, name) && PcOf(After(calls, front), c).Done?)
  }

  lemma StepsGoOn(calls: nat -> Call, sys: System, d: nat, c: nat)
    ensures PcOf(Step(calls, sys, d), c).Ready? ==> PcOf(sys, c).Ready?
    ensures PcOf(sys, c).Done? ==> PcOf(Step(calls, sys, d), c).Done?
    ensures d != c ==> PcOf(Step(calls, sys, d), c) == PcOf(sys, c)
  {
  }

  lemma {:induction false} OvertakenHasStarted(calls: nat -> Call, schedule: seq<nat>, c: nat, name: string)
    requires Overtaken(calls, schedule, c, name)
    ensures !PcOf(After(calls, schedule), c).Ready?
  {
    var front, d := schedule[..|schedule| - 1], schedule[|schedule| - 1];
    StepsGoOn(calls, After(calls, front), d, c);
    if Overtaken(calls, front, c, name) {
      OvertakenHasStarted(calls, front, c, name);
    }
  }

  lemma {:induction false} OutlastedIsDone(calls: nat -> Call, schedule: seq<nat>, c: nat, name: string)
    requires Outlasted(calls, schedule, c, name)
    ensures PcOf(After(calls, schedule), c).Done?
  {
    var front, d := schedule[..|schedule| - 1], schedule[|schedule| - 1];
    StepsGoOn(calls, After(calls, front), d, c);
    if Outlasted(calls, front, c, name) {
      OutlastedIsDone(calls, front, c, name);
    }
  }

  /** A `ForceRegister` that has begun has written the provider. */
  lemma {:induction false} StartedForceShows(calls: nat -> Call, schedule: seq<nat>, c: nat, name: string)
    requires calls(c).ForceRegister? && calls(c).name == Some(name) && !PcOf(After(calls, schedule), c).Ready?
    ensures Forced(calls, After(calls, schedule), c, name) && name in After(calls, schedule).builder
  {
    var front, d := schedule[..|schedule| - 1], schedule[|schedule| - 1];
    ProviderStep(calls, After(calls, front), d, name);
    StepsGoOn(calls, After(calls, front), d, c);
    if !PcOf(After(calls, front), c).Ready? {
      StartedForceShows(calls, front, c, name);
    }
  }

  /** On a name that has a provider, only the first step of a `ForceRegister` writes one. */
  lemma ProviderWritesAreForced(calls: nat -> Call, sys: System, d: nat, name: string)
    ensures name in sys.builder ==> (WritesProvider(calls, sys, d, name) <==> StartsForce(calls, sys, d, name))
  {
  }

  /** The provider of a `ForceRegister` that has begun stands exactly if the call was not overtaken. */
  lemma {:induction false} ForcedProviderStandsIff(calls: nat -> Call, schedule: seq<nat>, c: nat, name: string)
    requires calls(c).ForceRegister? && calls(c).name == Some(name) && !PcOf(After(calls, schedule), c).Ready?
    ensures ProviderWriter(calls, schedule, name) == Some(c) <==> !Overtaken(calls, schedule, c, name)
  {
    var front, d := schedule[..|schedule| - 1], schedule[|schedule| - 1];
    var sys := After(calls, front);
    StepsGoOn(calls, sys, d, c);
    if PcOf(sys, c).Ready? {
      if Overtaken(calls, front, c, name) {
        OvertakenHasStarted(calls, front, c, name);
      }
    } else {
      ForcedProviderStandsIff(calls, front, c, name);
      StartedForceShows(calls, front, c, name);
      ProviderWritesAreForced(calls, sys, d, name);
    }
  }

  /** The status of a `ForceRegister` that is done stands exactly if the call was not outlasted. */
  lemma {:induction false} ForcedStatusStandsIff(calls: nat -> Call, schedule: seq<nat>, c: nat, name: string)
    requires ForceDone(calls, After(calls, schedule), c, name)
    ensures StatusWriter(calls, schedule, name) == Some(c) <==> !Outlasted(calls, schedule, c, name)
  {
    if schedule != [] {
      var front, d := schedule[..|schedule| - 1], schedule[|schedule| - 1];
      var sys := After(calls, front);
      DoneBeforeStep(calls, sys, d, c, name);
      if ForceDone(calls, sys, c, name) {
        ForcedStatusStandsIff(calls, front, c, name);
        DoneForceHasStatus(calls, front, c, name);
        StatusWritesAreForced(calls, sys, d, name);
      } else if Outlasted(calls, front, c, name) {
        OutlastedIsDone(calls, front, c, name);
      }
    }
  }

  /** Both entries of the name were written last by this call. */
  ghost predicate OwnsEntries(calls: nat -> Call, schedule: seq<nat>, c: nat, name: string) {
    ProviderWriter(calls, schedule, name) == Some(c) && StatusWriter(calls, schedule, name) == Some(c)
  }

  /** What is registered under the name is what this call was given. */
  ghost predicate ShowsCall(calls: nat -> Call, sys: System, c: nat, name: string) {
    && !calls(c).Validate?
    && name in sys.builder && sys.builder[name] == calls(c).provider
    && name in sys.maintenance && sys.maintenance[name] == calls(c).status
  }

  lemma {:induction false} OwnedEntries(calls: nat -> Call, schedule: seq<nat>, c: nat, name: string)
    requires OwnsEntries(calls, schedule, c, name)
    ensures ShowsCall(calls, After(calls, schedule), c, name)
  {
    ProviderIsTheWriters(calls, schedule, name);
    StatusIsTheWriters(calls, schedule, name);
  }

  /**
   In every run of any calls, a `ForceRegister` that is done owns both entries of its name exactly if no
   other one made its first step after the first step of this one, or its second step after the second.
   */
  lemma {:induction false} ForceOwnsEntriesIff(calls: nat -> Call, schedule: seq<nat>, c: nat, name: string)
    requires ForceDone(calls, After(calls, schedule), c, name)
    ensures OwnsEntries(calls, schedule, c, name) <==> !Overtaken(calls, schedule, c, name) && !Outlasted(calls, schedule, c, name)
    ensures !Overtaken(calls, schedule, c, name) && !Outlasted(calls, schedule, c, name) ==> ShowsCall(calls, After(calls, schedule), c, name)
  {
    ForcedProviderStandsIff(calls, schedule, c, name);
    ForcedStatusStandsIff(calls, schedule, c, name);
    if OwnsEntries(calls, schedule, c, name) {
      OwnedEntries(calls, schedule, c, name);
    }
  }

  /** A `Register` that completes always leaves its own two entries, whatever the others do. */
  lemma {:induction false} RegisterOwnsEntries(calls: nat -> Call, schedule: seq<nat>, c: nat, name: string)
    requires calls(c).Register? && calls(c).name == Some(name) && PcOf(After(calls, schedule), c).Halfway?
    requires PcOf(After(calls, schedule + [c]), c).Done?
    ensures OwnsEntries(calls, schedule + [c], c, name) && ShowsCall(calls, After(calls, schedule + [c]), c, name)
  {
    assert (schedule + [c])[..|schedule|] == schedule;
    SecondCheckPanicsIff(calls, schedule, c, name);
    HalfwayHasWritten(calls, schedule, c, name);
    RegisteredStatusStandsIff(calls, schedule, c, name);
    if SomeForceDone(calls, After(calls, schedule), name) {
      var d: nat :| ForceDone(calls, After(calls, schedule), d, name);
      assert Forced(calls, After(calls, schedule), d, name);
    }
    OwnedEntries(calls, schedule + [c], c, name);
  }

  /** Two `ForceRegister`s at once: the provider of one ends up with the status of the other. */
  lemma ForcedEntriesCanMix(calls: nat -> Call, name: string)
    requires calls(0).ForceRegister? && calls(1).ForceRegister? && calls(0).name == Some(name) == calls(1).name
    ensures var sys := After(calls, [0, 1, 1, 0]);
            && PcOf(sys, 0).Done? && PcOf(sys, 1).Done?
            && sys.builder == map[name := calls(1).provider] && sys.maintenance == map[name := calls(0).status]
  {
    assert [0, 1, 1, 0][..3] == [0, 1, 1] && [0, 1, 1][..2] == [0, 1] && [0, 1][..1] == [0] && [0][..0] == [];
    var s1 := After(calls, [0]);
    assert s1 == Step(calls, EMPTY, 0);
    var s2 := After(calls, [0, 1]);
    assert s2 == Step(calls, s1, 1);
    var s3 := After(calls, [0, 1, 1]);
    assert s3 == Step(calls, s2, 1);
  }

  /**
   A `Register` that a `ForceRegister` overtakes panics, and its status stands beside the other's
   provider until the other makes its second write.
   */
  lemma RegisterCanLeaveItsStatus(calls: nat -> Call, name: string)
    requires calls(0).ForceRegister? && calls(1).Register? && calls(0).name == Some(name) == calls(1).name
    ensures var sys := After(calls, [0, 1, 1]);
            && PcOf(sys, 1).Aborted?
            && sys.builder == map[name := calls(0).provider] && sys.maintenance == map[name := calls(1).status]
    ensures After(calls, [0, 1, 1, 0]).maintenance == map[name := calls(0).status]
  {
    assert [0, 1, 1, 0][..3] == [0, 1, 1] && [0, 1, 1][..2] == [0, 1] && [0, 1][..1] == [0] && [0][..0] == [];
    var s1 := After(calls, [0]);
    assert s1 == Step(calls, EMPTY, 0);
    var s2 := After(calls, [0, 1]);
    assert s2 == Step(calls, s1, 1);
    var s3 := After(calls, [0, 1, 1]);
    assert s3 == Step(calls, s2, 1);
  }
}
