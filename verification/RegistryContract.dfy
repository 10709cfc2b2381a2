/**
 The registry contract as it runs. `nestedOk` is the verdict of the calls an entry point
 makes into the NFT and resolver contracts; when it is negative the host undoes the call.
 */
module RegistryContract {
  import opened Common
  import opened Lifecycle
  import opened Names
  import opened Registry
  import Index

  class Contract {
    var admin: Option<Address>
    var disputeAdmin: Option<Address>
    var nft: Option<Address>
    var entries: map<Str, Entry>
    var locks: map<Str, Lock>
    var ownerNames: Index.Lists<Address, Str>
    ghost var history: seq<Event>

    ghost function Storage(): State
      reads this
    {
      State(admin, disputeAdmin, nft, entries, locks, ownerNames)
    }

    /** Storage is what the calls made so far leave behind, so that whatever holds over every
        run holds of this object. */
    ghost predicate Valid()
      reads this
    {
      Storage() == Run(Fresh, history)
    }

    ghost method Log(e: Event)
      requires Valid()
      modifies `history
      ensures history == old(history) + [e] && Run(Fresh, history) == Step(Storage(), e)
    {
      RunStep(history, e);
      history := history + [e];
    }

    constructor ()
      ensures Valid() && history == []
    {
      admin, disputeAdmin, nft, entries, locks, ownerNames, history := None, None, None, map[], map[], map[], [];
    }

    /** Owner index, locks and dates are right whatever was called. */
    lemma Invariant()
      requires Valid()
      ensures Inv(Storage())
    {
      RunKeepsInv(history);
    }

    // ----- storage helpers -----

    method AddOwnerName(owner: Address, name: Str)
      modifies `ownerNames
      ensures ownerNames == Index.Add(old(ownerNames), owner, name)
    {
      var names := Index.Get(ownerNames, owner);
      if name !in names {
        ownerNames := ownerNames[owner := names + [name]];
      }
    }

    method RemoveOwnerName(owner: Address, name: Str)
      modifies `ownerNames
      ensures ownerNames == Index.Remove(old(ownerNames), owner, name)
    {
      var names := Index.Get(ownerNames, owner);
      var filtered := [];
      var i := 0;
      while i < |names|
        invariant 0 <= i <= |names| && ownerNames == old(ownerNames)
        invariant filtered == Without(names[..i], name)
      {
        FilterStep(names, Not(name), i);
        if names[i] != name {
          filtered := filtered + [names[i]];
        }
        i := i + 1;
      }
      assert names[..i] == names;
      ownerNames := ownerNames[owner := filtered];
    }

    /** Drops an elapsed lock; a standing one is an error. */
    method EnsureNameUnlocked(name: Str, now: U64) returns (r: Result<(), Error>)
      modifies `locks
      ensures r.Ok? <==> EnsureUnlocked(old(Storage()), name, now).Ok?
      ensures r.Ok? ==> Storage() == EnsureUnlocked(old(Storage()), name, now).value
      ensures r.Err? ==> r == Err(Locked) && locks == old(locks)
    {
      if name in locks {
        if locks[name].until >= now {
          return Err(Locked);
        }
        locks := locks - {name};
      }
      return Ok(());
    }

    method CheckOwner(name: Str, caller: Address, now: U64) returns (r: Result<(), Error>)
      ensures r == EnsureOwner(Storage(), name, caller, now)
    {
      if name !in entries {
        return Err(NotFound);
      }
      if !ActiveAt(entries[name].expiresAt, now) {
        return Err(NotActive);
      }
      return Check(entries[name].owner == caller, Unauthorized);
    }

    /** The opening of every owner call: authorization, lock, then the active owner. */
    method OwnerGate(auth: set<Address>, name: Str, caller: Address, now: U64) returns (r: Result<(), Error>)
      modifies `locks
      ensures r.Err? ==> locks == old(locks)
      ensures r == if caller !in auth then Err(Trap)
                   else match EnsureUnlocked(old(Storage()), name, now)
                        case Err(e) => Err(e)
                        case Ok(u) => EnsureOwner(u, name, caller, now)
      ensures r.Ok? ==> Storage() == EnsureUnlocked(old(Storage()), name, now).value
    {
      if caller !in auth {
        return Err(Trap);
      }
      var saved := locks;
      r := EnsureNameUnlocked(name, now);
      if r.Ok? {
        r := CheckOwner(name, caller, now);
        if r.Err? {
          locks := saved;
        }
      }
    }

    // ----- entry points -----

    method Initialize(admin: Address) returns (r: Result<(), Error>)
      requires Valid()
      modifies this
      ensures Did(old(Storage()), Storage(), Settled(Registry.Initialize(old(Storage()), admin), true), r)
      ensures Valid() && history == old(history) + [Event(InitCall(admin), true)]
    {
      Log(Event(InitCall(admin), true));
      if this.admin.Some? {
        return Err(Unauthorized);
      }
      this.admin, disputeAdmin := Some(admin), Some(admin);
      return Ok(());
    }

    method SetNftContract(auth: set<Address>, contract: Address) returns (r: Result<(), Error>)
      requires Valid()
      modifies this
      ensures Did(old(Storage()), Storage(), Settled(SetNft(old(Storage()), auth, contract), true), r)
      ensures Valid() && history == old(history) + [Event(SetNftCall(auth, contract), true)]
    {
      Log(Event(SetNftCall(auth, contract), true));
      if admin.None? {
        return Err(Unauthorized);
      }
      if admin.value !in auth {
        return Err(Trap);
      }
      nft := Some(contract);
      return Ok(());
    }

    method SetDisputeAdmin(auth: set<Address>, newAdmin: Address) returns (r: Result<(), Error>)
      requires Valid()
      modifies this
      ensures Did(old(Storage()), Storage(), Settled(Registry.SetDisputeAdmin(old(Storage()), auth, newAdmin), true), r)
      ensures Valid() && history == old(history) + [Event(SetDisputeAdminCall(auth, newAdmin), true)]
    {
      Log(Event(SetDisputeAdminCall(auth, newAdmin), true));
      if admin.None? {
        return Err(Unauthorized);
      }
      if admin.value !in auth {
        return Err(Trap);
      }
      disputeAdmin := Some(newAdmin);
      return Ok(());
    }

    method Register(auth: set<Address>, name: Str, owner: Address, target: Option<Str>, uri: Option<Str>,
                    now: U64, expiresAt: U64, graceEndsAt: U64, nestedOk: bool) returns (r: Result<(), Error>)
      requires Valid()
      modifies this
      ensures Did(old(Storage()), Storage(),
                  Settled(Outcome(old(Storage()),
                                  RegisterCall(auth, name, owner, target, uri, now, expiresAt, graceEndsAt)),
                          nestedOk), r)
      ensures Valid() && history ==
              old(history)
              + [Event(RegisterCall(auth, name, owner, target, uri, now, expiresAt, graceEndsAt), nestedOk)]
    {
      Log(Event(RegisterCall(auth, name, owner, target, uri, now, expiresAt, graceEndsAt), nestedOk));
      if owner !in auth {
        return Err(Trap);
      }
      var valid := CheckFqdn(name);
      if valid.Err? {
        return Err(Validation);
      }
      r := Admit(name, owner, target, uri, now, expiresAt, graceEndsAt, nestedOk);
    }

    /** Lock, entry and nested calls of a registration; whatever fails undoes what was written. */
    method Admit(name: Str, owner: Address, target: Option<Str>, uri: Option<Str>,
                 now: U64, expiresAt: U64, graceEndsAt: U64, nestedOk: bool) returns (r: Result<(), Error>)
      modifies `entries, `locks, `ownerNames
      ensures Did(old(Storage()), Storage(),
                  Settled(Admitted(old(Storage()), name, owner, target, uri, now, expiresAt, graceEndsAt), nestedOk), r)
    {
      var savedEntries, savedLocks, savedNames := entries, locks, ownerNames;
      r := EnsureNameUnlocked(name, now);
      if r.Err? {
        return;
      }
      r := Enter(name, owner, target, uri, now, expiresAt, graceEndsAt);
      if r.Ok? && nft.Some? && !nestedOk {
        r := Err(Trap);
      }
      if r.Err? {
        entries, locks, ownerNames := savedEntries, savedLocks, savedNames;
      }
    }

    /** The checks and writes of `register` once the name is known to be unlocked. */
    method Enter(name: Str, owner: Address, target: Option<Str>, uri: Option<Str>, now: U64, expiresAt: U64,
                 graceEndsAt: U64)
      returns (r: Result<(), Error>)
      modifies `entries, `ownerNames
      ensures Did(old(Storage()), Storage(),
                  Settled(Entered(old(Storage()), name, owner, target, uri, now, expiresAt, graceEndsAt), true), r)
    {
      if !MetadataFits(uri) {
        return Err(MetadataTooLong);
      }
      var dates := ValidateTimestamps(now, expiresAt, graceEndsAt);
      if dates.Err? {
        return dates;
      }
      if name in entries {
        var existing := entries[name];
        if ActiveAt(existing.expiresAt, now) {
          return Err(AlreadyRegistered);
        }
        if !ClaimableAt(existing.graceEndsAt, now) {
          return Err(NotYetClaimable);
        }
        RemoveOwnerName(existing.owner, name);
        entries := entries - {name};
      }
      var entry := Entry(name, owner, None, target, uri, DEFAULT_TTL_SECONDS, now, expiresAt, graceEndsAt, 0);
      entries := entries[name := entry];
      AddOwnerName(owner, name);
      return Ok(());
    }

    /** Rewrites owner and transfer count, then refiles the name. */
    method Move(name: Str, to: Address)
      requires name in entries
      modifies `entries, `ownerNames
      ensures Storage() == MoveEntry(old(Storage()), name, to)
    {
      var entry := entries[name];
      entries := entries[name := entry.(owner := to, transferCount := SatInc(entry.transferCount))];
      RemoveOwnerName(entry.owner, name);
      AddOwnerName(to, name);
    }

    method Transfer(auth: set<Address>, name: Str, caller: Address, to: Address, now: U64, nestedOk: bool)
      returns (r: Result<(), Error>)
      requires Valid()
      modifies this
      ensures Did(old(Storage()), Storage(),
                  Settled(Registry.Transfer(old(Storage()), auth, name, caller, to, now), nestedOk), r)
      ensures Valid() && history == old(history) + [Event(TransferCall(auth, name, caller, to, now), nestedOk)]
    {
      Log(Event(TransferCall(auth, name, caller, to, now), nestedOk));
      var savedEntries, savedLocks, savedNames := entries, locks, ownerNames;
      r := OwnerGate(auth, name, caller, now);
      if r.Err? {
        return;
      }
      var resolver := entries[name].resolver;
      Move(name, to);
      if (resolver.Some? || nft.Some?) && !nestedOk {
        entries, locks, ownerNames := savedEntries, savedLocks, savedNames;
        return Err(Trap);
      }
    }

    method SetResolver(auth: set<Address>, name: Str, caller: Address, resolver: Option<Str>, well: bool, now: U64)
      returns (r: Result<(), Error>)
      requires Valid()
      modifies this
      ensures Did(old(Storage()), Storage(),
                  Settled(Registry.SetResolver(old(Storage()), auth, name, caller, resolver, well, now), true), r)
      ensures Valid() && history ==
              old(history) + [Event(SetResolverCall(auth, name, caller, resolver, well, now), true)]
    {
      Log(Event(SetResolverCall(auth, name, caller, resolver, well, now), true));
      var saved := locks;
      r := OwnerGate(auth, name, caller, now);
      if r.Err? {
        return;
      }
      if resolver.Some? && !well {
        locks := saved;
        return Err(Trap);
      }
      entries := entries[name := entries[name].(resolver := resolver)];
    }

    method SetTarget(auth: set<Address>, name: Str, caller: Address, target: Option<Str>, now: U64)
      returns (r: Result<(), Error>)
      requires Valid()
      modifies this
      ensures Did(old(Storage()), Storage(),
                  Settled(Registry.SetTarget(old(Storage()), auth, name, caller, target, now), true), r)
      ensures Valid() && history == old(history) + [Event(SetTargetCall(auth, name, caller, target, now), true)]
    {
      Log(Event(SetTargetCall(auth, name, caller, target, now), true));
      r := OwnerGate(auth, name, caller, now);
      if r.Ok? {
        entries := entries[name := entries[name].(target := target)];
      }
    }

    /** The length of the metadata is checked between the lock and the owner. */
    method SetMetadata(auth: set<Address>, name: Str, caller: Address, uri: Option<Str>, now: U64)
      returns (r: Result<(), Error>)
      requires Valid()
      modifies this
      ensures Did(old(Storage()), Storage(),
                  Settled(Registry.SetMetadata(old(Storage()), auth, name, caller, uri, now), true), r)
      ensures Valid() && history == old(history) + [Event(SetMetadataCall(auth, name, caller, uri, now), true)]
    {
      Log(Event(SetMetadataCall(auth, name, caller, uri, now), true));
      if caller !in auth {
        return Err(Trap);
      }
      var saved := locks;
      r := EnsureNameUnlocked(name, now);
      if r.Err? {
        return;
      }
      if !MetadataFits(uri) {
        locks := saved;
        return Err(MetadataTooLong);
      }
      r := CheckOwner(name, caller, now);
      if r.Err? {
        locks := saved;
        return;
      }
      entries := entries[name := entries[name].(metadataUri := uri)];
    }

    method UpdateOwner(auth: set<Address>, name: Str, caller: Address, to: Address, now: U64)
      returns (r: Result<(), Error>)
      requires Valid()
      modifies this
      ensures Did(old(Storage()), Storage(),
                  Settled(Registry.UpdateOwner(old(Storage()), auth, name, caller, to, now), true), r)
      ensures Valid() && history == old(history) + [Event(UpdateOwnerCall(auth, name, caller, to, now), true)]
    {
      Log(Event(UpdateOwnerCall(auth, name, caller, to, now), true));
      if nft.None? {
        return Err(Unauthorized);
      }
      if caller !in auth {
        return Err(Trap);
      }
      if nft != Some(caller) {
        return Err(Unauthorized);
      }
      if name !in entries {
        return Err(NotFound);
      }
      var saved := locks;
      r := EnsureNameUnlocked(name, now);
      if r.Err? {
        return;
      }
      if !ActiveAt(entries[name].expiresAt, now) {
        locks := saved;
        return Err(NotActive);
      }
      Move(name, to);
      return Ok(());
    }

    method Renew(auth: set<Address>, name: Str, caller: Address, expiresAt: U64, graceEndsAt: U64, now: U64,
                 nestedOk: bool)
      returns (r: Result<(), Error>)
      requires Valid()
      modifies this
      ensures Did(old(Storage()), Storage(),
                  Settled(Outcome(old(Storage()), RenewCall(auth, name, caller, expiresAt, graceEndsAt, now)),
                          nestedOk), r)
      ensures Valid() && history ==
              old(history) + [Event(RenewCall(auth, name, caller, expiresAt, graceEndsAt, now), nestedOk)]
    {
      Log(Event(RenewCall(auth, name, caller, expiresAt, graceEndsAt, now), nestedOk));
      if caller !in auth {
        return Err(Trap);
      }
      var savedEntries, savedLocks := entries, locks;
      r := EnsureNameUnlocked(name, now);
      if r.Err? {
        return;
      }
      r := Prolong(name, caller, expiresAt, graceEndsAt, now);
      if r.Ok? && nft.Some? && !nestedOk {
        r := Err(Trap);
      }
      if r.Err? {
        entries, locks := savedEntries, savedLocks;
      }
    }

    /** The checks and the write of `renew` once the name is known to be unlocked. */
    method Prolong(name: Str, caller: Address, expiresAt: U64, graceEndsAt: U64, now: U64)
      returns (r: Result<(), Error>)
      modifies `entries
      ensures Did(old(Storage()), Storage(),
                  Settled(Prolonged(old(Storage()), name, caller, expiresAt, graceEndsAt, now), true), r)
    {
      if name !in entries {
        return Err(NotFound);
      }
      var entry := entries[name];
      if ClaimableAt(entry.graceEndsAt, now) {
        return Err(NotActive);
      }
      if entry.owner != caller {
        return Err(Unauthorized);
      }
      if expiresAt < entry.expiresAt {
        return Err(InvalidExpiry);
      }
      if graceEndsAt < entry.graceEndsAt {
        return Err(InvalidGracePeriod);
      }
      r := ValidateTimestamps(now, expiresAt, graceEndsAt);
      if r.Ok? {
        entries := entries[name := entry.(expiresAt := expiresAt, graceEndsAt := graceEndsAt)];
      }
    }

    method Burn(auth: set<Address>, name: Str, caller: Address, now: U64, nestedOk: bool) returns (r: Result<(), Error>)
      requires Valid()
      modifies this
      ensures Did(old(Storage()), Storage(),
                  Settled(Registry.Burn(old(Storage()), auth, name, caller, now), nestedOk), r)
      ensures Valid() && history == old(history) + [Event(BurnCall(auth, name, caller, now), nestedOk)]
    {
      Log(Event(BurnCall(auth, name, caller, now), nestedOk));
      if caller !in auth {
        return Err(Trap);
      }
      var savedEntries, savedLocks, savedNames := entries, locks, ownerNames;
      r := EnsureNameUnlocked(name, now);
      if r.Err? {
        return;
      }
      if name !in entries {
        locks := savedLocks;
        return Err(NotFound);
      }
      var entry := entries[name];
      if entry.owner != caller && !ClaimableAt(entry.graceEndsAt, now) {
        locks := savedLocks;
        return Err(Unauthorized);
      }
      RemoveOwnerName(entry.owner, name);
      entries := entries - {name};
      if nft.Some? && !nestedOk {
        entries, locks, ownerNames := savedEntries, savedLocks, savedNames;
        return Err(Trap);
      }
      return Ok(());
    }

    method LockName(auth: set<Address>, name: Str, caller: Address, until: U64, reason: Str, now: U64)
      returns (r: Result<(), Error>)
      requires Valid()
      modifies this
      ensures Did(old(Storage()), Storage(),
                  Settled(Registry.LockName(old(Storage()), auth, name, caller, until, reason, now), true), r)
      ensures Valid() && history == old(history) + [Event(LockCall(auth, name, caller, until, reason, now), true)]
    {
      Log(Event(LockCall(auth, name, caller, until, reason, now), true));
      if disputeAdmin.None? {
        return Err(Unauthorized);
      }
      if caller !in auth {
        return Err(Trap);
      }
      if disputeAdmin != Some(caller) {
        return Err(Unauthorized);
      }
      var valid := CheckFqdn(name);
      if valid.Err? {
        return Err(Validation);
      }
      if name !in entries {
        return Err(NotFound);
      }
      if until < now {
        return Err(InvalidExpiry);
      }
      locks := locks[name := Lock(until, reason)];
      return Ok(());
    }

    method UnlockName(auth: set<Address>, name: Str, caller: Address) returns (r: Result<(), Error>)
      requires Valid()
      modifies this
      ensures Did(old(Storage()), Storage(),
                  Settled(Registry.UnlockName(old(Storage()), auth, name, caller), true), r)
      ensures Valid() && history == old(history) + [Event(UnlockCall(auth, name, caller), true)]
    {
      Log(Event(UnlockCall(auth, name, caller), true));
      if disputeAdmin.None? {
        return Err(Unauthorized);
      }
      if caller !in auth {
        return Err(Trap);
      }
      if disputeAdmin != Some(caller) {
        return Err(Unauthorized);
      }
      var valid := CheckFqdn(name);
      if valid.Err? {
        return Err(Validation);
      }
      if name !in locks {
        return Err(NotFound);
      }
      locks := locks - {name};
      return Ok(());
    }

    /** The audit loop over one owner's list. */
    method Audit(owner: Address) returns (stale: seq<Str>)
      ensures stale == AuditOwnerIndex(Storage(), owner)
      ensures Valid() ==> stale == []
    {
      var names := Index.Get(ownerNames, owner);
      stale := [];
      var i := 0;
      ghost var bad := Stale(Storage(), owner);
      while i < |names|
        invariant 0 <= i <= |names|
        invariant stale == Filter(names[..i], bad)
      {
        FilterStep(names, bad, i);
        if names[i] !in entries {
          stale := stale + [names[i]];
        } else if entries[names[i]].owner != owner {
          stale := stale + [names[i]];
        }
        i := i + 1;
      }
      assert names[..i] == names;
      if Valid() {
        AuditAlwaysEmpty(history, owner);
      }
    }
  }
}
