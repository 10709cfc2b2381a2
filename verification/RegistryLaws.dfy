/**
 What each call of the registry promises: exactly when it succeeds, and what entry, owner lists
 and lock are afterwards, for the name it is about and for every other.
 */
module RegistryLaws {
  import opened Common
  import opened Lifecycle
  import opened Names
  import opened Registry
  import Index

  // ----- locks -----

  lemma LockSucceedsIff(s: State, auth: set<Address>, name: Str, caller: Address, until: U64, reason: Str, now: U64)
    ensures LockName(s, auth, name, caller, until, reason, now).Ok? <==>
            s.disputeAdmin == Some(caller) && caller in auth && IsFqdn(name) && name in s.entries && now <= until
  {
  }

  lemma UnlockSucceedsIff(s: State, auth: set<Address>, name: Str, caller: Address)
    ensures UnlockName(s, auth, name, caller).Ok? <==>
            s.disputeAdmin == Some(caller) && caller in auth && IsFqdn(name) && name in s.locks
  {
  }

  /** From a successful lock on, and over every run that neither replaces nor removes it and
      whose clocks stay within it, the entry is what it was, and the lock covers exactly the
      clocks up to the agreed end. */
  lemma LockHolds(s: State, c: Call, events: seq<Event>, at: U64)
    requires c.LockCall? && Outcome(s, c).Ok?
    requires forall i :: 0 <= i < |events| ==> RespectsLock(events[i], c.name, c.until)
    ensures var t := Run(Outcome(s, c).value.state, events);
            && c.name in s.entries && c.name in t.entries && t.entries[c.name] == s.entries[c.name]
            && (LockedAt(t, c.name, at) <==> at <= c.until)
            && c.name in t.locks && t.locks[c.name].reason == c.reason
  {
    LockFreezes(Outcome(s, c).value.state, events, c.name);
  }

  /** Locking and unlocking touch nothing but the lock of their name. */
  lemma LockCallsTouchLocksOnly(s: State, c: Call, n: Str)
    requires (c.LockCall? || c.UnlockCall?) && Outcome(s, c).Ok?
    ensures var t := Outcome(s, c).value.state;
            && t == s.(locks := t.locks)
            && (n != c.name ==> (n in t.locks <==> n in s.locks) && (n in s.locks ==> t.locks[n] == s.locks[n]))
            && (c.name in t.locks <==> c.LockCall?)
  {
  }

  /** A standing lock refuses every call on the name but a lock or unlock. */
  lemma StandingLockRefuses(s: State, c: Call)
    requires c.Timed() && LockedAt(s, c.name, c.now)
    ensures Outcome(s, c).Err?
  {
    assert EnsureUnlocked(s, c.name, c.now) == Err(Locked);
  }

  /** An elapsed one refuses nothing: the outcome is the one without it. */
  lemma ElapsedLockRefusesNothing(s: State, c: Call)
    requires c.Timed() && !LockedAt(s, c.name, c.now)
    ensures Outcome(s, c) == Outcome(s.(locks := s.locks - {c.name}), c)
  {
    var u := s.(locks := s.locks - {c.name});
    assert c.name !in s.locks ==> s.locks - {c.name} == s.locks;
    assert EnsureUnlocked(u, c.name, c.now) == Ok(u) == EnsureUnlocked(s, c.name, c.now);
  }

  /** Configuration as before, and no lock on `name`, the others as they were. */
  predicate LockDropped(s: State, t: State, name: Str) {
    t.locks == s.locks - {name} && t.admin == s.admin && t.disputeAdmin == s.disputeAdmin && t.nft == s.nft
  }

  lemma UnlockedDrops(s: State, name: Str, now: U64)
    requires EnsureUnlocked(s, name, now).Ok?
    ensures LockDropped(s, EnsureUnlocked(s, name, now).value, name)
  {
    assert name !in s.locks ==> s.locks - {name} == s.locks;
  }

  lemma RegisterDropsLock(s: State, c: Call)
    requires c.RegisterCall? && Outcome(s, c).Ok?
    ensures LockDropped(s, Outcome(s, c).value.state, c.name)
  {
    RegisterIsEntered(s, c);
    UnlockedDrops(s, c.name, c.now);
  }

  lemma MovesDropLock(s: State, c: Call)
    requires c.Moves() && Outcome(s, c).Ok?
    ensures LockDropped(s, Outcome(s, c).value.state, c.name)
  {
    UnlockedDrops(s, c.name, c.now);
  }

  lemma RewritesDropLock(s: State, c: Call)
    requires c.Rewrites() && Outcome(s, c).Ok?
    ensures LockDropped(s, Outcome(s, c).value.state, c.name)
  {
    UnlockedDrops(s, c.name, c.now);
  }

  /** A successful call leaves no lock on its name, the other locks as they were, and the
      configuration alone. */
  lemma SuccessDropsLock(s: State, c: Call)
    requires c.Timed() && Outcome(s, c).Ok?
    ensures LockDropped(s, Outcome(s, c).value.state, c.name)
  {
    if c.RegisterCall? {
      RegisterDropsLock(s, c);
    } else if c.Moves() {
      MovesDropLock(s, c);
    } else {
      RewritesDropLock(s, c);
    }
  }

  // ----- moving a name -----

  /** The authorized owner of an active, unlocked name is calling. */
  predicate OwnerActs(s: State, auth: set<Address>, name: Str, caller: Address, now: U64) {
    && caller in auth && !LockedAt(s, name, now)
    && name in s.entries && s.entries[name].owner == caller && now <= s.entries[name].expiresAt
  }

  lemma TransferSucceedsIff(s: State, auth: set<Address>, name: Str, caller: Address, to: Address, now: U64)
    ensures Transfer(s, auth, name, caller, to, now).Ok? <==> OwnerActs(s, auth, name, caller, now)
  {
  }

  lemma UpdateOwnerSucceedsIff(s: State, auth: set<Address>, name: Str, caller: Address, to: Address, now: U64)
    ensures UpdateOwner(s, auth, name, caller, to, now).Ok? <==>
            && s.nft == Some(caller) && caller in auth && !LockedAt(s, name, now)
            && name in s.entries && now <= s.entries[name].expiresAt
  {
  }

  /** Names other than `name` have the same entry and are in the same lists. */
  ghost predicate OthersKept(s: State, t: State, name: Str) {
    forall n :: n != name ==>
      && SameEntry(s, t, n)
      && (forall who :: n in Index.Get(t.ownerNames, who) <==> n in Index.Get(s.ownerNames, who))
  }

  /** `who` alone lists the name. */
  ghost predicate ListedBy(s: State, name: Str, who: Address) {
    forall a :: name in Index.Get(s.ownerNames, a) <==> a == who
  }

  ghost predicate ListedByNobody(s: State, name: Str) {
    forall a :: name !in Index.Get(s.ownerNames, a)
  }

  lemma ListedIff(s: State, n: Str, who: Address)
    requires Inv(s)
    ensures n in Index.Get(s.ownerNames, who) <==> n in s.entries && s.entries[n].owner == who
  {
    assert n in Index.Get(s.ownerNames, who) <==> n in OwnerOf(s.entries) && OwnerOf(s.entries)[n] == who;
  }

  predicate SameEntry(s: State, t: State, n: Str) {
    (n in t.entries <==> n in s.entries) && (n in s.entries ==> t.entries[n] == s.entries[n])
  }

  /** With the invariant, lists follow entries. */
  lemma ListsFollow(s: State, t: State, name: Str)
    requires Inv(s) && Inv(t) && forall n :: n != name ==> SameEntry(s, t, n)
    ensures OthersKept(s, t, name)
    ensures if name in t.entries then ListedBy(t, name, t.entries[name].owner) else ListedByNobody(t, name)
  {
    forall n, who | n != name ensures n in Index.Get(t.ownerNames, who) <==> n in Index.Get(s.ownerNames, who) {
      ListedIff(s, n, who);
      ListedIff(t, n, who);
      assert SameEntry(s, t, n);
    }
    forall who ensures name in Index.Get(t.ownerNames, who) <==> name in t.entries && t.entries[name].owner == who {
      ListedIff(t, name, who);
    }
  }

  lemma MoveWrites(s: State, c: Call)
    requires (c.TransferCall? || c.UpdateOwnerCall?) && Outcome(s, c).Ok?
    ensures var t := Outcome(s, c).value.state;
            && c.name in s.entries && t.entries.Keys == s.entries.Keys
            && t.entries[c.name] ==
               s.entries[c.name].(owner := c.to, transferCount := Min(s.entries[c.name].transferCount + 1, U32_MAX))
            && (forall n :: n in s.entries && n != c.name ==> t.entries[n] == s.entries[n])
  {
  }

  /** After a transfer, or the NFT contract's update, the new owner has the name and alone lists
      it; the rest of the entry and every other name are unchanged. */
  lemma MoveHandsOver(s: State, c: Call)
    requires Inv(s) && (c.TransferCall? || c.UpdateOwnerCall?) && Outcome(s, c).Ok?
    ensures var t := Outcome(s, c).value.state;
            && c.name in s.entries && c.name in t.entries
            && t.entries[c.name] ==
               s.entries[c.name].(owner := c.to, transferCount := Min(s.entries[c.name].transferCount + 1, U32_MAX))
            && ListedBy(t, c.name, c.to) && OthersKept(s, t, c.name)
  {
    OutcomeKeepsInv(s, c);
    MoveWrites(s, c);
    ListsFollow(s, Outcome(s, c).value.state, c.name);
  }

  /** The next transfer can only be the new owner's. */
  lemma OnlyNewOwnerMovesOn(s: State, c: Call, auth: set<Address>, who: Address, to: Address, now: U64)
    requires (c.TransferCall? || c.UpdateOwnerCall?) && Outcome(s, c).Ok?
    requires who in auth && now <= s.entries[c.name].expiresAt
    ensures Transfer(Outcome(s, c).value.state, auth, c.name, who, to, now).Ok? <==> who == c.to
  {
    SuccessDropsLock(s, c);
    TransferSucceedsIff(Outcome(s, c).value.state, auth, c.name, who, to, now);
  }

  // ----- registering, renewing, burning -----

  lemma RegisterSucceedsIff(s: State, c: Call)
    requires c.RegisterCall?
    ensures Outcome(s, c).Ok? <==>
            && c.owner in c.auth && IsFqdn(c.name) && !LockedAt(s, c.name, c.now) && MetadataFits(c.uri)
            && c.now <= c.expiresAt <= c.graceEndsAt
            && (c.name in s.entries ==> s.entries[c.name].expiresAt < c.now && s.entries[c.name].graceEndsAt < c.now)
  {
  }

  /** A registered name belongs to its owner from `now`, with the given dates and data and no
      resolver; the owner alone lists it, and every other name is unchanged. */
  lemma RegisterGives(s: State, c: Call)
    requires Inv(s) && c.RegisterCall? && Outcome(s, c).Ok?
    ensures var t := Outcome(s, c).value.state;
            && c.name in t.entries
            && var e := t.entries[c.name];
            && e.name == c.name && e.owner == c.owner && e.resolver == None && e.target == c.target
            && e.metadataUri == c.uri && e.registeredAt == c.now && e.expiresAt == c.expiresAt
            && e.graceEndsAt == c.graceEndsAt && e.transferCount == 0 && e.ttl == 31_536_000
            && ListedBy(t, c.name, c.owner) && OthersKept(s, t, c.name)
  {
    OutcomeKeepsInv(s, c);
    RegisterEffect(s, c);
    ListsFollow(s, Outcome(s, c).value.state, c.name);
  }

  lemma RenewSucceedsIff(s: State, c: Call)
    requires c.RenewCall?
    ensures Outcome(s, c).Ok? <==>
            && c.caller in c.auth && !LockedAt(s, c.name, c.now) && c.name in s.entries
            && s.entries[c.name].owner == c.caller && c.now <= s.entries[c.name].graceEndsAt
            && s.entries[c.name].expiresAt <= c.expiresAt && s.entries[c.name].graceEndsAt <= c.graceEndsAt
            && c.now <= c.expiresAt <= c.graceEndsAt
  {
  }

  lemma BurnSucceedsIff(s: State, auth: set<Address>, name: Str, caller: Address, now: U64)
    ensures Burn(s, auth, name, caller, now).Ok? <==>
            && caller in auth && !LockedAt(s, name, now) && name in s.entries
            && (s.entries[name].owner == caller || s.entries[name].graceEndsAt < now)
  {
  }

  lemma BurnLeavesNothing(s: State, c: Call)
    requires Inv(s) && c.BurnCall? && Outcome(s, c).Ok?
    ensures var t := Outcome(s, c).value.state;
            c.name !in t.entries && c.name !in t.locks && ListedByNobody(t, c.name) && OthersKept(s, t, c.name)
  {
    OutcomeKeepsInv(s, c);
    BurnEffect(s, c);
    SuccessDropsLock(s, c);
    ListsFollow(s, Outcome(s, c).value.state, c.name);
  }

  // ----- the owner's settings -----

  lemma SettersSucceedIff(s: State, auth: set<Address>, name: Str, caller: Address, value: Option<Str>, well: bool,
                          now: U64)
    ensures SetResolver(s, auth, name, caller, value, well, now).Ok? <==>
            OwnerActs(s, auth, name, caller, now) && (value.Some? ==> well)
    ensures SetTarget(s, auth, name, caller, value, now).Ok? <==> OwnerActs(s, auth, name, caller, now)
    ensures SetMetadata(s, auth, name, caller, value, now).Ok? <==>
            OwnerActs(s, auth, name, caller, now) && (value.Some? ==> |value.value| <= 256)
  {
  }

  /** What the entry of the name is after one of the owner's settings or a renewal. */
  function Rewritten(e: Entry, c: Call): Entry
    requires c.Rewrites()
  {
    match c
    case SetResolverCall(_, _, _, resolver, _, _) => e.(resolver := resolver)
    case SetTargetCall(_, _, _, target, _) => e.(target := target)
    case SetMetadataCall(_, _, _, uri, _) => e.(metadataUri := uri)
    case RenewCall(_, _, _, expiresAt, graceEndsAt, _) => e.(expiresAt := expiresAt, graceEndsAt := graceEndsAt)
  }

  /** Each setting writes its own field, a renewal the two dates; no list and no other name
      changes. */
  lemma RewritesExactly(s: State, c: Call)
    requires c.Rewrites() && Outcome(s, c).Ok?
    ensures var t := Outcome(s, c).value.state;
            && c.name in s.entries && t.entries.Keys == s.entries.Keys
            && t.entries[c.name] == Rewritten(s.entries[c.name], c)
            && (forall n :: n in s.entries && n != c.name ==> t.entries[n] == s.entries[n])
            && t == s.(entries := t.entries, locks := t.locks)
  {
  }

  // ----- administration -----

  lemma AdministrationSucceedsIff(s: State, auth: set<Address>, who: Address)
    ensures Initialize(s, who).Ok? <==> s.admin.None?
    ensures SetNft(s, auth, who).Ok? <==> s.admin.Some? && s.admin.value in auth
    ensures SetDisputeAdmin(s, auth, who).Ok? <==> s.admin.Some? && s.admin.value in auth
    ensures Initialize(s, who).Ok? ==>
              Initialize(s, who).value == Effect(s.(admin := Some(who), disputeAdmin := Some(who)), [])
    ensures SetNft(s, auth, who).Ok? ==> SetNft(s, auth, who).value == Effect(s.(nft := Some(who)), [])
    ensures SetDisputeAdmin(s, auth, who).Ok? ==>
              SetDisputeAdmin(s, auth, who).value == Effect(s.(disputeAdmin := Some(who)), [])
  {
  }

  /** Only the administrator replaces the dispute administrator, and nobody replaces him. */
  lemma StepKeepsAdministrator(s: State, e: Event)
    requires s.admin.Some?
    ensures Step(s, e).admin == s.admin
    ensures Step(s, e).disputeAdmin != s.disputeAdmin ==>
              e.call.SetDisputeAdminCall? && s.admin.value in e.call.auth
              && Step(s, e).disputeAdmin == Some(e.call.admin)
  {
    if Outcome(s, e.call).Ok? {
      if e.call.Timed() {
        SuccessDropsLock(s, e.call);
      } else if e.call.LockCall? || e.call.UnlockCall? {
        LockCallsTouchLocksOnly(s, e.call, []);
      }
    }
  }

  /** The administrator of an initialised registry stays so over every run. */
  lemma {:induction false} AdministratorStays(s: State, events: seq<Event>)
    requires s.admin.Some?
    ensures Run(s, events).admin == s.admin
  {
    if events != [] {
      AdministratorStays(s, events[..|events| - 1]);
      StepKeepsAdministrator(Run(s, events[..|events| - 1]), events[|events| - 1]);
    }
  }

  // ----- errors -----

  predicate MissingAuthorization(s: State, c: Call) {
    match c
    case InitCall(_) => false
    case SetNftCall(auth, _) => s.admin.Some? && s.admin.value !in auth
    case SetDisputeAdminCall(auth, _) => s.admin.Some? && s.admin.value !in auth
    case RegisterCall(auth, _, owner, _, _, _, _, _) => owner !in auth
    case UpdateOwnerCall(auth, _, caller, _, _) => s.nft.Some? && caller !in auth
    case LockCall(auth, _, caller, _, _, _) => s.disputeAdmin.Some? && caller !in auth
    case UnlockCall(auth, _, caller) => s.disputeAdmin.Some? && caller !in auth
    case _ => c.caller !in c.auth
  }

  /** The caller is authorized but not entitled. */
  predicate NotEntitled(s: State, c: Call) {
    match c
    case InitCall(_) => s.admin.Some?
    case SetNftCall(_, _) => s.admin.None?
    case SetDisputeAdminCall(_, _) => s.admin.None?
    case RegisterCall(_, _, _, _, _, _, _, _) => false
    case UpdateOwnerCall(_, _, caller, _, _) => s.nft != Some(caller)
    case LockCall(_, _, caller, _, _, _) => s.disputeAdmin != Some(caller)
    case UnlockCall(_, _, caller) => s.disputeAdmin != Some(caller)
    case BurnCall(_, name, caller, now) =>
      name in s.entries && s.entries[name].owner != caller && now <= s.entries[name].graceEndsAt
    case _ => c.name in s.entries && s.entries[c.name].owner != c.caller
  }

  /** The reasons an error stands for. */
  predicate Reason(s: State, c: Call, e: Error) {
    match e
    case AlreadyRegistered => c.RegisterCall? && c.name in s.entries && c.now <= s.entries[c.name].expiresAt
    case NotYetClaimable => c.RegisterCall? && c.name in s.entries && c.now <= s.entries[c.name].graceEndsAt
    case NotFound =>
      if c.UnlockCall? then c.name !in s.locks else (c.Timed() || c.LockCall?) && c.name !in s.entries
    case NotActive =>
      && c.Timed() && !c.RegisterCall? && c.name in s.entries
      && (if c.RenewCall? then s.entries[c.name].graceEndsAt else s.entries[c.name].expiresAt) < c.now
    case Unauthorized => NotEntitled(s, c)
    case MetadataTooLong => (c.RegisterCall? || c.SetMetadataCall?) && !MetadataFits(c.uri)
    case Validation => (c.RegisterCall? || c.LockCall? || c.UnlockCall?) && !IsFqdn(c.name)
    case InvalidExpiry =>
      || (c.RegisterCall? && c.expiresAt < c.now)
      || (c.RenewCall? && c.name in s.entries && (c.expiresAt < c.now || c.expiresAt < s.entries[c.name].expiresAt))
      || (c.LockCall? && c.until < c.now)
    case InvalidGracePeriod =>
      && (c.RegisterCall? || (c.RenewCall? && c.name in s.entries))
      && (c.graceEndsAt < c.expiresAt || (c.RenewCall? && c.graceEndsAt < s.entries[c.name].graceEndsAt))
    case Locked => c.Timed() && LockedAt(s, c.name, c.now)
    case Trap => MissingAuthorization(s, c) || (c.SetResolverCall? && c.resolver.Some? && !c.well)
  }

  lemma RegisterErrors(s: State, c: Call)
    requires c.RegisterCall? && Outcome(s, c).Err?
    ensures Reason(s, c, Outcome(s, c).error)
  {
  }

  lemma RenewErrors(s: State, c: Call)
    requires c.RenewCall? && Outcome(s, c).Err?
    ensures Reason(s, c, Outcome(s, c).error)
  {
  }

  lemma BurnErrors(s: State, c: Call)
    requires c.BurnCall? && Outcome(s, c).Err?
    ensures Reason(s, c, Outcome(s, c).error)
  {
  }

  lemma TransferErrors(s: State, c: Call)
    requires c.TransferCall? && Outcome(s, c).Err?
    ensures Reason(s, c, Outcome(s, c).error)
  {
  }

  lemma UpdateOwnerErrors(s: State, c: Call)
    requires c.UpdateOwnerCall? && Outcome(s, c).Err?
    ensures Reason(s, c, Outcome(s, c).error)
  {
  }

  lemma SetResolverErrors(s: State, c: Call)
    requires c.SetResolverCall? && Outcome(s, c).Err?
    ensures Reason(s, c, Outcome(s, c).error)
  {
  }

  lemma SetTargetErrors(s: State, c: Call)
    requires c.SetTargetCall? && Outcome(s, c).Err?
    ensures Reason(s, c, Outcome(s, c).error)
  {
  }

  lemma SetMetadataErrors(s: State, c: Call)
    requires c.SetMetadataCall? && Outcome(s, c).Err?
    ensures Reason(s, c, Outcome(s, c).error)
  {
  }

  lemma OtherErrors(s: State, c: Call)
    requires !c.Timed() && Outcome(s, c).Err?
    ensures Reason(s, c, Outcome(s, c).error)
  {
  }

  /** An error is only ever given for its reason. */
  lemma ErrorsAreTrue(s: State, c: Call)
    requires Outcome(s, c).Err?
    ensures Reason(s, c, Outcome(s, c).error)
  {
    if c.RegisterCall? {
      RegisterErrors(s, c);
    } else if c.RenewCall? {
      RenewErrors(s, c);
    } else if c.BurnCall? {
      BurnErrors(s, c);
    } else if c.TransferCall? {
      TransferErrors(s, c);
    } else if c.UpdateOwnerCall? {
      UpdateOwnerErrors(s, c);
    } else if c.SetResolverCall? {
      SetResolverErrors(s, c);
    } else if c.SetTargetCall? {
      SetTargetErrors(s, c);
    } else if c.SetMetadataCall? {
      SetMetadataErrors(s, c);
    } else {
      OtherErrors(s, c);
    }
  }

  /** The audit reports exactly the listed names that are not the owner's, in any state. */
  lemma AuditFinds(s: State, owner: Address, n: Str)
    ensures n in AuditOwnerIndex(s, owner) <==>
            n in Index.Get(s.ownerNames, owner) && (n !in s.entries || s.entries[n].owner != owner)
  {
    FilterMembers(Index.Get(s.ownerNames, owner), Stale(s, owner));
  }

  /** The phases a name goes through. */
  lemma NameStateIff(s: State, name: Str, now: U64)
    requires Inv(s)
    ensures NameState(s, name, now) == Missing <==> name !in s.entries
    ensures NameState(s, name, now) == Active <==> name in s.entries && now <= s.entries[name].expiresAt
    ensures NameState(s, name, now) == Claimable <==> name in s.entries && s.entries[name].graceEndsAt < now
  {
    assert name in s.entries ==> GoodEntry(name, s.entries[name]);
  }
}
