/**
 The registry contract: the entry of every name, dispute locks, and an owner index. Calls
 into the NFT and resolver contracts are returned as commands; a step commits only if
 they all succeed.
 */
module Registry {
  import opened Common
  import opened Lifecycle
  import opened Names
  import Index

  const DEFAULT_TTL_SECONDS: U64 := 31_536_000
  const MAX_METADATA_URI_LENGTH := 256

  datatype Entry = Entry(
    name: Str, owner: Address, resolver: Option<Str>, target: Option<Str>, metadataUri: Option<Str>,
    ttl: U64, registeredAt: U64, expiresAt: U64, graceEndsAt: U64, transferCount: U32)

  datatype Lock = Lock(until: U64, reason: Str)

  /** `Trap` stands for a failed authorization or a failed nested call. */
  datatype Error =
    | AlreadyRegistered | NotFound | NotYetClaimable | NotActive | Unauthorized | MetadataTooLong
    | Validation | InvalidExpiry | InvalidGracePeriod | Locked | Trap

  datatype State = State(
    admin: Option<Address>,
    disputeAdmin: Option<Address>,
    nft: Option<Address>,
    entries: map<Str, Entry>,
    locks: map<Str, Lock>,
    ownerNames: Index.Lists<Address, Str>)

  const Fresh := State(None, None, None, map[], map[], map[])

  datatype Command =
    | MintToken(name: Str, owner: Address, uri: Option<Str>, expiresAt: U64)
    | BurnToken(name: Str)
    | SyncTokenOwner(name: Str, owner: Address)
    | SyncTokenExpiry(name: Str, expiresAt: U64)
    | ClearReverse(resolver: Str, name: Str, previousOwner: Address)

  datatype Effect = Effect(state: State, commands: seq<Command>)

  // ----- checks -----

  predicate LockedAt(s: State, name: Str, now: U64) {
    name in s.locks && s.locks[name].until >= now
  }

  /** An elapsed lock is dropped on the way. */
  function EnsureUnlocked(s: State, name: Str, now: U64): Result<State, Error> {
    if name !in s.locks then Ok(s)
    else if s.locks[name].until >= now then Err(Locked)
    else Ok(s.(locks := s.locks - {name}))
  }

  function EnsureOwner(s: State, name: Str, caller: Address, now: U64): Result<(), Error> {
    if name !in s.entries then Err(NotFound)
    else if !ActiveAt(s.entries[name].expiresAt, now) then Err(NotActive)
    else if s.entries[name].owner != caller then Err(Unauthorized)
    else Ok(())
  }

  predicate MetadataFits(uri: Option<Str>) {
    uri.Some? ==> |uri.value| <= MAX_METADATA_URI_LENGTH
  }

  function ValidateTimestamps(now: U64, expiresAt: U64, graceEndsAt: U64): Result<(), Error> {
    if !ActiveAt(expiresAt, now) then Err(InvalidExpiry)
    else if graceEndsAt < expiresAt then Err(InvalidGracePeriod)
    else Ok(())
  }

  /** Commands for the NFT contract, issued only when one is configured. */
  function Token(s: State, c: Command): seq<Command> {
    if s.nft.Some? then [c] else []
  }

  // ----- entry points -----

  function Initialize(s: State, admin: Address): Result<Effect, Error> {
    if s.admin.Some? then Err(Unauthorized)
    else Ok(Effect(s.(admin := Some(admin), disputeAdmin := Some(admin)), []))
  }

  function SetNft(s: State, auth: set<Address>, nft: Address): Result<Effect, Error> {
    if s.admin.None? then Err(Unauthorized)
    else if s.admin.value !in auth then Err(Trap)
    else Ok(Effect(s.(nft := Some(nft)), []))
  }

  function SetDisputeAdmin(s: State, auth: set<Address>, admin: Address): Result<Effect, Error> {
    if s.admin.None? then Err(Unauthorized)
    else if s.admin.value !in auth then Err(Trap)
    else Ok(Effect(s.(disputeAdmin := Some(admin)), []))
  }

  /** The previous, claimable holder of a name, if any, is cleared out. */
  function Evict(s: State, name: Str): State {
    if name !in s.entries then s
    else s.(entries := s.entries - {name},
            ownerNames := Index.Remove(s.ownerNames, s.entries[name].owner, name))
  }

  function Register(s: State, auth: set<Address>, name: Str, owner: Address, target: Option<Str>, uri: Option<Str>,
                    now: U64, expiresAt: U64, graceEndsAt: U64): Result<Effect, Error> {
    var _ :- Check(owner in auth, Trap);
    var _ :- Check(IsFqdn(name), Validation);
    Admitted(s, name, owner, target, uri, now, expiresAt, graceEndsAt)
  }

  /** The part of `register` that follows authorization and grammar. */
  function Admitted(s: State, name: Str, owner: Address, target: Option<Str>, uri: Option<Str>,
                    now: U64, expiresAt: U64, graceEndsAt: U64): Result<Effect, Error> {
    var u :- EnsureUnlocked(s, name, now);
    Entered(u, name, owner, target, uri, now, expiresAt, graceEndsAt)
  }

  /** The part of `register` that follows the lock check. */
  function Entered(u: State, name: Str, owner: Address, target: Option<Str>, uri: Option<Str>,
                   now: U64, expiresAt: U64, graceEndsAt: U64): Result<Effect, Error> {
    var _ :- Check(MetadataFits(uri), MetadataTooLong);
    var _ :- ValidateTimestamps(now, expiresAt, graceEndsAt);
    var taken := name in u.entries;
    if taken && ActiveAt(u.entries[name].expiresAt, now) then Err(AlreadyRegistered)
    else if taken && !ClaimableAt(u.entries[name].graceEndsAt, now) then Err(NotYetClaimable)
    else
      var v := Evict(u, name);
      var entry := Entry(name, owner, None, target, uri, DEFAULT_TTL_SECONDS, now, expiresAt, graceEndsAt, 0);
      Ok(Effect(
        v.(entries := v.entries[name := entry], ownerNames := Index.Add(v.ownerNames, owner, name)),
        (if taken then Token(u, BurnToken(name)) else []) + Token(u, MintToken(name, owner, uri, expiresAt))))
  }

  function MoveEntry(s: State, name: Str, to: Address): State
    requires name in s.entries
  {
    var e := s.entries[name];
    s.(entries := s.entries[name := e.(owner := to, transferCount := SatInc(e.transferCount))],
       ownerNames := Index.Add(Index.Remove(s.ownerNames, e.owner, name), to, name))
  }

  function Transfer(s: State, auth: set<Address>, name: Str, caller: Address, to: Address, now: U64)
    : Result<Effect, Error>
  {
    var _ :- Check(caller in auth, Trap);
    var u :- EnsureUnlocked(s, name, now);
    var _ :- EnsureOwner(u, name, caller, now);
    var e := u.entries[name];
    Ok(Effect(MoveEntry(u, name, to),
              (if e.resolver.Some? then [ClearReverse(e.resolver.value, name, e.owner)] else [])
              + Token(s, SyncTokenOwner(name, to))))
  }

  /** `well` says whether the host accepts the resolver string as an address. */
  function SetResolver(s: State, auth: set<Address>, name: Str, caller: Address, resolver: Option<Str>, well: bool,
                       now: U64)
    : Result<Effect, Error>
  {
    var _ :- Check(caller in auth, Trap);
    var u :- EnsureUnlocked(s, name, now);
    var _ :- EnsureOwner(u, name, caller, now);
    var _ :- Check(resolver.Some? ==> well, Trap);
    Ok(Effect(u.(entries := u.entries[name := u.entries[name].(resolver := resolver)]), []))
  }

  function SetTarget(s: State, auth: set<Address>, name: Str, caller: Address, target: Option<Str>, now: U64)
    : Result<Effect, Error>
  {
    var _ :- Check(caller in auth, Trap);
    var u :- EnsureUnlocked(s, name, now);
    var _ :- EnsureOwner(u, name, caller, now);
    Ok(Effect(u.(entries := u.entries[name := u.entries[name].(target := target)]), []))
  }

  function SetMetadata(s: State, auth: set<Address>, name: Str, caller: Address, uri: Option<Str>, now: U64)
    : Result<Effect, Error>
  {
    var _ :- Check(caller in auth, Trap);
    var u :- EnsureUnlocked(s, name, now);
    var _ :- Check(MetadataFits(uri), MetadataTooLong);
    var _ :- EnsureOwner(u, name, caller, now);
    Ok(Effect(u.(entries := u.entries[name := u.entries[name].(metadataUri := uri)]), []))
  }

  /** The clock here is the ledger's. */
  function UpdateOwner(s: State, auth: set<Address>, name: Str, caller: Address, to: Address, now: U64)
    : Result<Effect, Error>
  {
    var _ :- Check(s.nft.Some?, Unauthorized);
    var _ :- Check(caller in auth, Trap);
    var _ :- Check(s.nft == Some(caller), Unauthorized);
    var _ :- Check(name in s.entries, NotFound);
    var u :- EnsureUnlocked(s, name, now);
    var _ :- Check(ActiveAt(u.entries[name].expiresAt, now), NotActive);
    Ok(Effect(MoveEntry(u, name, to), []))
  }

  function Renew(s: State, auth: set<Address>, name: Str, caller: Address, expiresAt: U64, graceEndsAt: U64, now: U64)
    : Result<Effect, Error>
  {
    var _ :- Check(caller in auth, Trap);
    var u :- EnsureUnlocked(s, name, now);
    Prolonged(u, name, caller, expiresAt, graceEndsAt, now)
  }

  /** The part of `renew` that follows the lock check. */
  function Prolonged(u: State, name: Str, caller: Address, expiresAt: U64, graceEndsAt: U64, now: U64)
    : Result<Effect, Error>
  {
    var _ :- Check(name in u.entries, NotFound);
    var e := u.entries[name];
    var _ :- Check(!ClaimableAt(e.graceEndsAt, now), NotActive);
    var _ :- Check(e.owner == caller, Unauthorized);
    var _ :- Check(expiresAt >= e.expiresAt, InvalidExpiry);
    var _ :- Check(graceEndsAt >= e.graceEndsAt, InvalidGracePeriod);
    var _ :- ValidateTimestamps(now, expiresAt, graceEndsAt);
    Ok(Effect(u.(entries := u.entries[name := e.(expiresAt := expiresAt, graceEndsAt := graceEndsAt)]),
              Token(u, SyncTokenExpiry(name, expiresAt))))
  }

  function Burn(s: State, auth: set<Address>, name: Str, caller: Address, now: U64): Result<Effect, Error> {
    var _ :- Check(caller in auth, Trap);
    var u :- EnsureUnlocked(s, name, now);
    var _ :- Check(name in u.entries, NotFound);
    var e := u.entries[name];
    var _ :- Check(e.owner == caller || ClaimableAt(e.graceEndsAt, now), Unauthorized);
    Ok(Effect(Evict(u, name), Token(s, BurnToken(name))))
  }

  function LockName(s: State, auth: set<Address>, name: Str, caller: Address, until: U64, reason: Str, now: U64)
    : Result<Effect, Error>
  {
    var _ :- Check(s.disputeAdmin.Some?, Unauthorized);
    var _ :- Check(caller in auth, Trap);
    var _ :- Check(s.disputeAdmin == Some(caller), Unauthorized);
    var _ :- Check(IsFqdn(name), Validation);
    var _ :- Check(name in s.entries, NotFound);
    var _ :- Check(until >= now, InvalidExpiry);
    Ok(Effect(s.(locks := s.locks[name := Lock(until, reason)]), []))
  }

  function UnlockName(s: State, auth: set<Address>, name: Str, caller: Address): Result<Effect, Error> {
    var _ :- Check(s.disputeAdmin.Some?, Unauthorized);
    var _ :- Check(caller in auth, Trap);
    var _ :- Check(s.disputeAdmin == Some(caller), Unauthorized);
    var _ :- Check(IsFqdn(name), Validation);
    var _ :- Check(name in s.locks, NotFound);
    Ok(Effect(s.(locks := s.locks - {name}), []))
  }

  /** `resolve` answers for a name that is active at the clock it is given. */
  predicate Resolves(entries: map<Str, Entry>, name: Str, now: U64) {
    name in entries && ActiveAt(entries[name].expiresAt, now)
  }

  function NameState(s: State, name: Str, now: U64): Phase {
    if name !in s.entries then Missing
    else PhaseAt(s.entries[name].expiresAt, s.entries[name].graceEndsAt, now)
  }

  /** Indexed names whose entry is missing or belongs to somebody else. */
  function Stale(s: State, owner: Address): Str -> bool {
    n => n !in s.entries || s.entries[n].owner != owner
  }

  function AuditOwnerIndex(s: State, owner: Address): seq<Str> {
    Filter(Index.Get(s.ownerNames, owner), Stale(s, owner))
  }

  // ----- runs -----

  datatype Call =
    | InitCall(admin: Address)
    | SetNftCall(auth: set<Address>, contract: Address)
    | SetDisputeAdminCall(auth: set<Address>, admin: Address)
    | RegisterCall(auth: set<Address>, name: Str, owner: Address, target: Option<Str>, uri: Option<Str>,
                   now: U64, expiresAt: U64, graceEndsAt: U64)
    | TransferCall(auth: set<Address>, name: Str, caller: Address, to: Address, now: U64)
    | SetResolverCall(auth: set<Address>, name: Str, caller: Address, resolver: Option<Str>, well: bool, now: U64)
    | SetTargetCall(auth: set<Address>, name: Str, caller: Address, target: Option<Str>, now: U64)
    | SetMetadataCall(auth: set<Address>, name: Str, caller: Address, uri: Option<Str>, now: U64)
    | UpdateOwnerCall(auth: set<Address>, name: Str, caller: Address, to: Address, now: U64)
    | RenewCall(auth: set<Address>, name: Str, caller: Address, expiresAt: U64, graceEndsAt: U64, now: U64)
    | BurnCall(auth: set<Address>, name: Str, caller: Address, now: U64)
    | LockCall(auth: set<Address>, name: Str, caller: Address, until: U64, reason: Str, now: U64)
    | UnlockCall(auth: set<Address>, name: Str, caller: Address)
  {
    /** Whether the call concerns `n`. */
    predicate On(n: Str) {
      !InitCall? && !SetNftCall? && !SetDisputeAdminCall? && name == n
    }

    /** Calls that a lock on their name refuses. */
    predicate Timed() {
      RegisterCall? || Rewrites() || Moves()
    }

    /** Calls that may rewrite an entry but not its owner. */
    predicate Rewrites() {
      SetResolverCall? || SetTargetCall? || SetMetadataCall? || RenewCall?
    }

    /** Calls that may move or delete an entry. */
    predicate Moves() {
      TransferCall? || UpdateOwnerCall? || BurnCall?
    }
  }

  function Outcome(s: State, c: Call): Result<Effect, Error> {
    match c
    case InitCall(admin) => Initialize(s, admin)
    case SetNftCall(auth, contract) => SetNft(s, auth, contract)
    case SetDisputeAdminCall(auth, admin) => SetDisputeAdmin(s, auth, admin)
    case RegisterCall(auth, name, owner, target, uri, now, expiresAt, graceEndsAt) =>
      Register(s, auth, name, owner, target, uri, now, expiresAt, graceEndsAt)
    case TransferCall(auth, name, caller, to, now) => Transfer(s, auth, name, caller, to, now)
    case SetResolverCall(auth, name, caller, resolver, well, now) =>
      SetResolver(s, auth, name, caller, resolver, well, now)
    case SetTargetCall(auth, name, caller, target, now) => SetTarget(s, auth, name, caller, target, now)
    case SetMetadataCall(auth, name, caller, uri, now) => SetMetadata(s, auth, name, caller, uri, now)
    case UpdateOwnerCall(auth, name, caller, to, now) => UpdateOwner(s, auth, name, caller, to, now)
    case RenewCall(auth, name, caller, expiresAt, graceEndsAt, now) =>
      Renew(s, auth, name, caller, expiresAt, graceEndsAt, now)
    case BurnCall(auth, name, caller, now) => Burn(s, auth, name, caller, now)
    case LockCall(auth, name, caller, until, reason, now) => LockName(s, auth, name, caller, until, reason, now)
    case UnlockCall(auth, name, caller) => UnlockName(s, auth, name, caller)
  }

  /** A call together with the verdict of the nested calls it may make. */
  datatype Event = Event(call: Call, nestedOk: bool)

  function Settled(outcome: Result<Effect, Error>, nestedOk: bool): Result<State, Error> {
    match outcome
    case Err(e) => Err(e)
    case Ok(effect) => if effect.commands == [] || nestedOk then Ok(effect.state) else Err(Trap)
  }

  function Step(s: State, e: Event): State {
    Commit(s, Settled(Outcome(s, e.call), e.nestedOk))
  }

  function Run(s: State, events: seq<Event>): State {
    if events == [] then s else Step(Run(s, events[..|events| - 1]), events[|events| - 1])
  }

  lemma RunStep(events: seq<Event>, e: Event)
    ensures Run(Fresh, events + [e]) == Step(Run(Fresh, events), e)
  {
    assert (events + [e])[..|events|] == events;
  }

  // ----- the invariant -----

  function OwnerOf(entries: map<Str, Entry>): map<Str, Address> {
    map n | n in entries :: entries[n].owner
  }

  ghost predicate GoodEntry(name: Str, e: Entry) {
    && e.name == name && MetadataFits(e.metadataUri)
    && e.registeredAt <= e.expiresAt <= e.graceEndsAt
  }

  /** A name is in an owner's list, once, iff its entry has that owner; every lock belongs to
      an entry; every lifecycle is ordered. */
  ghost predicate Inv(s: State) {
    && Index.Views(s.ownerNames, OwnerOf(s.entries))
    && s.locks.Keys <= s.entries.Keys
    && forall n :: n in s.entries ==> GoodEntry(n, s.entries[n])
  }

  /** Rewriting an entry without touching its owner. */
  lemma PutKeepsInv(s: State, t: State, name: Str, e: Entry)
    requires Inv(s) && name in s.entries && GoodEntry(name, e) && e.owner == s.entries[name].owner
    requires t.entries == s.entries[name := e] && t.ownerNames == s.ownerNames && t.locks.Keys <= s.entries.Keys
    ensures Inv(t)
  {
    assert OwnerOf(t.entries) == OwnerOf(s.entries);
  }

  lemma MoveKeepsInv(s: State, name: Str, to: Address)
    requires Inv(s) && name in s.entries
    ensures Inv(MoveEntry(s, name, to))
  {
    var t := MoveEntry(s, name, to);
    assert GoodEntry(name, s.entries[name]);
    assert OwnerOf(t.entries) == OwnerOf(s.entries)[name := to];
    Index.MoveViews(s.ownerNames, OwnerOf(s.entries), s.entries[name].owner, to, name);
  }

  lemma EvictKeepsInv(s: State, name: Str)
    requires Inv(s) && name !in s.locks
    ensures Inv(Evict(s, name))
  {
    if name in s.entries {
      assert OwnerOf(Evict(s, name).entries) == OwnerOf(s.entries) - {name};
      Index.RemoveViews(s.ownerNames, OwnerOf(s.entries), s.entries[name].owner, name);
    }
  }

  lemma EnterKeepsInv(s: State, t: State, name: Str, e: Entry)
    requires Inv(s) && name !in s.entries && GoodEntry(name, e)
    requires t == s.(entries := s.entries[name := e], ownerNames := Index.Add(s.ownerNames, e.owner, name))
    ensures Inv(t)
  {
    assert OwnerOf(t.entries) == OwnerOf(s.entries)[name := e.owner];
    Index.AddViews(s.ownerNames, OwnerOf(s.entries), e.owner, name);
  }

  lemma UnlockedKeepsInv(s: State, name: Str, now: U64)
    requires Inv(s) && EnsureUnlocked(s, name, now).Ok?
    ensures Inv(EnsureUnlocked(s, name, now).value) && name !in EnsureUnlocked(s, name, now).value.locks
  {
  }

  lemma RegisterIsEntered(s: State, c: Call)
    requires c.RegisterCall? && Outcome(s, c).Ok?
    ensures EnsureUnlocked(s, c.name, c.now).Ok?
    ensures var u := EnsureUnlocked(s, c.name, c.now).value;
            && u == s.(locks := u.locks) && u.locks.Keys <= s.locks.Keys && c.name !in u.locks
            && Outcome(s, c) == Entered(u, c.name, c.owner, c.target, c.uri, c.now, c.expiresAt, c.graceEndsAt)
  {
  }

  lemma EnteredWrites(u: State, name: Str, owner: Address, target: Option<Str>, uri: Option<Str>,
                      now: U64, expiresAt: U64, graceEndsAt: U64)
    requires Entered(u, name, owner, target, uri, now, expiresAt, graceEndsAt).Ok?
    ensures var v := Evict(u, name);
            var e := Entry(name, owner, None, target, uri, DEFAULT_TTL_SECONDS, now, expiresAt, graceEndsAt, 0);
            && GoodEntry(name, e)
            && Entered(u, name, owner, target, uri, now, expiresAt, graceEndsAt).value.state
               == v.(entries := v.entries[name := e], ownerNames := Index.Add(v.ownerNames, owner, name))
  {
  }

  lemma RegisterKeepsInv(s: State, c: Call)
    requires Inv(s) && c.RegisterCall? && Outcome(s, c).Ok?
    ensures Inv(Outcome(s, c).value.state)
  {
    var t, u := Outcome(s, c).value.state, EnsureUnlocked(s, c.name, c.now).value;
    RegisterIsEntered(s, c);
    UnlockedKeepsInv(s, c.name, c.now);
    EvictKeepsInv(u, c.name);
    EnteredWrites(u, c.name, c.owner, c.target, c.uri, c.now, c.expiresAt, c.graceEndsAt);
    EnterKeepsInv(Evict(u, c.name), t, c.name, t.entries[c.name]);
  }

  lemma MovesKeepInv(s: State, c: Call)
    requires Inv(s) && (c.TransferCall? || c.UpdateOwnerCall?) && Outcome(s, c).Ok?
    ensures Inv(Outcome(s, c).value.state)
  {
    UnlockedKeepsInv(s, c.name, c.now);
    MoveKeepsInv(EnsureUnlocked(s, c.name, c.now).value, c.name, c.to);
  }

  lemma BurnKeepsInv(s: State, c: Call)
    requires Inv(s) && c.BurnCall? && Outcome(s, c).Ok?
    ensures Inv(Outcome(s, c).value.state)
  {
    UnlockedKeepsInv(s, c.name, c.now);
    EvictKeepsInv(EnsureUnlocked(s, c.name, c.now).value, c.name);
  }

  lemma SetterWrites(s: State, c: Call)
    requires c.Rewrites() && !c.RenewCall? && Outcome(s, c).Ok?
    ensures var t := Outcome(s, c).value.state;
            && c.name in s.entries && t.ownerNames == s.ownerNames && t.locks.Keys <= s.locks.Keys
            && t.nft == s.nft && Outcome(s, c).value.commands == []
            && exists resolver, target, uri ::
                 && t.entries ==
                    s.entries[c.name := s.entries[c.name].(resolver := resolver, target := target, metadataUri := uri)]
                 && (uri == s.entries[c.name].metadataUri || MetadataFits(uri))
  {
    var e := Outcome(s, c).value.state.entries[c.name];
    assert e == s.entries[c.name].(resolver := e.resolver, target := e.target, metadataUri := e.metadataUri);
  }

  lemma SettersKeepInv(s: State, c: Call)
    requires Inv(s) && c.Rewrites() && !c.RenewCall? && Outcome(s, c).Ok?
    ensures Inv(Outcome(s, c).value.state)
  {
    var t := Outcome(s, c).value.state;
    SetterWrites(s, c);
    assert GoodEntry(c.name, s.entries[c.name]);
    PutKeepsInv(s, t, c.name, t.entries[c.name]);
  }

  lemma RenewKeepsInv(s: State, c: Call)
    requires Inv(s) && c.RenewCall? && Outcome(s, c).Ok?
    ensures Inv(Outcome(s, c).value.state)
  {
    var t := Outcome(s, c).value.state;
    assert GoodEntry(c.name, s.entries[c.name]);
    PutKeepsInv(s, t, c.name, t.entries[c.name]);
  }

  lemma OutcomeKeepsInv(s: State, c: Call)
    requires Inv(s) && Outcome(s, c).Ok?
    ensures Inv(Outcome(s, c).value.state)
  {
    if c.RegisterCall? {
      RegisterKeepsInv(s, c);
    } else if c.BurnCall? {
      BurnKeepsInv(s, c);
    } else if c.Moves() {
      MovesKeepInv(s, c);
    } else if c.RenewCall? {
      RenewKeepsInv(s, c);
    } else if c.Rewrites() {
      SettersKeepInv(s, c);
    }
  }

  lemma {:induction false} RunKeepsInv(events: seq<Event>)
    ensures Inv(Run(Fresh, events))
  {
    if events == [] {
      assert OwnerOf(Fresh.entries) == map[];
    } else {
      var before, last := Run(Fresh, events[..|events| - 1]), events[|events| - 1];
      RunKeepsInv(events[..|events| - 1]);
      if Outcome(before, last.call).Ok? {
        OutcomeKeepsInv(before, last.call);
      }
    }
  }

  lemma StepNames(s: State, e: Event, n: Str)
    requires n in Step(s, e).entries && n !in s.entries
    ensures IsFqdn(n)
  {
    if e.call.RegisterCall? {
      RegisterFrame(s, e.call, n);
    } else if e.call.BurnCall? {
      BurnEffect(s, e.call);
    } else if e.call.Moves() {
      MovesFrame(s, e.call, n);
    } else if e.call.RenewCall? {
      RenewEffect(s, e.call);
    } else if e.call.Rewrites() {
      RewritesFrame(s, e.call, n);
    } else {
      OtherFrame(s, e.call, n);
    }
  }

  /** Every entry of every run has an accepted name, so the grammar check of `resolve` never
      decides. */
  lemma {:induction false} RunNames(events: seq<Event>, n: Str)
    requires n in Run(Fresh, events).entries
    ensures IsFqdn(n)
  {
    if events != [] {
      var front := events[..|events| - 1];
      if n in Run(Fresh, front).entries {
        RunNames(front, n);
      } else {
        StepNames(Run(Fresh, front), events[|events| - 1], n);
      }
    }
  }

  lemma InvLeavesNothingStale(s: State, owner: Address)
    requires Inv(s)
    ensures AuditOwnerIndex(s, owner) == []
  {
    forall n | n in Index.Get(s.ownerNames, owner) ensures !Stale(s, owner)(n) {
      assert n in OwnerOf(s.entries) && OwnerOf(s.entries)[n] == owner;
    }
    FilterNone(Index.Get(s.ownerNames, owner), Stale(s, owner));
  }

  /** The audit finds nothing, for any owner, in any reachable state. */
  lemma AuditAlwaysEmpty(events: seq<Event>, owner: Address)
    ensures AuditOwnerIndex(Run(Fresh, events), owner) == []
  {
    RunKeepsInv(events);
    InvLeavesNothingStale(Run(Fresh, events), owner);
  }

  // ----- what each call does to the entries -----

  lemma RegisterEffect(s: State, c: Call)
    requires c.RegisterCall? && Outcome(s, c).Ok?
    ensures var o := Outcome(s, c).value;
            && o.state.entries == s.entries[c.name := Entry(c.name, c.owner, None, c.target, c.uri, DEFAULT_TTL_SECONDS,
                                                            c.now, c.expiresAt, c.graceEndsAt, 0)]
            && o.state.nft == s.nft && o.state.locks.Keys <= s.locks.Keys
            && o.commands == (if c.name in s.entries then Token(s, BurnToken(c.name)) else [])
                             + Token(s, MintToken(c.name, c.owner, c.uri, c.expiresAt))
  {
    RegisterIsEntered(s, c);
    EnteredWrites(EnsureUnlocked(s, c.name, c.now).value, c.name, c.owner, c.target, c.uri, c.now, c.expiresAt,
                  c.graceEndsAt);
    assert (s.entries - {c.name})[c.name := Outcome(s, c).value.state.entries[c.name]]
        == s.entries[c.name := Outcome(s, c).value.state.entries[c.name]];
  }

  lemma RenewEffect(s: State, c: Call)
    requires c.RenewCall? && Outcome(s, c).Ok?
    ensures var o := Outcome(s, c).value;
            && c.name in s.entries
            && o.state.entries ==
               s.entries[c.name := s.entries[c.name].(expiresAt := c.expiresAt, graceEndsAt := c.graceEndsAt)]
            && o.state.nft == s.nft && o.state.locks.Keys <= s.locks.Keys
            && o.commands == Token(s, SyncTokenExpiry(c.name, c.expiresAt))
  {
  }

  lemma BurnEffect(s: State, c: Call)
    requires c.BurnCall? && Outcome(s, c).Ok?
    ensures var o := Outcome(s, c).value;
            && c.name in s.entries && o.state.entries == s.entries - {c.name}
            && o.state.nft == s.nft
            && o.commands == Token(s, BurnToken(c.name))
  {
  }

  lemma TransferEffect(s: State, c: Call)
    requires c.TransferCall? && Outcome(s, c).Ok?
    ensures var o := Outcome(s, c).value;
            && c.name in s.entries
            && var e := s.entries[c.name];
            && o.state.entries == s.entries[c.name := e.(owner := c.to, transferCount := SatInc(e.transferCount))]
            && o.state.nft == s.nft
            && o.commands == (if e.resolver.Some? then [ClearReverse(e.resolver.value, c.name, e.owner)] else [])
                             + Token(s, SyncTokenOwner(c.name, c.to))
  {
  }

  // ----- ownership safety -----

  /** The only ways a name leaves its owner. */
  predicate MayLeave(s: State, c: Call, n: Str)
    requires n in s.entries
  {
    var e := s.entries[n];
    || (c.TransferCall? && c.name == n && c.caller == e.owner && e.owner in c.auth && ActiveAt(e.expiresAt, c.now))
    || (c.BurnCall? && c.name == n && c.caller == e.owner && e.owner in c.auth)
    || (c.UpdateOwnerCall? && c.name == n && s.nft == Some(c.caller) && c.caller in c.auth
        && ActiveAt(e.expiresAt, c.now))
    || ((c.BurnCall? || c.RegisterCall?) && c.name == n && ClaimableAt(e.graceEndsAt, c.now))
  }

  predicate Keeps(s: State, t: State, n: Str) {
    n in s.entries ==> n in t.entries && t.entries[n].owner == s.entries[n].owner
  }

  predicate SameAt(s: State, t: State, n: Str) {
    && (n in s.entries <==> n in t.entries)
    && (n in s.entries ==> t.entries[n] == s.entries[n])
    && (n in s.locks <==> n in t.locks)
    && (n in s.locks ==> t.locks[n] == s.locks[n])
  }

  /** The lifecycle dates of `n`, or its absence, are the same. */
  predicate DatesKept(s: State, t: State, n: Str) {
    && (n in s.entries <==> n in t.entries)
    && (n in s.entries ==>
          && t.entries[n].registeredAt == s.entries[n].registeredAt
          && t.entries[n].expiresAt == s.entries[n].expiresAt
          && t.entries[n].graceEndsAt == s.entries[n].graceEndsAt)
  }

  lemma RewritesFrame(s: State, c: Call, n: Str)
    requires c.Rewrites() && Outcome(s, c).Ok?
    ensures Keeps(s, Outcome(s, c).value.state, n)
    ensures c.name != n ==> SameAt(s, Outcome(s, c).value.state, n)
    ensures !c.RenewCall? ==> DatesKept(s, Outcome(s, c).value.state, n)
  {
  }

  lemma RegisterFrame(s: State, c: Call, n: Str)
    requires c.RegisterCall? && Outcome(s, c).Ok?
    ensures c.name != n ==> SameAt(s, Outcome(s, c).value.state, n)
    ensures c.name == n && n in s.entries ==> ClaimableAt(s.entries[n].graceEndsAt, c.now)
  {
  }

  lemma BurnFrame(s: State, c: Call, n: Str)
    requires c.BurnCall? && Outcome(s, c).Ok?
    ensures c.name != n ==> SameAt(s, Outcome(s, c).value.state, n)
    ensures n in s.entries && !MayLeave(s, c, n) ==> Keeps(s, Outcome(s, c).value.state, n)
  {
  }

  lemma MovesFrame(s: State, c: Call, n: Str)
    requires (c.TransferCall? || c.UpdateOwnerCall?) && Outcome(s, c).Ok?
    ensures c.name != n ==> SameAt(s, Outcome(s, c).value.state, n)
    ensures n in s.entries && !MayLeave(s, c, n) ==> Keeps(s, Outcome(s, c).value.state, n)
    ensures DatesKept(s, Outcome(s, c).value.state, n)
  {
  }

  lemma OtherFrame(s: State, c: Call, n: Str)
    requires !c.RegisterCall? && !c.Moves() && !c.Rewrites() && Outcome(s, c).Ok?
    ensures Keeps(s, Outcome(s, c).value.state, n)
    ensures !c.On(n) ==> SameAt(s, Outcome(s, c).value.state, n)
    ensures DatesKept(s, Outcome(s, c).value.state, n)
  {
  }

  /** A call touches no entry and no lock but those of the name it is about, and takes a name
      from its owner only in the four ways of `MayLeave`. */
  lemma StepFrame(s: State, e: Event, n: Str)
    ensures !e.call.On(n) ==> SameAt(s, Step(s, e), n)
    ensures n in s.entries && !MayLeave(s, e.call, n) ==> Keeps(s, Step(s, e), n)
  {
    if Outcome(s, e.call).Ok? {
      if e.call.RegisterCall? {
        RegisterFrame(s, e.call, n);
      } else if e.call.BurnCall? {
        BurnFrame(s, e.call, n);
      } else if e.call.Moves() {
        MovesFrame(s, e.call, n);
      } else if e.call.Rewrites() {
        RewritesFrame(s, e.call, n);
      } else {
        OtherFrame(s, e.call, n);
      }
    }
  }

  /** The step at `i` is where `n` first leaves the owner it had, in one of those ways. */
  ghost predicate LeavesAt(s: State, events: seq<Event>, n: Str, i: nat)
    requires n in s.entries && i < |events|
  {
    && Keeps(s, Run(s, events[..i]), n) && !Keeps(s, Run(s, events[..i + 1]), n)
    && MayLeave(Run(s, events[..i]), events[i].call, n)
  }

  lemma StepLeaves(s: State, before: State, e: Event, n: Str)
    requires n in s.entries && Keeps(s, before, n) && !Keeps(s, Step(before, e), n)
    ensures MayLeave(before, e.call, n)
  {
    StepFrame(before, e, n);
  }

  lemma LastStepLeaves(s: State, events: seq<Event>, n: Str)
    requires n in s.entries && events != []
    requires Keeps(s, Run(s, events[..|events| - 1]), n) && !Keeps(s, Run(s, events), n)
    ensures LeavesAt(s, events, n, |events| - 1)
  {
    StepLeaves(s, Run(s, events[..|events| - 1]), events[|events| - 1], n);
    assert events[..|events| - 1 + 1] == events;
  }

  lemma LeavesAtExtends(s: State, events: seq<Event>, n: Str, i: nat)
    requires n in s.entries && i + 1 < |events| && LeavesAt(s, events[..|events| - 1], n, i)
    ensures LeavesAt(s, events, n, i)
  {
    var front := events[..|events| - 1];
    assert front[..i] == events[..i] && front[..i + 1] == events[..i + 1] && front[i] == events[i];
  }

  /** Over any run from any state: if a name's owner has changed or the name is gone, the step
      that took it from the owner it had was that owner's active transfer, that owner's burn,
      the NFT contract's update while active, or came after the grace period. */
  lemma {:induction false} OwnershipSafety(s: State, events: seq<Event>, n: Str)
    requires n in s.entries && !Keeps(s, Run(s, events), n)
    ensures exists i :: 0 <= i < |events| && LeavesAt(s, events, n, i)
  {
    var front := events[..|events| - 1];
    if Keeps(s, Run(s, front), n) {
      LastStepLeaves(s, events, n);
    } else {
      OwnershipSafety(s, front, n);
      var i :| 0 <= i < |front| && LeavesAt(s, front, n, i);
      LeavesAtExtends(s, events, n, i);
    }
  }

  /** The clock is the caller's own argument, never compared with the ledger's: somebody else can
      burn a name by naming a late enough clock, unless its grace period or its lock never ends. */
  lemma StrangerBurnsIff(s: State, n: Str, who: Address)
    requires n in s.entries && s.entries[n].owner != who
    ensures (exists now :: Burn(s, {who}, n, who, now).Ok?) <==>
            s.entries[n].graceEndsAt < U64_MAX && (n in s.locks ==> s.locks[n].until < U64_MAX)
  {
    if s.entries[n].graceEndsAt < U64_MAX && (n in s.locks ==> s.locks[n].until < U64_MAX) {
      assert Burn(s, {who}, n, who, U64_MAX).Ok?;
    }
  }

  // ----- dispute locks -----

  /** Steps that neither replace nor remove the lock of `n` and whose clock has not passed it. */
  predicate RespectsLock(e: Event, n: Str, until: U64) {
    e.call.On(n) ==> !e.call.LockCall? && !e.call.UnlockCall? && e.call.now <= until
  }

  lemma LockedStepFrozen(s: State, e: Event, n: Str)
    requires n in s.locks && RespectsLock(e, n, s.locks[n].until)
    ensures SameAt(s, Step(s, e), n)
  {
    if e.call.On(n) {
      assert EnsureUnlocked(s, n, e.call.now) == Err(Locked);
      assert Outcome(s, e.call).Err?;
    } else {
      StepFrame(s, e, n);
    }
  }

  /** While a lock stands and the clocks stay within it, the entry is completely unchanged,
      over every run. */
  lemma {:induction false} LockFreezes(s: State, events: seq<Event>, n: Str)
    requires n in s.locks && n in s.entries
    requires forall i :: 0 <= i < |events| ==> RespectsLock(events[i], n, s.locks[n].until)
    ensures n in Run(s, events).entries && Run(s, events).entries[n] == s.entries[n]
    ensures n in Run(s, events).locks && Run(s, events).locks[n] == s.locks[n]
  {
    if events != [] {
      LockFreezes(s, events[..|events| - 1], n);
      LockedStepFrozen(Run(s, events[..|events| - 1]), events[|events| - 1], n);
    }
  }
}
