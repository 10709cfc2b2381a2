/**
 The three contracts that hold a name together: registrar, registry and NFT, with the
 nested calls between them. A call either commits in all of them or in none.
 */
module NameService {
  import opened Common
  import opened Lifecycle
  import Names
  import Nft
  import Registrar
  import Registry

  datatype System = System(
    registryAddress: Address,
    nftAddress: Address,
    registrar: Registrar.State,
    registry: Registry.State,
    nft: Nft.State)

  // ----- nested calls -----

  /** One nested call of the registry. A call back into the registry is refused by the host,
      so a set registry pointer makes `mint` trap; other contracts answer `foreignOk`. */
  function Execute(nft: Nft.State, auth: set<Address>, c: Registry.Command, foreignOk: bool)
    : Result<Nft.State, Nft.Error>
  {
    match c
    case MintToken(name, owner, uri, expiresAt) => Nft.Mint(nft, auth, name, owner, uri, expiresAt, false)
    case BurnToken(name) => Nft.Burn(nft, auth, name)
    case SyncTokenOwner(name, owner) => Nft.SyncOwner(nft, auth, name, owner)
    case SyncTokenExpiry(name, expiresAt) => Nft.SyncExpiry(nft, auth, name, expiresAt)
    case ClearReverse(_, _, _) => if foreignOk then Ok(nft) else Err(Nft.Trap)
  }

  function ExecuteAll(nft: Nft.State, auth: set<Address>, cs: seq<Registry.Command>, foreignOk: bool)
    : Result<Nft.State, Nft.Error>
    decreases |cs|
  {
    if cs == [] then Ok(nft)
    else
      var next :- Execute(nft, auth, cs[0], foreignOk);
      ExecuteAll(next, auth, cs[1..], foreignOk)
  }

  function Authority(c: Registry.Call): set<Address> {
    if c.InitCall? then {} else c.auth
  }

  /** The commands of a registry call, run against our NFT contract if it is the configured
      one; the registry is their invoker. */
  function Nested(sys: System, c: Registry.Call, cs: seq<Registry.Command>, foreignOk: bool)
    : Result<Nft.State, Nft.Error>
  {
    if sys.registry.nft == Some(sys.nftAddress)
    then ExecuteAll(sys.nft, Authority(c) + {sys.registryAddress}, cs, foreignOk)
    else if cs == [] || foreignOk then Ok(sys.nft) else Err(Nft.Trap)
  }

  function OnRegistry(sys: System, c: Registry.Call, foreignOk: bool): Result<System, ()> {
    match Registry.Outcome(sys.registry, c)
    case Err(_) => Err(())
    case Ok(effect) =>
      match Nested(sys, c, effect.commands, foreignOk)
      case Err(_) => Err(())
      case Ok(nft) => Ok(sys.(registry := effect.state, nft := nft))
  }

  function HandOver(sys: System, h: Result<Registrar.Handoff, Registrar.Error>, foreignOk: bool): Result<System, ()> {
    match h
    case Err(_) => Err(())
    case Ok(handoff) =>
      match OnRegistry(sys, handoff.call, foreignOk)
      case Err(_) => Err(())
      case Ok(after) => Ok(after.(registrar := handoff.state))
  }

  function OnRegistrar(sys: System, r: Result<Registrar.State, Registrar.Error>): Result<System, ()> {
    match r
    case Err(_) => Err(())
    case Ok(registrar) => Ok(sys.(registrar := registrar))
  }

  // ----- runs -----

  datatype Call =
    | RegisterLabel(auth: set<Address>, lbl: Str, owner: Address, years: U64, maxPrice: U64, now: U64)
    | RenewName(auth: set<Address>, name: Str, caller: Address, years: U64, payment: U64, now: U64)
    | ExtendName(auth: set<Address>, name: Str, caller: Address, years: U64, payment: U64, now: U64)
    | SetGrace(auth: set<Address>, seconds: U64)
    | SetRate(auth: set<Address>, rate: Registrar.RateLimit)
    | SetListed(auth: set<Address>, who: Address, listed: bool)
    | Reserve(auth: set<Address>, lbl: Str)
    | Load(auth: set<Address>, labels: seq<Str>)
    | ToRegistry(call: Registry.Call)
    | ToNft(op: Nft.Call)
  {
    predicate IsRegistrar() {
      !ToRegistry? && !ToNft?
    }

    /** Calls the registrar hands on to the registry. */
    predicate Requests() {
      RegisterLabel? || RenewName? || ExtendName?
    }
  }

  datatype Event = Event(call: Call, foreignOk: bool)

  /** The registrar's own verdict on a registration or renewal. */
  function Request(r: Registrar.State, c: Call): Result<Registrar.Handoff, Registrar.Error>
    requires c.Requests()
  {
    match c
    case RegisterLabel(auth, lbl, owner, years, maxPrice, now) =>
      Registrar.Register(r, auth, lbl, owner, years, maxPrice, now)
    case RenewName(auth, name, caller, years, payment, now) =>
      Registrar.Renew(r, auth, name, caller, years, payment, now)
    case ExtendName(auth, name, caller, years, payment, now) =>
      Registrar.ExtendDuringGrace(r, auth, name, caller, years, payment, now)
  }

  function Administer(r: Registrar.State, c: Call): Result<Registrar.State, Registrar.Error>
    requires c.SetGrace? || c.SetRate? || c.SetListed? || c.Reserve? || c.Load?
  {
    match c
    case SetGrace(auth, seconds) => Registrar.SetGracePeriod(r, auth, seconds)
    case SetRate(auth, rate) => Registrar.SetRateLimit(r, auth, rate)
    case SetListed(auth, who, listed) => Registrar.SetWhitelisted(r, auth, who, listed)
    case Reserve(auth, lbl) => Registrar.ReserveLabel(r, auth, lbl)
    case Load(auth, labels) => Registrar.LoadManifest(r, auth, labels)
  }

  function OnNft(sys: System, c: Nft.Call): Result<System, ()> {
    match Nft.Outcome(sys.nft, c)
    case Err(_) => Err(())
    case Ok(nft) => Ok(sys.(nft := nft))
  }

  function Outcome(sys: System, e: Event): Result<System, ()> {
    if e.call.ToRegistry? then OnRegistry(sys, e.call.call, e.foreignOk)
    else if e.call.ToNft? then OnNft(sys, e.call.op)
    else if e.call.Requests() then HandOver(sys, Request(sys.registrar, e.call), e.foreignOk)
    else OnRegistrar(sys, Administer(sys.registrar, e.call))
  }

  function Step(sys: System, e: Event): System {
    Commit(sys, Outcome(sys, e))
  }

  function Run(sys: System, events: seq<Event>): System {
    if events == [] then sys else Step(Run(sys, events[..|events| - 1]), events[|events| - 1])
  }

  // ----- the two contracts agree on the dates -----

  predicate DatesEqual(r: Registrar.Record, e: Registry.Entry) {
    r.registeredAt == e.registeredAt && r.expiresAt == e.expiresAt && r.graceEndsAt == e.graceEndsAt
  }

  ghost predicate Agree(sys: System) {
    && sys.registrar.records.Keys == sys.registry.entries.Keys
    && forall n :: n in sys.registrar.records ==> DatesEqual(sys.registrar.records[n], sys.registry.entries[n])
  }

  /** Everything but direct registration, renewal or burning in the registry. */
  predicate DateSafe(c: Call) {
    c.ToRegistry? ==> !c.call.RegisterCall? && !c.call.RenewCall? && !c.call.BurnCall?
  }

  /** What a request that passed the registrar's checks carries: one record rewritten to the
      dates of the call, and a call the registry has no reason to refuse, provided both
      contracts were in step. */
  ghost predicate Sound(r: Registrar.State, h: Registrar.Handoff) {
    && (h.call.RegisterCall? || h.call.RenewCall?)
    && h.call.name in h.state.records
    && var record := h.state.records[h.call.name];
    && h.state.records == r.records[h.call.name := record]
    && h.state.grace == r.grace
    && record.expiresAt == h.call.expiresAt && record.graceEndsAt == h.call.graceEndsAt
    && record.graceEndsAt == GraceEnd(record.expiresAt, r.grace)
    && h.call.now <= record.expiresAt
    && if h.call.RegisterCall? then
         && record.registeredAt == h.call.now && record.owner == h.call.owner && h.call.owner in h.call.auth
         && Names.IsFqdn(h.call.name) && h.call.uri == None
         && (h.call.name in r.records ==> ClaimableAt(r.records[h.call.name].graceEndsAt, h.call.now))
       else
         && h.call.name in r.records
         && var was := r.records[h.call.name];
         && record.registeredAt == was.registeredAt
         && record.owner == was.owner == h.call.caller && h.call.caller in h.call.auth
         && !ClaimableAt(was.graceEndsAt, h.call.now)
         && was.expiresAt <= record.expiresAt
         && GraceEnd(was.expiresAt, MAX_GRACE) <= record.graceEndsAt
  }

  lemma RegisterIsSound(r: Registrar.State, c: Call)
    requires c.RegisterLabel? && Request(r, c).Ok?
    ensures Sound(r, Request(r, c).value)
  {
    Names.BuildThenExtract(c.lbl);
  }

  lemma RenewIsSound(r: Registrar.State, c: Call)
    requires (c.RenewName? || c.ExtendName?) && Request(r, c).Ok?
    ensures Sound(r, Request(r, c).value)
  {
    RenewalNeverShrinks(r.records[c.name].expiresAt, MAX_GRACE, r.grace, c.now, c.years);
  }

  lemma RequestIsSound(r: Registrar.State, c: Call)
    requires c.Requests() && Request(r, c).Ok?
    ensures Sound(r, Request(r, c).value)
  {
    if c.RegisterLabel? {
      RegisterIsSound(r, c);
    } else {
      RenewIsSound(r, c);
    }
  }

  lemma RegistryCallsKeepDates(s: Registry.State, c: Registry.Call, n: Str)
    requires !c.RegisterCall? && !c.RenewCall? && !c.BurnCall?
    requires Registry.Outcome(s, c).Ok?
    ensures Registry.DatesKept(s, Registry.Outcome(s, c).value.state, n)
  {
    if c.Moves() {
      Registry.MovesFrame(s, c, n);
    } else if c.Rewrites() {
      Registry.RewritesFrame(s, c, n);
    } else {
      Registry.OtherFrame(s, c, n);
    }
  }

  lemma CommitKeepsAgreement(sys: System, after: System, h: Registrar.Handoff)
    requires Agree(sys) && Sound(sys.registrar, h)
    requires Registry.Outcome(sys.registry, h.call).Ok?
    requires after.registrar == h.state && after.registry == Registry.Outcome(sys.registry, h.call).value.state
    ensures Agree(after)
  {
    var n := h.call.name;
    assert n in sys.registrar.records ==> DatesEqual(sys.registrar.records[n], sys.registry.entries[n]);
    if h.call.RegisterCall? {
      Registry.RegisterEffect(sys.registry, h.call);
    } else {
      Registry.RenewEffect(sys.registry, h.call);
    }
  }

  lemma KeptDatesAgree(sys: System, after: System)
    requires Agree(sys) && after.registrar == sys.registrar
    requires forall n :: Registry.DatesKept(sys.registry, after.registry, n)
    ensures Agree(after)
  {
    forall n ensures n in sys.registry.entries <==> n in after.registry.entries {
      assert Registry.DatesKept(sys.registry, after.registry, n);
    }
    forall n | n in after.registrar.records ensures DatesEqual(after.registrar.records[n], after.registry.entries[n]) {
      assert DatesEqual(sys.registrar.records[n], sys.registry.entries[n]);
      assert Registry.DatesKept(sys.registry, after.registry, n);
    }
  }

  lemma RegistryStepKeepsAgreement(sys: System, after: System, c: Registry.Call)
    requires Agree(sys) && DateSafe(ToRegistry(c)) && Registry.Outcome(sys.registry, c).Ok?
    requires after.registrar == sys.registrar && after.registry == Registry.Outcome(sys.registry, c).value.state
    ensures Agree(after)
  {
    forall n ensures Registry.DatesKept(sys.registry, after.registry, n) {
      RegistryCallsKeepDates(sys.registry, c, n);
    }
    KeptDatesAgree(sys, after);
  }

  lemma StepKeepsAgreement(sys: System, e: Event)
    requires Agree(sys) && DateSafe(e.call)
    ensures Agree(Step(sys, e))
  {
    if Outcome(sys, e).Ok? {
      if e.call.Requests() {
        RequestIsSound(sys.registrar, e.call);
        CommitKeepsAgreement(sys, Step(sys, e), Request(sys.registrar, e.call).value);
      } else if e.call.ToRegistry? {
        RegistryStepKeepsAgreement(sys, Step(sys, e), e.call.call);
      }
    }
  }

  /** Starting empty, registrar and registry hold the same names with the same dates in every
      run of registrar calls interleaved with any registry call but a direct registration,
      renewal or burn, whatever the NFT and resolver contracts do. */
  lemma {:induction false} RunKeepsAgreement(sys: System, events: seq<Event>)
    requires sys.registrar.records == map[] && sys.registry.entries == map[]
    requires forall i :: 0 <= i < |events| ==> DateSafe(events[i].call)
    ensures Agree(Run(sys, events))
  {
    if events != [] {
      RunKeepsAgreement(sys, events[..|events| - 1]);
      StepKeepsAgreement(Run(sys, events[..|events| - 1]), events[|events| - 1]);
    }
  }

  function StatusOf(p: Phase): Registrar.Status {
    match p
    case Missing => Registrar.Status.Unavailable
    case Active => Registrar.Status.Active
    case GracePeriod => Registrar.Status.GracePeriod
    case Claimable => Registrar.Status.Claimable
  }

  lemma AgreeingStatuses(r: Registrar.State, g: Registry.State, lbl: Str, name: Str, now: U64)
    requires Names.BuildXlmName(lbl) == Ok(name) && lbl !in r.reserved
    requires name in r.records <==> name in g.entries
    requires name in r.records ==> DatesEqual(r.records[name], g.entries[name])
    ensures Registrar.RegistrationStatus(r, lbl, now) == StatusOf(Registry.NameState(g, name, now))
  {
  }

  /** Hence `registration_status` and `name_state` agree at every clock, reserved labels aside. */
  lemma StatusesAgree(sys: System, events: seq<Event>, lbl: Str, now: U64)
    requires sys.registrar.records == map[] && sys.registry.entries == map[]
    requires forall i :: 0 <= i < |events| ==> DateSafe(events[i].call)
    requires Names.IsLabel(lbl) && lbl !in Run(sys, events).registrar.reserved
    ensures var s := Run(sys, events);
            Registrar.RegistrationStatus(s.registrar, lbl, now) ==
            StatusOf(Registry.NameState(s.registry, Names.BuildXlmName(lbl).value, now))
  {
    RunKeepsAgreement(sys, events);
    Names.BuildThenExtract(lbl);
    AgreeingStatuses(Run(sys, events).registrar, Run(sys, events).registry, lbl, Names.BuildXlmName(lbl).value, now);
  }

  // ----- the NFT contract mirrors the registry -----

  predicate MirrorsAt(e: Registry.Entry, t: Nft.Token) {
    t.owner == e.owner && t.expiresAt == e.expiresAt
  }

  ghost predicate Mirrors(entries: map<Str, Registry.Entry>, tokens: map<Str, Nft.Token>) {
    && entries.Keys == tokens.Keys
    && forall n :: n in entries ==> MirrorsAt(entries[n], tokens[n])
  }

  /** The registry administers the NFT contract, whose own registry pointer is unset. */
  ghost predicate Wired(sys: System) {
    && sys.registry.nft == Some(sys.nftAddress)
    && sys.nft.admin == Some(sys.registryAddress)
    && sys.nft.registry == None
  }

  ghost predicate Mirrored(sys: System) {
    Wired(sys) && Mirrors(sys.registry.entries, sys.nft.tokens)
  }

  /** No outside caller carries a contract's authorization; the NFT pointer is left alone and
      tokens are not traded directly. */
  predicate MirrorSafe(sys: System, c: Call) {
    match c
    case ToRegistry(call) =>
      !call.SetNftCall? && sys.registryAddress !in Authority(call) && sys.nftAddress !in Authority(call)
    case ToNft(op) =>
      && !op.TransferCall? && !op.TransferFromCall?
      && (op.SetRegistryCall? || op.MintCall? || op.BurnCall? || op.SyncExpiryCall? || op.SyncOwnerCall? ==>
          sys.registryAddress !in op.auth)
    case _ => true
  }

  lemma ExecuteOne(nft: Nft.State, auth: set<Address>, c: Registry.Command, foreignOk: bool)
    ensures ExecuteAll(nft, auth, [c], foreignOk) == Execute(nft, auth, c, foreignOk)
  {
  }

  lemma ExecuteTwo(nft: Nft.State, auth: set<Address>, c: Registry.Command, d: Registry.Command, foreignOk: bool)
    ensures ExecuteAll(nft, auth, [c, d], foreignOk) ==
            if Execute(nft, auth, c, foreignOk).Err? then Execute(nft, auth, c, foreignOk)
            else Execute(Execute(nft, auth, c, foreignOk).value, auth, d, foreignOk)
  {
    assert [c, d][1..] == [d];
    if Execute(nft, auth, c, foreignOk).Ok? {
      ExecuteOne(Execute(nft, auth, c, foreignOk).value, auth, d, foreignOk);
    }
  }

  lemma MirrorRegister(sys: System, c: Registry.Call, foreignOk: bool)
    requires Mirrored(sys) && c.RegisterCall? && Registry.Outcome(sys.registry, c).Ok?
    ensures OnRegistry(sys, c, foreignOk).Ok? && Mirrored(OnRegistry(sys, c, foreignOk).value)
  {
    var auth := c.auth + {sys.registryAddress};
    var mint, burn := Registry.MintToken(c.name, c.owner, c.uri, c.expiresAt), Registry.BurnToken(c.name);
    Registry.RegisterEffect(sys.registry, c);
    if c.name in sys.registry.entries {
      assert Registry.Outcome(sys.registry, c).value.commands == [burn, mint];
      ExecuteTwo(sys.nft, auth, burn, mint, foreignOk);
    } else {
      assert Registry.Outcome(sys.registry, c).value.commands == [mint];
      ExecuteOne(sys.nft, auth, mint, foreignOk);
    }
  }

  lemma MirrorTransfer(sys: System, c: Registry.Call, foreignOk: bool)
    requires Mirrored(sys) && c.TransferCall? && Registry.Outcome(sys.registry, c).Ok?
    ensures OnRegistry(sys, c, foreignOk).Ok? <==> (sys.registry.entries[c.name].resolver.Some? ==> foreignOk)
    ensures OnRegistry(sys, c, foreignOk).Ok? ==> Mirrored(OnRegistry(sys, c, foreignOk).value)
  {
    Registry.TransferEffect(sys.registry, c);
    var auth, e := c.auth + {sys.registryAddress}, sys.registry.entries[c.name];
    var sync := Registry.SyncTokenOwner(c.name, c.to);
    if e.resolver.Some? {
      var clear := Registry.ClearReverse(e.resolver.value, c.name, e.owner);
      assert Registry.Outcome(sys.registry, c).value.commands == [clear, sync];
      ExecuteTwo(sys.nft, auth, clear, sync, foreignOk);
    } else {
      assert Registry.Outcome(sys.registry, c).value.commands == [sync];
      ExecuteOne(sys.nft, auth, sync, foreignOk);
    }
  }

  lemma MirrorRenew(sys: System, c: Registry.Call, foreignOk: bool)
    requires Mirrored(sys) && c.RenewCall? && Registry.Outcome(sys.registry, c).Ok?
    ensures OnRegistry(sys, c, foreignOk).Ok? && Mirrored(OnRegistry(sys, c, foreignOk).value)
  {
    Registry.RenewEffect(sys.registry, c);
    ExecuteOne(sys.nft, c.auth + {sys.registryAddress}, Registry.SyncTokenExpiry(c.name, c.expiresAt), foreignOk);
  }

  lemma MirrorBurn(sys: System, c: Registry.Call, foreignOk: bool)
    requires Mirrored(sys) && c.BurnCall? && Registry.Outcome(sys.registry, c).Ok?
    ensures OnRegistry(sys, c, foreignOk).Ok? && Mirrored(OnRegistry(sys, c, foreignOk).value)
  {
    Registry.BurnEffect(sys.registry, c);
    ExecuteOne(sys.nft, c.auth + {sys.registryAddress}, Registry.BurnToken(c.name), foreignOk);
  }

  lemma MirrorSetters(sys: System, c: Registry.Call, foreignOk: bool)
    requires Mirrored(sys) && Registry.Outcome(sys.registry, c).Ok?
    requires c.SetResolverCall? || c.SetTargetCall? || c.SetMetadataCall?
    ensures OnRegistry(sys, c, foreignOk).Ok? && Mirrored(OnRegistry(sys, c, foreignOk).value)
  {
    Registry.SetterWrites(sys.registry, c);
  }

  lemma MirrorConfiguration(sys: System, c: Registry.Call, foreignOk: bool)
    requires Mirrored(sys) && Registry.Outcome(sys.registry, c).Ok?
    requires c.InitCall? || c.SetDisputeAdminCall? || c.LockCall? || c.UnlockCall?
    ensures OnRegistry(sys, c, foreignOk).Ok? && Mirrored(OnRegistry(sys, c, foreignOk).value)
  {
  }

  /** With the NFT contract's own registry pointer set, no registration gets through: minting
      would call back into the registry. */
  lemma RegistryPointerBlocksMint(sys: System, c: Registry.Call, foreignOk: bool)
    requires sys.registry.nft == Some(sys.nftAddress) && sys.nft.registry.Some? && c.RegisterCall?
    ensures OnRegistry(sys, c, foreignOk).Err?
  {
    if Registry.Outcome(sys.registry, c).Ok? {
      var auth := c.auth + {sys.registryAddress};
      var mint, burn := Registry.MintToken(c.name, c.owner, c.uri, c.expiresAt), Registry.BurnToken(c.name);
      Registry.RegisterEffect(sys.registry, c);
      if c.name in sys.registry.entries {
        assert Registry.Outcome(sys.registry, c).value.commands == [burn, mint];
        ExecuteTwo(sys.nft, auth, burn, mint, foreignOk);
      } else {
        assert Registry.Outcome(sys.registry, c).value.commands == [mint];
        ExecuteOne(sys.nft, auth, mint, foreignOk);
      }
    }
  }

  /** The nested calls of a registry call fail in exactly one way: a transfer of a name with a
      resolver whose resolver contract refuses. No mint, burn or sync ever fails. */
  lemma NestedFailsIff(sys: System, c: Registry.Call, foreignOk: bool)
    requires Mirrored(sys) && MirrorSafe(sys, ToRegistry(c)) && Registry.Outcome(sys.registry, c).Ok?
    ensures OnRegistry(sys, c, foreignOk).Err? <==>
            c.TransferCall? && sys.registry.entries[c.name].resolver.Some? && !foreignOk
    ensures OnRegistry(sys, c, foreignOk).Ok? ==> Mirrored(OnRegistry(sys, c, foreignOk).value)
  {
    if c.RegisterCall? {
      MirrorRegister(sys, c, foreignOk);
    } else if c.TransferCall? {
      MirrorTransfer(sys, c, foreignOk);
    } else if c.RenewCall? {
      MirrorRenew(sys, c, foreignOk);
    } else if c.BurnCall? {
      MirrorBurn(sys, c, foreignOk);
    } else if c.Rewrites() {
      MirrorSetters(sys, c, foreignOk);
    } else {
      assert !c.UpdateOwnerCall?;
      MirrorConfiguration(sys, c, foreignOk);
    }
  }

  lemma NftCallsKeepMirror(sys: System, c: Nft.Call)
    requires Mirrored(sys) && MirrorSafe(sys, ToNft(c)) && Nft.Outcome(sys.nft, c).Ok?
    ensures Mirrored(sys.(nft := Nft.Outcome(sys.nft, c).value))
  {
  }

  lemma RequestKeepsMirror(sys: System, h: Registrar.Handoff, foreignOk: bool)
    requires Mirrored(sys) && Sound(sys.registrar, h) && OnRegistry(sys, h.call, foreignOk).Ok?
    ensures Mirrored(OnRegistry(sys, h.call, foreignOk).value)
  {
    if h.call.RegisterCall? {
      MirrorRegister(sys, h.call, foreignOk);
    } else {
      MirrorRenew(sys, h.call, foreignOk);
    }
  }

  lemma StepKeepsMirror(sys: System, e: Event)
    requires Mirrored(sys) && MirrorSafe(sys, e.call)
    ensures Mirrored(Step(sys, e))
  {
    if Outcome(sys, e).Ok? {
      if e.call.ToRegistry? {
        NestedFailsIff(sys, e.call.call, e.foreignOk);
      } else if e.call.ToNft? {
        NftCallsKeepMirror(sys, e.call.op);
      } else if e.call.Requests() {
        RequestIsSound(sys.registrar, e.call);
        RequestKeepsMirror(sys, Request(sys.registrar, e.call).value, e.foreignOk);
      }
    }
  }

  lemma StepKeepsAddresses(sys: System, e: Event)
    ensures Step(sys, e).registryAddress == sys.registryAddress && Step(sys, e).nftAddress == sys.nftAddress
  {
  }

  /** With the NFT contract wired up before the first registration, token ids, owners and
      expiries equal those of the registry in every run. */
  lemma {:induction false} RunKeepsMirror(sys: System, events: seq<Event>)
    requires Wired(sys) && sys.registry.entries == map[] && sys.nft.tokens == map[]
    requires forall i :: 0 <= i < |events| ==> MirrorSafe(sys, events[i].call)
    ensures Mirrored(Run(sys, events))
    ensures Run(sys, events).registryAddress == sys.registryAddress && Run(sys, events).nftAddress == sys.nftAddress
  {
    if events != [] {
      var before, last := Run(sys, events[..|events| - 1]), events[|events| - 1];
      RunKeepsMirror(sys, events[..|events| - 1]);
      assert MirrorSafe(sys, last.call);
      assert MirrorSafe(before, last.call);
      StepKeepsMirror(before, last);
      StepKeepsAddresses(before, last);
    }
  }

  // ----- no rejected hand-off -----

  /** A record whose dates a registrar with an admissible grace period could have computed,
      held by the same owner in both contracts. */
  predicate InStep(r: Registrar.Record, e: Registry.Entry) {
    && DatesEqual(r, e) && r.owner == e.owner
    && r.expiresAt <= r.graceEndsAt <= GraceEnd(r.expiresAt, MAX_GRACE)
  }

  ghost predicate AllInStep(sys: System) {
    && sys.registrar.records.Keys == sys.registry.entries.Keys
    && forall n :: n in sys.registrar.records ==> InStep(sys.registrar.records[n], sys.registry.entries[n])
  }

  /** The NFT contract is either not configured or mirrors the registry. */
  ghost predicate Ready(sys: System) {
    && AllInStep(sys)
    && sys.registry.locks == map[]
    && sys.registrar.grace <= MAX_GRACE
    && (sys.registry.nft == None || Mirrored(sys))
  }

  lemma NestedAccepts(sys: System, c: Registry.Call, foreignOk: bool)
    requires sys.registry.nft == None || Mirrored(sys)
    requires (c.RegisterCall? || c.RenewCall?) && Registry.Outcome(sys.registry, c).Ok?
    ensures OnRegistry(sys, c, foreignOk).Ok?
    ensures OnRegistry(sys, c, foreignOk).value.registry == Registry.Outcome(sys.registry, c).value.state
    ensures var after := OnRegistry(sys, c, foreignOk).value; after.registry.nft == None || Mirrored(after)
  {
    if Mirrored(sys) {
      if c.RegisterCall? {
        MirrorRegister(sys, c, foreignOk);
      } else {
        MirrorRenew(sys, c, foreignOk);
      }
    }
  }

  lemma RegistryAccepts(sys: System, h: Registrar.Handoff)
    requires Ready(sys) && Sound(sys.registrar, h)
    ensures Registry.Outcome(sys.registry, h.call).Ok?
  {
  }

  /** Whatever passes the registrar's checks also passes the registry's and the NFT's. */
  lemma HandoffAccepted(sys: System, c: Call, foreignOk: bool)
    requires Ready(sys) && c.Requests() && Request(sys.registrar, c).Ok?
    ensures Outcome(sys, Event(c, foreignOk)).Ok?
  {
    RequestIsSound(sys.registrar, c);
    RegistryAccepts(sys, Request(sys.registrar, c).value);
    NestedAccepts(sys, Request(sys.registrar, c).value.call, foreignOk);
  }

  lemma CommitKeepsStep(sys: System, after: System, h: Registrar.Handoff)
    requires AllInStep(sys) && sys.registrar.grace <= MAX_GRACE
    requires Sound(sys.registrar, h) && Registry.Outcome(sys.registry, h.call).Ok?
    requires after.registrar == h.state && after.registry == Registry.Outcome(sys.registry, h.call).value.state
    ensures AllInStep(after) && after.registry.locks.Keys <= sys.registry.locks.Keys
  {
    var n := h.call.name;
    assert n in sys.registrar.records ==> InStep(sys.registrar.records[n], sys.registry.entries[n]);
    if h.call.RegisterCall? {
      Registry.RegisterEffect(sys.registry, h.call);
    } else {
      Registry.RenewEffect(sys.registry, h.call);
    }
  }

  lemma HandoffKeepsReady(sys: System, c: Call, foreignOk: bool)
    requires Ready(sys) && c.Requests() && Request(sys.registrar, c).Ok?
    ensures Ready(Step(sys, Event(c, foreignOk)))
  {
    var h := Request(sys.registrar, c).value;
    RequestIsSound(sys.registrar, c);
    RegistryAccepts(sys, h);
    NestedAccepts(sys, h.call, foreignOk);
    CommitKeepsStep(sys, Step(sys, Event(c, foreignOk)), h);
  }

  lemma RegistrarStepKeepsReady(sys: System, e: Event)
    requires Ready(sys) && e.call.IsRegistrar()
    ensures Ready(Step(sys, e))
  {
    if e.call.Requests() && Request(sys.registrar, e.call).Ok? {
      HandoffKeepsReady(sys, e.call, e.foreignOk);
    }
  }

  lemma {:induction false} RegistrarRunKeepsReady(sys: System, events: seq<Event>)
    requires Ready(sys)
    requires forall i :: 0 <= i < |events| ==> events[i].call.IsRegistrar()
    ensures Ready(Run(sys, events))
  {
    if events != [] {
      RegistrarRunKeepsReady(sys, events[..|events| - 1]);
      RegistrarStepKeepsReady(Run(sys, events[..|events| - 1]), events[|events| - 1]);
    }
  }

  /** In registrar-only runs from the empty system, with any changes of the grace period and
      any clocks, every registration, renewal and extension that passes the registrar's
      checks commits in all three contracts. */
  lemma NoRejectedHandoff(sys: System, events: seq<Event>, c: Call, foreignOk: bool)
    requires sys.registrar.records == map[] && sys.registry.entries == map[] && sys.registry.locks == map[]
    requires sys.registrar.grace == DEFAULT_GRACE
    requires sys.registry.nft == None || (Wired(sys) && sys.nft.tokens == map[])
    requires forall i :: 0 <= i < |events| ==> events[i].call.IsRegistrar()
    requires c.Requests()
    ensures Outcome(Run(sys, events), Event(c, foreignOk)).Ok? <==> Request(Run(sys, events).registrar, c).Ok?
  {
    RegistrarRunKeepsReady(sys, events);
    if Request(Run(sys, events).registrar, c).Ok? {
      HandoffAccepted(Run(sys, events), c, foreignOk);
    }
  }

  // ----- exactly which requests the registry refuses -----

  lemma RequestKeepsRegistrar(r: Registrar.State, c: Call)
    requires Registrar.Inv(r) && c.Requests() && Request(r, c).Ok?
    ensures Registrar.Inv(Request(r, c).value.state)
  {
    match c
    case RegisterLabel(auth, lbl, owner, years, maxPrice, now) =>
      Registrar.RegisterKeepsInv(r, auth, lbl, owner, years, maxPrice, now);
    case RenewName(auth, name, caller, years, payment, now) =>
      Registrar.RenewKeepsInv(r, auth, name, caller, years, payment, now);
    case ExtendName(auth, name, caller, years, payment, now) =>
      Registrar.ExtendKeepsInv(r, auth, name, caller, years, payment, now);
  }

  lemma RequestKeepsPointer(r: Registrar.State, c: Call)
    requires c.Requests() && Request(r, c).Ok?
    ensures Request(r, c).value.state.registry == r.registry
  {
  }

  lemma AdministerKeepsRegistrar(r: Registrar.State, c: Call)
    requires Registrar.Inv(r) && c.IsRegistrar() && !c.Requests() && Administer(r, c).Ok?
    ensures Registrar.Inv(Administer(r, c).value) && Administer(r, c).value.registry == r.registry
  {
  }

  lemma StepKeepsRegistrar(sys: System, e: Event)
    requires Registrar.Inv(sys.registrar)
    ensures Registrar.Inv(Step(sys, e).registrar) && Step(sys, e).registrar.registry == sys.registrar.registry
  {
    if Outcome(sys, e).Ok? {
      if e.call.Requests() {
        RequestKeepsRegistrar(sys.registrar, e.call);
        RequestKeepsPointer(sys.registrar, e.call);
      } else if e.call.IsRegistrar() {
        AdministerKeepsRegistrar(sys.registrar, e.call);
      } else {
        assert Step(sys, e).registrar == sys.registrar;
      }
    }
  }

  /** In every run of the system, whatever is called, the grace period stays between a day and
      a year, every record has a label and ordered dates with at most a year of grace. */
  lemma {:induction false} RunKeepsRegistrar(sys: System, events: seq<Event>)
    requires Registrar.Inv(sys.registrar)
    ensures Registrar.Inv(Run(sys, events).registrar) && Run(sys, events).registrar.registry == sys.registrar.registry
  {
    if events != [] {
      RunKeepsRegistrar(sys, events[..|events| - 1]);
      StepKeepsRegistrar(Run(sys, events[..|events| - 1]), events[|events| - 1]);
    }
  }

  /** The registry's reason to turn down a request the registrar has let through. */
  predicate Objects(s: Registry.State, c: Registry.Call)
    requires c.RegisterCall? || (c.RenewCall? && c.name in s.entries)
  {
    Registry.LockedAt(s, c.name, c.now) || (c.RenewCall? && s.entries[c.name].owner != c.caller)
  }

  lemma RegistrationRefusedIff(s: Registry.State, r: Registrar.State, h: Registrar.Handoff)
    requires Sound(r, h) && h.call.RegisterCall?
    requires h.call.name in r.records <==> h.call.name in s.entries
    requires h.call.name in r.records ==>
               && DatesEqual(r.records[h.call.name], s.entries[h.call.name])
               && Registrar.GoodRecord(h.call.name, r.records[h.call.name])
    ensures Registry.Outcome(s, h.call).Err? <==> Registry.LockedAt(s, h.call.name, h.call.now)
  {
  }

  lemma RenewalRefusedIff(s: Registry.State, r: Registrar.State, h: Registrar.Handoff)
    requires Sound(r, h) && h.call.RenewCall? && h.call.name in s.entries
    requires DatesEqual(r.records[h.call.name], s.entries[h.call.name])
    requires Registrar.GoodRecord(h.call.name, r.records[h.call.name])
    ensures Registry.Outcome(s, h.call).Err? <==>
            Registry.LockedAt(s, h.call.name, h.call.now) || s.entries[h.call.name].owner != h.call.caller
  {
  }

  lemma RegistryRefusesIff(sys: System, h: Registrar.Handoff)
    requires Agree(sys) && Registrar.Inv(sys.registrar) && Sound(sys.registrar, h)
    ensures Registry.Outcome(sys.registry, h.call).Err? <==> Objects(sys.registry, h.call)
  {
    var n, records := h.call.name, sys.registrar.records;
    assert n in records <==> n in sys.registry.entries;
    assert n in records ==> DatesEqual(records[n], sys.registry.entries[n]) && Registrar.GoodRecord(n, records[n]);
    if h.call.RegisterCall? {
      RegistrationRefusedIff(sys.registry, sys.registrar, h);
    } else {
      RenewalRefusedIff(sys.registry, sys.registrar, h);
    }
  }

  /** The NFT contract was wired up before the first registration and nothing forbidden to
      `RunKeepsMirror` happened. */
  ghost predicate Deployed(sys: System, events: seq<Event>) {
    && Wired(sys) && sys.registry.entries == map[] && sys.nft.tokens == map[]
    && forall i :: 0 <= i < |events| ==> MirrorSafe(sys, events[i].call)
  }

  /** In every run of registrar calls interleaved with transfers, locks and settings in the
      registry, a request that passes the registrar is refused by the registry iff a standing
      lock covers the clock, or it is a renewal and the registry's owner is not the caller.
      Without an NFT contract, or with one deployed properly, that decides the whole request. */
  lemma RefusedIff(sys: System, events: seq<Event>, c: Call, foreignOk: bool)
    requires sys.registrar.records == map[] && sys.registry.entries == map[] && Registrar.Inv(sys.registrar)
    requires forall i :: 0 <= i < |events| ==> DateSafe(events[i].call)
    requires c.Requests() && Request(Run(sys, events).registrar, c).Ok?
    ensures var s, h := Run(sys, events), Request(Run(sys, events).registrar, c).value;
            && (h.call.RegisterCall? || (h.call.RenewCall? && h.call.name in s.registry.entries))
            && (Registry.Outcome(s.registry, h.call).Err? <==> Objects(s.registry, h.call))
            && (s.registry.nft == None || Deployed(sys, events) ==>
                  (Outcome(s, Event(c, foreignOk)).Err? <==> Objects(s.registry, h.call)))
  {
    var s, h := Run(sys, events), Request(Run(sys, events).registrar, c).value;
    RunKeepsAgreement(sys, events);
    RunKeepsRegistrar(sys, events);
    RequestIsSound(s.registrar, c);
    RegistryRefusesIff(s, h);
    if Deployed(sys, events) {
      RunKeepsMirror(sys, events);
    }
    if (s.registry.nft == None || Mirrored(s)) && Registry.Outcome(s.registry, h.call).Ok? {
      NestedAccepts(s, h.call, foreignOk);
    }
  }

  // ----- who can still renew -----

  predicate Renewal(c: Call, n: Str, now: U64) {
    (c.RenewName? || c.ExtendName?) && c.name == n && c.now == now
  }

  /** `c` renews `n` at `now`: registrar, registry and the nested NFT call all accept it. A
      foreign NFT contract is taken to answer. */
  predicate Renews(sys: System, c: Call, n: Str, now: U64) {
    Renewal(c, n, now) && Outcome(sys, Event(c, true)).Ok?
  }

  /** The registry's `sync_expiry` on our NFT contract finds an administrator and the token. */
  predicate Syncable(sys: System, n: Str) {
    sys.registry.nft == Some(sys.nftAddress) ==> sys.nft.admin.Some? && n in sys.nft.tokens
  }

  lemma SyncSucceedsIff(sys: System, c: Registry.Call)
    requires c.RenewCall? && Registry.Outcome(sys.registry, c).Ok?
    ensures OnRegistry(sys, c, true).Ok? <==>
            (sys.registry.nft == Some(sys.nftAddress) ==>
               Nft.AdminCheck(sys.nft, c.auth + {sys.registryAddress}).Ok? && c.name in sys.nft.tokens)
  {
    Registry.RenewEffect(sys.registry, c);
    ExecuteOne(sys.nft, c.auth + {sys.registryAddress}, Registry.SyncTokenExpiry(c.name, c.expiresAt), true);
  }

  lemma RenewalRequestBy(r: Registrar.State, c: Call, n: Str, now: U64)
    requires Renewal(c, n, now) && Request(r, c).Ok?
    ensures n in r.records && r.records[n].owner == c.caller && now <= r.records[n].graceEndsAt
    ensures var call := Request(r, c).value.call;
            call.RenewCall? && call.name == n && call.caller == c.caller && call.now == now
  {
  }

  lemma RegistryRenewsFor(s: Registry.State, c: Registry.Call)
    requires c.RenewCall? && Registry.Outcome(s, c).Ok?
    ensures c.name in s.entries && s.entries[c.name].owner == c.caller && !Registry.LockedAt(s, c.name, c.now)
  {
  }

  lemma RenewsOnlyIfOneOwner(sys: System, c: Call, n: Str, now: U64)
    requires Renews(sys, c, n, now)
    ensures n in sys.registrar.records && n in sys.registry.entries
    ensures sys.registrar.records[n].owner == sys.registry.entries[n].owner == c.caller
    ensures !Registry.LockedAt(sys.registry, n, now) && now <= sys.registrar.records[n].graceEndsAt
    ensures Syncable(sys, n)
  {
    RenewalRequestBy(sys.registrar, c, n, now);
    RegistryRenewsFor(sys.registry, Request(sys.registrar, c).value.call);
    SyncSucceedsIff(sys, Request(sys.registrar, c).value.call);
  }

  /** The owner's offer to pay anything for one year, co-signed by the NFT administrator. */
  function Offer(sys: System, n: Str, now: U64): Call
    requires n in sys.registrar.records
  {
    var owner := sys.registrar.records[n].owner;
    RenewName({owner} + (if sys.nft.admin.Some? then {sys.nft.admin.value} else {}), n, owner, 1, U64_MAX, now)
  }

  lemma OfferIsRequest(sys: System, n: Str, now: U64)
    requires Registrar.Inv(sys.registrar) && sys.registrar.registry.Some?
    requires n in sys.registrar.records && now <= sys.registrar.records[n].graceEndsAt
    ensures Request(sys.registrar, Offer(sys, n, now)).Ok?
    ensures Request(sys.registrar, Offer(sys, n, now)).value.call.auth == Offer(sys, n, now).auth
  {
    assert Registrar.GoodRecord(n, sys.registrar.records[n]);
  }

  /** Recorded, not yet claimable, not locked, and of one owner in both contracts. */
  predicate Renewable(sys: System, n: Str, now: U64) {
    && n in sys.registrar.records && n in sys.registry.entries
    && sys.registrar.records[n].owner == sys.registry.entries[n].owner
    && !Registry.LockedAt(sys.registry, n, now) && now <= sys.registrar.records[n].graceEndsAt
  }

  lemma OfferRenews(sys: System, n: Str, now: U64)
    requires Registrar.Inv(sys.registrar) && sys.registrar.registry.Some? && Agree(sys)
    requires Renewable(sys, n, now) && Syncable(sys, n)
    ensures Renews(sys, Offer(sys, n, now), n, now)
  {
    var c := Offer(sys, n, now);
    OfferIsRequest(sys, n, now);
    RequestIsSound(sys.registrar, c);
    RenewalRequestBy(sys.registrar, c, n, now);
    RegistryRefusesIff(sys, Request(sys.registrar, c).value);
    SyncSucceedsIff(sys, Request(sys.registrar, c).value.call);
  }

  /** In the same runs somebody can renew a name at a given time iff it is recorded, not yet
      claimable, not locked, both contracts name the same owner, and the NFT contract, if it is
      the configured one, has an administrator and the token. */
  lemma RenewableIff(sys: System, events: seq<Event>, n: Str, now: U64)
    requires sys.registrar.records == map[] && sys.registry.entries == map[] && Registrar.Inv(sys.registrar)
    requires sys.registrar.registry.Some?
    requires forall i :: 0 <= i < |events| ==> DateSafe(events[i].call)
    ensures var s := Run(sys, events);
            (exists c :: Renews(s, c, n, now)) <==> Renewable(s, n, now) && Syncable(s, n)
  {
    var s := Run(sys, events);
    RunKeepsAgreement(sys, events);
    RunKeepsRegistrar(sys, events);
    if c :| Renews(s, c, n, now) {
      RenewsOnlyIfOneOwner(s, c, n, now);
    }
    if Renewable(s, n, now) && Syncable(s, n) {
      OfferRenews(s, n, now);
    }
  }

  /** With the NFT contract deployed before the first registration the last condition is met
      by every name. */
  lemma DeployedRenewableIff(sys: System, events: seq<Event>, n: Str, now: U64)
    requires Deployed(sys, events)
    requires sys.registrar.records == map[] && Registrar.Inv(sys.registrar) && sys.registrar.registry.Some?
    requires forall i :: 0 <= i < |events| ==> DateSafe(events[i].call)
    ensures var s := Run(sys, events);
            (exists c :: Renews(s, c, n, now)) <==> Renewable(s, n, now)
  {
    RenewableIff(sys, events, n, now);
    RunKeepsMirror(sys, events);
  }

  /** Configured later, it is not: a name registered before the NFT contract has no token, and
      nobody can renew it at any time. */
  lemma LateNftEndsRenewal(sys: System, e: Event, n: Str, c: Call, later: U64)
    requires e.call.ToRegistry? && e.call.call.SetNftCall? && e.call.call.contract == sys.nftAddress
    requires Outcome(sys, e).Ok? && n !in sys.nft.tokens
    ensures !Renews(Step(sys, e), c, n, later)
  {
    if Renews(Step(sys, e), c, n, later) {
      RenewsOnlyIfOneOwner(Step(sys, e), c, n, later);
    }
  }

  /** And a registry transfer leaves a name that nobody can renew, neither the old owner nor the
      new one nor anybody else, at any time. */
  lemma TransferEndsRenewal(sys: System, e: Event, c: Call, later: U64)
    requires e.call.ToRegistry? && e.call.call.TransferCall? && Outcome(sys, e).Ok?
             && e.call.call.to != e.call.call.caller
    requires var n := e.call.call.name;
             n in sys.registrar.records && sys.registrar.records[n].owner == e.call.call.caller
    ensures !Renews(Step(sys, e), c, e.call.call.name, later)
  {
    Registry.TransferEffect(sys.registry, e.call.call);
    if Renews(Step(sys, e), c, e.call.call.name, later) {
      RenewsOnlyIfOneOwner(Step(sys, e), c, e.call.call.name, later);
    }
  }
}
