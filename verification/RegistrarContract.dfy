/**
 The registrar contract as it runs, calling the registry contract at the end of every
 registration and renewal. When that call fails the registrar's writes are undone too.
 */
module RegistrarContract {
  import opened Common
  import opened Lifecycle
  import opened Names
  import opened Registrar
  import Registry
  import RegistryContract

  /** Both contracts' storage after a request, or an error and no change in either. */
  function Handed(registry: Registry.State, request: Result<Handoff, Error>, nestedOk: bool)
    : Result<(State, Registry.State), Error>
  {
    match request
    case Err(e) => Err(e)
    case Ok(h) =>
      match Registry.Settled(Registry.Outcome(registry, h.call), nestedOk)
      case Err(_) => Err(Trap)
      case Ok(after) => Ok((h.state, after))
  }

  lemma ReserveStep(reserved: set<Str>, labels: seq<Str>, i: nat)
    requires i < |labels|
    ensures var all, next := reserved + ValidLabels(labels[..i]), reserved + ValidLabels(labels[..i + 1]);
            && next == (if LabelOk(labels[i]) && labels[i] !in all then all + {labels[i]} else all)
            && |next - reserved| == |all - reserved| + (if LabelOk(labels[i]) && labels[i] !in all then 1 else 0)
  {
    var all, next := reserved + ValidLabels(labels[..i]), reserved + ValidLabels(labels[..i + 1]);
    ValidLabelsStep(labels, i);
    if next != all {
      assert next - reserved == (all - reserved) + {labels[i]};
    }
  }

  /** The manifest loop: valid labels not seen before are added and counted. */
  method ReserveAll(reserved: set<Str>, labels: seq<Str>) returns (all: set<Str>, added: nat)
    ensures all == reserved + ValidLabels(labels)
    ensures added == |all - reserved|
  {
    all, added := reserved, 0;
    var i := 0;
    while i < |labels|
      invariant 0 <= i <= |labels|
      invariant all == reserved + ValidLabels(labels[..i])
      invariant added == |all - reserved|
    {
      ReserveStep(reserved, labels, i);
      if LabelOk(labels[i]) && labels[i] !in all {
        all := all + {labels[i]};
        added := added + 1;
      }
      i := i + 1;
    }
    assert labels[..i] == labels;
  }

  class Contract {
    const registryContract: RegistryContract.Contract
    var registry: Option<Address>
    var admin: Option<Address>
    var records: map<Str, Record>
    var reserved: set<Str>
    var treasury: U64
    var registrations: U64
    var renewals: U64
    var rate: RateLimit
    var grace: U64
    var whitelist: set<Address>
    var windows: map<(Address, U64), U64>

    function Storage(): State
      reads this
    {
      State(registry, admin, records, reserved, treasury, registrations, renewals, rate, grace, whitelist, windows)
    }

    ghost function Both(): (State, Registry.State)
      reads this, registryContract
    {
      (Storage(), registryContract.Storage())
    }

    /** The registrar's own invariant, next to a registry that is what its calls left. */
    ghost predicate Valid()
      reads this, registryContract
    {
      Inv(Storage()) && registryContract.Valid()
    }

    constructor (registryContract: RegistryContract.Contract, registry: Address, admin: Address)
      requires registryContract.Valid()
      ensures Valid() && Storage() == Fresh(registry, admin) && this.registryContract == registryContract
    {
      this.registryContract := registryContract;
      this.registry, this.admin := Some(registry), Some(admin);
      records, reserved, treasury, registrations, renewals := map[], {}, 0, 0, 0;
      rate, grace, whitelist, windows := RateLimit(DEFAULT_WINDOW, DEFAULT_LIMIT), DEFAULT_GRACE, {}, map[];
    }

    // ----- registration -----

    method Register(auth: set<Address>, lbl: Str, owner: Address, years: U64, maxPrice: U64, now: U64, nestedOk: bool)
      returns (r: Result<(), Error>)
      requires Valid()
      modifies this, registryContract
      ensures var request := Registrar.Register(old(Storage()), auth, lbl, owner, years, maxPrice, now);
              Did(old(Both()), Both(), Handed(old(registryContract.Storage()), request, nestedOk), r)
      ensures Valid()
    {
      RegisterKeepsInv(Storage(), auth, lbl, owner, years, maxPrice, now);
      var quote := BuildQuote(Storage(), lbl, years, now);
      r := CheckRegistration(auth, lbl, owner, years, maxPrice, now, quote);
      if r.Err? {
        return;
      }
      var built := BuildXlmNameInBuffer(lbl);
      var name := built.value;
      if name in records && now <= records[name].graceEndsAt {
        return Err(AlreadyRegistered);
      }
      if registry.None? {
        return Err(NotInitialized);
      }
      r := Book(auth, name, owner, quote, now, nestedOk);
    }

    method RecordRegistration(auth: set<Address>, name: Str, owner: Address, quote: Quote, now: U64)
      modifies `records, `windows, `treasury, `registrations
      ensures Storage() == Booked(old(Storage()), auth, name, owner, quote, now).state
    {
      records := records[name := Record(name, owner, now, quote.expiresAt, quote.graceEndsAt, quote.fee, now)];
      var key := (owner, SatSub(now, rate.window));
      windows := windows[key := SatAdd(if key in windows then windows[key] else 0, 1)];
      treasury := SatAdd(treasury, quote.fee);
      registrations := SatAdd(registrations, 1);
    }

    /** The writes of a registration, then the registry call. */
    method Book(auth: set<Address>, name: Str, owner: Address, quote: Quote, now: U64, nestedOk: bool)
      returns (r: Result<(), Error>)
      requires registryContract.Valid()
      modifies this, registryContract
      ensures Did(old(Both()), Both(),
                  Handed(old(registryContract.Storage()), Ok(Booked(old(Storage()), auth, name, owner, quote, now)),
                         nestedOk), r)
      ensures registryContract.Valid()
    {
      var savedRecords, savedWindows, savedTreasury, savedCount := records, windows, treasury, registrations;
      RecordRegistration(auth, name, owner, quote, now);
      var accepted := registryContract.Register(auth, name, owner, None, None, now, quote.expiresAt, quote.graceEndsAt,
                                                nestedOk);
      if accepted.Err? {
        records, windows, treasury, registrations := savedRecords, savedWindows, savedTreasury, savedCount;
        return Err(Trap);
      }
      return Ok(());
    }

    /** The checks of `register` that precede the look-up of the name. */
    method CheckRegistration(auth: set<Address>, lbl: Str, owner: Address, years: U64, maxPrice: U64, now: U64,
                             quote: Quote)
      returns (r: Result<(), Error>)
      requires quote == BuildQuote(Storage(), lbl, years, now)
      ensures r.Ok? <==>
              && owner in auth && LabelOk(lbl) && MIN_YEARS <= years <= MAX_YEARS && lbl !in reserved
              && CheckRateLimit(Storage(), owner, now).Ok? && maxPrice >= quote.fee
      ensures r.Err? ==> Registrar.Register(Storage(), auth, lbl, owner, years, maxPrice, now) == Err(r.error)
      ensures r.Ok? ==> r == Ok(())
    {
      if owner !in auth {
        return Err(Trap);
      }
      if !LabelOk(lbl) {
        return Err(Validation);
      }
      if now > SatAdd(now, QUOTE_VALIDITY) {
        return Err(QuoteExpired);
      }
      if !(MIN_YEARS <= years <= MAX_YEARS) {
        return Err(Validation);
      }
      if lbl in reserved {
        return Err(Reserved);
      }
      if owner !in whitelist {
        var key := (owner, SatSub(now, rate.window));
        var count := if key in windows then windows[key] else 0;
        if count >= rate.limit {
          return Err(RateLimitExceeded);
        }
      }
      if maxPrice < quote.fee {
        return Err(InsufficientFee);
      }
      return Ok(());
    }

    // ----- renewal -----

    method RecordRenewal(auth: set<Address>, name: Str, caller: Address, expiry: U64, payment: U64, now: U64)
      requires name in records
      modifies `records, `treasury, `renewals
      ensures Storage() == Extended(old(Storage()), auth, name, caller, expiry, payment, now).state
    {
      var record := records[name];
      records := records[name := record.(expiresAt := expiry, graceEndsAt := GraceEnd(expiry, grace), renewedAt := now,
                                         feePaid := SatAdd(record.feePaid, payment))];
      treasury := SatAdd(treasury, payment);
      renewals := SatAdd(renewals, 1);
    }

    /** The writes and the registry call both renewal paths end with. */
    method Extend(auth: set<Address>, name: Str, caller: Address, expiry: U64, payment: U64, now: U64, nestedOk: bool)
      returns (r: Result<(), Error>)
      requires name in records && registry.Some?
      requires registryContract.Valid()
      modifies this, registryContract
      ensures Did(old(Both()), Both(),
                  Handed(old(registryContract.Storage()),
                         Ok(Extended(old(Storage()), auth, name, caller, expiry, payment, now)), nestedOk), r)
      ensures registryContract.Valid()
    {
      var savedRecords, savedTreasury, savedCount := records, treasury, renewals;
      var graceEnd := GraceEnd(expiry, grace);
      RecordRenewal(auth, name, caller, expiry, payment, now);
      var accepted := registryContract.Renew(auth, name, caller, expiry, graceEnd, now, nestedOk);
      if accepted.Err? {
        records, treasury, renewals := savedRecords, savedTreasury, savedCount;
        return Err(Trap);
      }
      return Ok(());
    }

    method Renew(auth: set<Address>, name: Str, caller: Address, years: U64, payment: U64, now: U64, nestedOk: bool)
      returns (r: Result<(), Error>)
      requires Valid()
      modifies this, registryContract
      ensures var request := Registrar.Renew(old(Storage()), auth, name, caller, years, payment, now);
              Did(old(Both()), Both(), Handed(old(registryContract.Storage()), request, nestedOk), r)
      ensures Valid()
    {
      RenewKeepsInv(Storage(), auth, name, caller, years, payment, now);
      if caller !in auth {
        return Err(Trap);
      }
      var lbl := ExtractLabel(name);
      if lbl.Err? || !(MIN_YEARS <= years <= MAX_YEARS) {
        return Err(Validation);
      }
      if name !in records {
        return Err(NotFound);
      }
      var record := records[name];
      if record.owner != caller {
        return Err(Unauthorized);
      }
      if now > record.graceEndsAt {
        return Err(RegistrationClaimable);
      }
      if payment < FeeFor(|lbl.value|, years) {
        return Err(InsufficientFee);
      }
      if registry.None? {
        return Err(NotInitialized);
      }
      var base := if record.expiresAt > now then record.expiresAt else now;
      r := Extend(auth, name, caller, ExpiryFrom(base, years), payment, now, nestedOk);
    }

    method ExtendDuringGrace(auth: set<Address>, name: Str, caller: Address, years: U64, payment: U64, now: U64,
                             nestedOk: bool)
      returns (r: Result<(), Error>)
      requires Valid()
      modifies this, registryContract
      ensures var request := Registrar.ExtendDuringGrace(old(Storage()), auth, name, caller, years, payment, now);
              Did(old(Both()), Both(), Handed(old(registryContract.Storage()), request, nestedOk), r)
      ensures Valid()
    {
      ExtendKeepsInv(Storage(), auth, name, caller, years, payment, now);
      if caller !in auth {
        return Err(Trap);
      }
      var lbl := ExtractLabel(name);
      if lbl.Err? || !(MIN_YEARS <= years <= MAX_YEARS) {
        return Err(Validation);
      }
      if name !in records {
        return Err(NotFound);
      }
      var record := records[name];
      if record.owner != caller {
        return Err(Unauthorized);
      }
      if now <= record.expiresAt {
        return Err(NotRenewable);
      }
      if now > record.graceEndsAt {
        return Err(RegistrationClaimable);
      }
      if payment < FeeFor(|lbl.value|, years) {
        return Err(InsufficientFee);
      }
      if registry.None? {
        return Err(NotInitialized);
      }
      r := Extend(auth, name, caller, ExpiryFrom(now, years), payment, now, nestedOk);
    }

    // ----- administration -----

    method SetGracePeriod(auth: set<Address>, seconds: U64) returns (r: Result<(), Error>)
      requires Valid()
      modifies this
      ensures Did(old(Storage()), Storage(), Registrar.SetGracePeriod(old(Storage()), auth, seconds), r)
      ensures Valid()
    {
      if admin.None? {
        return Err(NotInitialized);
      }
      if admin.value !in auth {
        return Err(Trap);
      }
      if !(MIN_GRACE <= seconds <= MAX_GRACE) {
        return Err(Validation);
      }
      grace := seconds;
      return Ok(());
    }

    /** The count is the number of labels that were not reserved before. */
    method LoadReservedManifest(auth: set<Address>, labels: seq<Str>) returns (r: Result<nat, Error>)
      requires Valid()
      modifies `reserved
      ensures var o := LoadManifest(old(Storage()), auth, labels);
              && Storage() == Commit(old(Storage()), o)
              && r == (if o.Err? then Err(o.error) else Ok(|reserved - old(reserved)|))
      ensures Valid()
    {
      if admin.None? {
        return Err(NotInitialized);
      }
      if admin.value !in auth {
        return Err(Trap);
      }
      var all, added := ReserveAll(reserved, labels);
      reserved := all;
      return Ok(added);
    }
  }
}
