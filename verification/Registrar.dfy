/**
 The registrar contract: pricing, rate limits and the lifecycle dates it computes. A
 registration or renewal that passes the registrar's own checks yields the registrar's
 new storage and the registry call it makes; both commit or neither does.
 */
module Registrar {
  import opened Common
  import opened Lifecycle
  import opened Names
  import Registry

  const QUOTE_VALIDITY: U64 := 300
  const DEFAULT_WINDOW: U64 := 86_400
  const DEFAULT_LIMIT: U64 := 5

  datatype RateLimit = RateLimit(window: U64, limit: U64)

  datatype Record = Record(
    name: Str, owner: Address, registeredAt: U64, expiresAt: U64, graceEndsAt: U64, feePaid: U64, renewedAt: U64)

  datatype Quote = Quote(fee: U64, expiresAt: U64, graceEndsAt: U64, validUntil: U64)

  datatype RenewalQuote = RenewalQuote(fee: U64, currentExpiry: U64, extendedExpiry: U64, graceEndsAt: U64)

  datatype Status = Unavailable | Active | GracePeriod | Claimable | ReservedLabel

  datatype Error =
    | InsufficientFee | NotFound | NotRenewable | AlreadyRegistered | Reserved | Unauthorized | Validation
    | RegistrationClaimable | NotInitialized | RateLimitExceeded | QuoteExpired | Trap

  /** Absent configuration reads as its default, so the defaults are stored from the start. */
  datatype State = State(
    registry: Option<Address>,
    admin: Option<Address>,
    records: map<Str, Record>,
    reserved: set<Str>,
    treasury: U64,
    registrations: U64,
    renewals: U64,
    rate: RateLimit,
    grace: U64,
    whitelist: set<Address>,
    windows: map<(Address, U64), U64>)

  function Fresh(registry: Address, admin: Address): State {
    State(Some(registry), Some(admin), map[], {}, 0, 0, 0,
          RateLimit(DEFAULT_WINDOW, DEFAULT_LIMIT), DEFAULT_GRACE, {}, map[])
  }

  datatype Handoff = Handoff(state: State, call: Registry.Call)

  // ----- pricing and quotes -----

  /** The yearly price of the label's length, times the years. */
  function FeeFor(length: nat, years: U64): U64 {
    if length <= 3 then SatMul(1_000_000_000, years)
    else if length <= 6 then SatMul(250_000_000, years)
    else SatMul(100_000_000, years)
  }

  function ValidateYears(years: U64): Result<(), Error> {
    Check(MIN_YEARS <= years <= MAX_YEARS, Validation)
  }

  function BuildQuote(s: State, lbl: Str, years: U64, now: U64): Quote {
    var expiry := ExpiryFrom(now, years);
    Quote(FeeFor(|lbl|, years), expiry, GraceEnd(expiry, s.grace), SatAdd(now, QUOTE_VALIDITY))
  }

  function RenewalBase(r: Record, now: U64): U64 {
    if r.expiresAt > now then r.expiresAt else now
  }

  function QuoteRenewal(s: State, name: Str, years: U64, now: U64): Result<RenewalQuote, Error> {
    var _ :- Check(ExtractLabel(name).Ok?, Validation);
    var _ :- ValidateYears(years);
    var _ :- Check(name in s.records, NotFound);
    var r := s.records[name];
    var expiry := ExpiryFrom(RenewalBase(r, now), years);
    Ok(RenewalQuote(FeeFor(|ExtractLabel(name).value|, years), r.expiresAt, expiry, GraceEnd(expiry, s.grace)))
  }

  // ----- rate limit -----

  function WindowKey(s: State, who: Address, now: U64): (Address, U64) {
    (who, SatSub(now, s.rate.window))
  }

  function WindowCount(s: State, who: Address, now: U64): U64 {
    if WindowKey(s, who, now) in s.windows then s.windows[WindowKey(s, who, now)] else 0
  }

  function CheckRateLimit(s: State, who: Address, now: U64): Result<(), Error> {
    Check(who in s.whitelist || WindowCount(s, who, now) < s.rate.limit, RateLimitExceeded)
  }

  // ----- registrations and renewals -----

  predicate LabelOk(lbl: Str) {
    |lbl| <= MAX_NAME_LENGTH && ValidateLabelBytes(lbl).Ok?
  }

  /** The writes of a registration once the quote is accepted. */
  function Booked(s: State, auth: set<Address>, name: Str, owner: Address, quote: Quote, now: U64): Handoff {
    Handoff(
      s.(records := s.records[name := Record(name, owner, now, quote.expiresAt, quote.graceEndsAt, quote.fee, now)],
         windows := s.windows[WindowKey(s, owner, now) := SatAdd(WindowCount(s, owner, now), 1)],
         treasury := SatAdd(s.treasury, quote.fee),
         registrations := SatAdd(s.registrations, 1)),
      Registry.RegisterCall(auth, name, owner, None, None, now, quote.expiresAt, quote.graceEndsAt))
  }

  function Register(s: State, auth: set<Address>, lbl: Str, owner: Address, years: U64, maxPrice: U64, now: U64)
    : Result<Handoff, Error>
  {
    var _ :- Check(owner in auth, Trap);
    var _ :- Check(LabelOk(lbl), Validation);
    if now > SatAdd(now, QUOTE_VALIDITY) then Err(QuoteExpired) else
    var _ :- ValidateYears(years);
    var _ :- Check(lbl !in s.reserved, Reserved);
    var _ :- CheckRateLimit(s, owner, now);
    var quote := BuildQuote(s, lbl, years, now);
    var _ :- Check(maxPrice >= quote.fee, InsufficientFee);
    if now > quote.validUntil then Err(QuoteExpired) else
    if BuildXlmName(lbl).Err? then Err(Validation) else
    var name := BuildXlmName(lbl).value;
    var _ :- Check(name !in s.records || now > s.records[name].graceEndsAt, AlreadyRegistered);
    var _ :- Check(s.registry.Some?, NotInitialized);
    Ok(Booked(s, auth, name, owner, quote, now))
  }

  /** The writes both renewal paths make once the new expiry is fixed. */
  function Extended(s: State, auth: set<Address>, name: Str, caller: Address, expiry: U64, payment: U64, now: U64)
    : Handoff
    requires name in s.records
  {
    var r := s.records[name];
    var graceEnd := GraceEnd(expiry, s.grace);
    Handoff(
      s.(records := s.records[name := r.(expiresAt := expiry, graceEndsAt := graceEnd, renewedAt := now,
                                         feePaid := SatAdd(r.feePaid, payment))],
         treasury := SatAdd(s.treasury, payment),
         renewals := SatAdd(s.renewals, 1)),
      Registry.RenewCall(auth, name, caller, expiry, graceEnd, now))
  }

  function Renew(s: State, auth: set<Address>, name: Str, caller: Address, years: U64, payment: U64, now: U64)
    : Result<Handoff, Error>
  {
    var _ :- Check(caller in auth, Trap);
    var _ :- Check(ExtractLabel(name).Ok?, Validation);
    var _ :- ValidateYears(years);
    var _ :- Check(name in s.records, NotFound);
    var r := s.records[name];
    var _ :- Check(r.owner == caller, Unauthorized);
    var _ :- Check(now <= r.graceEndsAt, RegistrationClaimable);
    var _ :- Check(payment >= FeeFor(|ExtractLabel(name).value|, years), InsufficientFee);
    var _ :- Check(s.registry.Some?, NotInitialized);
    Ok(Extended(s, auth, name, caller, ExpiryFrom(RenewalBase(r, now), years), payment, now))
  }

  function ExtendDuringGrace(s: State, auth: set<Address>, name: Str, caller: Address, years: U64, payment: U64,
                             now: U64)
    : Result<Handoff, Error>
  {
    var _ :- Check(caller in auth, Trap);
    var _ :- Check(ExtractLabel(name).Ok?, Validation);
    var _ :- ValidateYears(years);
    var _ :- Check(name in s.records, NotFound);
    var r := s.records[name];
    var _ :- Check(r.owner == caller, Unauthorized);
    var _ :- Check(now > r.expiresAt, NotRenewable);
    var _ :- Check(now <= r.graceEndsAt, RegistrationClaimable);
    var _ :- Check(payment >= FeeFor(|ExtractLabel(name).value|, years), InsufficientFee);
    var _ :- Check(s.registry.Some?, NotInitialized);
    Ok(Extended(s, auth, name, caller, ExpiryFrom(now, years), payment, now))
  }

  // ----- administration -----

  function AdminCheck(s: State, auth: set<Address>): Result<(), Error> {
    if s.admin.None? then Err(NotInitialized) else Check(s.admin.value in auth, Trap)
  }

  function SetGracePeriod(s: State, auth: set<Address>, seconds: U64): Result<State, Error> {
    var _ :- AdminCheck(s, auth);
    var _ :- Check(MIN_GRACE <= seconds <= MAX_GRACE, Validation);
    Ok(s.(grace := seconds))
  }

  function SetRateLimit(s: State, auth: set<Address>, rate: RateLimit): Result<State, Error> {
    var _ :- AdminCheck(s, auth);
    Ok(s.(rate := rate))
  }

  function SetWhitelisted(s: State, auth: set<Address>, who: Address, listed: bool): Result<State, Error> {
    var _ :- AdminCheck(s, auth);
    Ok(s.(whitelist := if listed then s.whitelist + {who} else s.whitelist - {who}))
  }

  function ReserveLabel(s: State, auth: set<Address>, lbl: Str): Result<State, Error> {
    var _ :- AdminCheck(s, auth);
    var _ :- Check(LabelOk(lbl), Validation);
    Ok(s.(reserved := s.reserved + {lbl}))
  }

  function ValidLabels(labels: seq<Str>): set<Str> {
    set l | l in labels && LabelOk(l)
  }

  lemma ValidLabelsStep(labels: seq<Str>, i: nat)
    requires i < |labels|
    ensures ValidLabels(labels[..i + 1]) == ValidLabels(labels[..i]) + (if LabelOk(labels[i]) then {labels[i]} else {})
  {
    assert labels[..i + 1] == labels[..i] + [labels[i]];
  }

  /** Invalid labels of a manifest are skipped, the others reserved. */
  function LoadManifest(s: State, auth: set<Address>, labels: seq<Str>): Result<State, Error> {
    var _ :- AdminCheck(s, auth);
    Ok(s.(reserved := s.reserved + ValidLabels(labels)))
  }

  function RegistrationStatus(s: State, lbl: Str, now: U64): Status {
    if lbl in s.reserved then ReservedLabel
    else if BuildXlmName(lbl).Err? then Unavailable
    else
      var name := BuildXlmName(lbl).value;
      if name !in s.records then Unavailable
      else if now <= s.records[name].expiresAt then Status.Active
      else if now <= s.records[name].graceEndsAt then Status.GracePeriod
      else Status.Claimable
  }

  // ----- the invariant -----

  /** Filed under a name with a label, with ordered dates a grace period of at most one year
      can have produced. */
  ghost predicate GoodRecord(name: Str, r: Record) {
    && r.name == name && ExtractLabel(name).Ok?
    && r.registeredAt <= r.expiresAt <= r.graceEndsAt <= GraceEnd(r.expiresAt, MAX_GRACE)
  }

  ghost predicate Inv(s: State) {
    && MIN_GRACE <= s.grace <= MAX_GRACE
    && forall n :: n in s.records ==> GoodRecord(n, s.records[n])
  }

  lemma GraceEndInRange(expiry: U64, grace: U64)
    requires grace <= MAX_GRACE
    ensures expiry <= GraceEnd(expiry, grace) <= GraceEnd(expiry, MAX_GRACE)
  {
  }

  lemma BookedKeepsInv(s: State, auth: set<Address>, name: Str, owner: Address, quote: Quote, now: U64)
    requires Inv(s) && ExtractLabel(name).Ok?
    requires now <= quote.expiresAt <= quote.graceEndsAt <= GraceEnd(quote.expiresAt, MAX_GRACE)
    ensures Inv(Booked(s, auth, name, owner, quote, now).state)
  {
  }

  lemma BuiltHasLabel(lbl: Str)
    requires BuildXlmName(lbl).Ok?
    ensures ExtractLabel(BuildXlmName(lbl).value).Ok?
  {
    BuildThenExtract(lbl);
  }

  lemma RegisterIsBooked(s: State, auth: set<Address>, lbl: Str, owner: Address, years: U64, maxPrice: U64, now: U64)
    requires Register(s, auth, lbl, owner, years, maxPrice, now).Ok?
    ensures BuildXlmName(lbl).Ok?
    ensures Register(s, auth, lbl, owner, years, maxPrice, now).value
         == Booked(s, auth, BuildXlmName(lbl).value, owner, BuildQuote(s, lbl, years, now), now)
  {
  }

  lemma RegisterKeepsInv(s: State, auth: set<Address>, lbl: Str, owner: Address, years: U64, maxPrice: U64, now: U64)
    requires Inv(s)
    ensures var r := Register(s, auth, lbl, owner, years, maxPrice, now); r.Ok? ==> Inv(r.value.state)
  {
    if Register(s, auth, lbl, owner, years, maxPrice, now).Ok? {
      RegisterIsBooked(s, auth, lbl, owner, years, maxPrice, now);
      BuiltHasLabel(lbl);
      GraceEndInRange(ExpiryFrom(now, years), s.grace);
      BookedKeepsInv(s, auth, BuildXlmName(lbl).value, owner, BuildQuote(s, lbl, years, now), now);
    }
  }

  lemma ExtendedKeepsInv(s: State, auth: set<Address>, name: Str, caller: Address, expiry: U64, payment: U64, now: U64)
    requires Inv(s) && name in s.records && s.records[name].expiresAt <= expiry
    ensures Inv(Extended(s, auth, name, caller, expiry, payment, now).state)
  {
    assert GoodRecord(name, s.records[name]);
    GraceEndInRange(expiry, s.grace);
  }

  lemma RenewIsExtended(s: State, auth: set<Address>, name: Str, caller: Address, years: U64, payment: U64, now: U64)
    requires Renew(s, auth, name, caller, years, payment, now).Ok?
    ensures name in s.records && s.records[name].owner == caller && now <= s.records[name].graceEndsAt
    ensures var expiry := ExpiryFrom(RenewalBase(s.records[name], now), years);
            && s.records[name].expiresAt <= expiry
            && Renew(s, auth, name, caller, years, payment, now).value ==
               Extended(s, auth, name, caller, expiry, payment, now)
  {
  }

  lemma RenewKeepsInv(s: State, auth: set<Address>, name: Str, caller: Address, years: U64, payment: U64, now: U64)
    requires Inv(s)
    ensures var r := Renew(s, auth, name, caller, years, payment, now); r.Ok? ==> Inv(r.value.state)
  {
    if Renew(s, auth, name, caller, years, payment, now).Ok? {
      RenewIsExtended(s, auth, name, caller, years, payment, now);
      ExtendedKeepsInv(s, auth, name, caller, ExpiryFrom(RenewalBase(s.records[name], now), years), payment, now);
    }
  }

  lemma ExtendKeepsInv(s: State, auth: set<Address>, name: Str, caller: Address, years: U64, payment: U64, now: U64)
    requires Inv(s)
    ensures var r := ExtendDuringGrace(s, auth, name, caller, years, payment, now); r.Ok? ==> Inv(r.value.state)
  {
    ExtendIsRenew(s, auth, name, caller, years, payment, now);
    RenewKeepsInv(s, auth, name, caller, years, payment, now);
  }

  // ----- consequences -----

  /** The price list: the fee of a registration is the exact product, it never saturates, and
      it is what the record shows and the treasury gains. */
  lemma RegistrationCharges(s: State, auth: set<Address>, lbl: Str, owner: Address, years: U64, maxPrice: U64, now: U64)
    requires Register(s, auth, lbl, owner, years, maxPrice, now).Ok?
    ensures var fee := years * (if |lbl| == 3 then 1_000_000_000 else if |lbl| <= 6 then 250_000_000 else 100_000_000);
            var t := Register(s, auth, lbl, owner, years, maxPrice, now).value.state;
            && fee <= maxPrice
            && t.treasury == Min(s.treasury + fee, U64_MAX)
            && t.records[lbl + [DOT] + XLM].feePaid == fee
            && t.records[lbl + [DOT] + XLM].expiresAt == Min(now + years * YEAR_SECONDS, U64_MAX)
            && t.records.Keys == s.records.Keys + {lbl + [DOT] + XLM}
  {
    ValidLabelIff(lbl);
  }

  /** Where extending during the grace period succeeds, renewing has the same effect; and
      extending succeeds on exactly the renewals made after the expiry. */
  lemma ExtendIsRenew(s: State, auth: set<Address>, name: Str, caller: Address, years: U64, payment: U64, now: U64)
    ensures var x := ExtendDuringGrace(s, auth, name, caller, years, payment, now);
            var r := Renew(s, auth, name, caller, years, payment, now);
            && (x.Ok? ==> x == r)
            && (x.Ok? <==> r.Ok? && now > s.records[name].expiresAt)
  {
  }

  /** A renewal quote states exactly what the renewal does: the same fee threshold, the same
      new dates. */
  lemma QuoteMatchesRenewal(s: State, auth: set<Address>, name: Str, caller: Address, years: U64, payment: U64,
                            now: U64)
    requires Renew(s, auth, name, caller, years, payment, now).Ok?
    ensures var q := QuoteRenewal(s, name, years, now);
            var after := Renew(s, auth, name, caller, years, payment, now).value.state.records[name];
            && q.Ok? && q.value.fee <= payment
            && q.value.currentExpiry == s.records[name].expiresAt
            && q.value.extendedExpiry == after.expiresAt
            && q.value.graceEndsAt == after.graceEndsAt
    ensures forall p: U64 :: Renew(s, auth, name, caller, years, p, now).Ok? <==>
            p >= QuoteRenewal(s, name, years, now).value.fee
  {
  }
}
