/**
 What each call of the registrar promises: exactly when its own checks pass, what it charges and
 writes; and over every run of the system, what the treasury, the counters and the rate limit
 have counted.
 */
module RegistrarLaws {
  import opened Common
  import opened Lifecycle
  import opened Names
  import opened Registrar
  import NameService
  import Registry

  /** The price list, in whole years. */
  function Fee(length: nat, years: U64): nat {
    if length <= 3 then 1_000_000_000 * years else if length <= 6 then 250_000_000 * years else 100_000_000 * years
  }

  /** The bytes before the first dot. */
  function LeadingLength(name: Str): nat {
    FirstSep(name, DOT)
  }

  function Capped(n: nat): U64 {
    Min(n, U64_MAX)
  }

  /** Registrations counted for `who` in the window that starts at `start`. */
  function InWindow(r: State, who: Address, start: U64): U64 {
    if (who, start) in r.windows then r.windows[(who, start)] else 0
  }

  lemma ExtractIff(name: Str)
    ensures ExtractLabel(name).Ok? <==> IsFqdn(name)
    ensures IsFqdn(name) ==> |ExtractLabel(name).value| == LeadingLength(name)
  {
    if IsFqdn(name) {
      FqdnLanguage(name);
      assert LastSep(name, DOT).Some?;
    }
  }

  // ----- registering -----

  lemma RegisterSucceedsIff(s: State, auth: set<Address>, lbl: Str, owner: Address, years: U64, maxPrice: U64, now: U64)
    ensures Register(s, auth, lbl, owner, years, maxPrice, now).Ok? <==>
            && owner in auth && IsLabel(lbl) && 1 <= years <= 10 && lbl !in s.reserved
            && (owner in s.whitelist || WindowCount(s, owner, now) < s.rate.limit)
            && Fee(|lbl|, years) <= maxPrice
            && (lbl + [DOT] + XLM in s.records ==> s.records[lbl + [DOT] + XLM].graceEndsAt < now)
            && s.registry.Some?
  {
    ValidLabelIff(lbl);
  }

  /** What a registration writes: the record with its dates and fee, one more in the window of its
      owner, the fee in the treasury, one more registration; and nothing else. */
  lemma RegisterWrites(s: State, auth: set<Address>, lbl: Str, owner: Address, years: U64, maxPrice: U64, now: U64)
    requires Register(s, auth, lbl, owner, years, maxPrice, now).Ok?
    ensures var h := Register(s, auth, lbl, owner, years, maxPrice, now).value;
            var t, name := h.state, lbl + [DOT] + XLM;
            var expiry, fee := Capped(now + years * 31_536_000), Fee(|lbl|, years);
            var grace := Capped(expiry + s.grace);
            && name in t.records && fee <= U64_MAX
            && t.records[name] == Record(name, owner, now, expiry, grace, fee, now)
            && t.records.Keys == s.records.Keys + {name}
            && (forall n :: n in s.records && n != name ==> t.records[n] == s.records[n])
            && t.treasury == Capped(s.treasury + fee) && t.registrations == Capped(s.registrations + 1)
            && (forall who, start ::
                  InWindow(t, who, start) ==
                  Capped(InWindow(s, who, start)
                         + (if who == owner && start == SatSub(now, s.rate.window) then 1 else 0)))
            && t == s.(records := t.records, treasury := t.treasury, registrations := t.registrations,
                       windows := t.windows)
            && h.call == Registry.RegisterCall(auth, name, owner, None, None, now, expiry, grace)
  {
    RegisterIsBooked(s, auth, lbl, owner, years, maxPrice, now);
    RegistrationCharges(s, auth, lbl, owner, years, maxPrice, now);
  }

  // ----- renewing -----

  lemma RenewSucceedsIff(s: State, auth: set<Address>, name: Str, caller: Address, years: U64, payment: U64, now: U64)
    ensures Renew(s, auth, name, caller, years, payment, now).Ok? <==>
            && caller in auth && IsFqdn(name) && 1 <= years <= 10
            && name in s.records && s.records[name].owner == caller && now <= s.records[name].graceEndsAt
            && Fee(LeadingLength(name), years) <= payment && s.registry.Some?
  {
    ExtractIff(name);
  }

  /** What a renewal, or an extension during the grace period, charges and writes: the payment
      is added to the record and to the treasury, the dates move on from the later of expiry and
      clock, one more renewal is counted; and nothing else. */
  lemma RenewWrites(s: State, auth: set<Address>, name: Str, caller: Address, years: U64, payment: U64, now: U64)
    requires Renew(s, auth, name, caller, years, payment, now).Ok?
    ensures var h := Renew(s, auth, name, caller, years, payment, now).value;
            var t := h.state;
            && name in s.records
            && var r := s.records[name];
            && var expiry := Capped(Max(r.expiresAt, now) + years * 31_536_000);
            && var grace := Capped(expiry + s.grace);
            && name in t.records && t.records.Keys == s.records.Keys
            && t.records[name] == r.(expiresAt := expiry, graceEndsAt := grace, renewedAt := now,
                                     feePaid := Capped(r.feePaid + payment))
            && (forall n :: n in s.records && n != name ==> t.records[n] == s.records[n])
            && t.treasury == Capped(s.treasury + payment) && t.renewals == Capped(s.renewals + 1)
            && t == s.(records := t.records, treasury := t.treasury, renewals := t.renewals)
            && h.call == Registry.RenewCall(auth, name, caller, expiry, grace, now)
    ensures var x := ExtendDuringGrace(s, auth, name, caller, years, payment, now);
            x.Ok? <==> s.records[name].expiresAt < now
    ensures var x := ExtendDuringGrace(s, auth, name, caller, years, payment, now);
            x.Ok? ==> x == Renew(s, auth, name, caller, years, payment, now)
  {
    RenewIsExtended(s, auth, name, caller, years, payment, now);
    ExtendIsRenew(s, auth, name, caller, years, payment, now);
  }

  // ----- administration -----

  predicate AdminActs(s: State, auth: set<Address>) {
    s.admin.Some? && s.admin.value in auth
  }

  lemma AdministrationSucceedsIff(s: State, auth: set<Address>, seconds: U64, rate: RateLimit, who: Address,
                                  listed: bool,
                                  lbl: Str, labels: seq<Str>)
    ensures SetGracePeriod(s, auth, seconds).Ok? <==> AdminActs(s, auth) && 86_400 <= seconds <= 31_536_000
    ensures SetRateLimit(s, auth, rate).Ok? <==> AdminActs(s, auth)
    ensures SetWhitelisted(s, auth, who, listed).Ok? <==> AdminActs(s, auth)
    ensures ReserveLabel(s, auth, lbl).Ok? <==> AdminActs(s, auth) && IsLabel(lbl)
    ensures LoadManifest(s, auth, labels).Ok? <==> AdminActs(s, auth)
  {
    ValidLabelIff(lbl);
  }

  /** Each setting changes its own field, by its own argument. */
  lemma SettingsWrite(s: State, auth: set<Address>, seconds: U64, rate: RateLimit, who: Address, listed: bool,
                      a: Address)
    requires AdminActs(s, auth)
    ensures var t := Commit(s, SetGracePeriod(s, auth, seconds));
            t == s.(grace := t.grace) && (86_400 <= seconds <= 31_536_000 ==> t.grace == seconds)
    ensures SetRateLimit(s, auth, rate).value == s.(rate := rate)
    ensures var t := SetWhitelisted(s, auth, who, listed).value;
            && t == s.(whitelist := t.whitelist)
            && (a in t.whitelist <==> if a == who then listed else a in s.whitelist)
  {
  }

  /** Reserving adds the valid labels and keeps the others. */
  lemma ReservingAdds(s: State, auth: set<Address>, lbl: Str, labels: seq<Str>, l: Str)
    requires AdminActs(s, auth)
    ensures IsLabel(lbl) ==>
              var t := ReserveLabel(s, auth, lbl).value;
              t == s.(reserved := t.reserved) && (l in t.reserved <==> l in s.reserved || l == lbl)
    ensures var t := LoadManifest(s, auth, labels).value;
            t == s.(reserved := t.reserved) && (l in t.reserved <==> l in s.reserved || (l in labels && IsLabel(l)))
  {
    ValidLabelIff(lbl);
    ValidLabelIff(l);
  }

  // ----- over runs: the money -----

  /** The price of a registration, the payment of a renewal. */
  function Price(c: NameService.Call): nat {
    match c
    case RegisterLabel(_, lbl, _, years, _, _) => Fee(|lbl|, years)
    case RenewName(_, _, _, _, payment, _) => payment
    case ExtendName(_, _, _, _, payment, _) => payment
    case _ => 0
  }

  /** What a call brings in if it commits. */
  function Charge(sys: NameService.System, e: NameService.Event): nat {
    if NameService.Outcome(sys, e).Ok? then Price(e.call) else 0
  }

  lemma RequestCharges(r: State, c: NameService.Call)
    requires c.Requests() && NameService.Request(r, c).Ok?
    ensures NameService.Request(r, c).value.state.treasury ==
            Capped(r.treasury + Price(c))
    ensures NameService.Request(r, c).value.state.registrations ==
            Capped(r.registrations + (if c.RegisterLabel? then 1 else 0))
    ensures NameService.Request(r, c).value.state.renewals == Capped(r.renewals + (if c.RegisterLabel? then 0 else 1))
  {
    match c
    case RegisterLabel(auth, lbl, owner, years, maxPrice, now) =>
      RegisterWrites(r, auth, lbl, owner, years, maxPrice, now);
    case RenewName(auth, name, caller, years, payment, now) =>
      RenewWrites(r, auth, name, caller, years, payment, now);
    case ExtendName(auth, name, caller, years, payment, now) =>
      ExtendIsRenew(r, auth, name, caller, years, payment, now);
      RenewWrites(r, auth, name, caller, years, payment, now);
  }

  /** Everything but a request leaves money, counters and windows alone. */
  lemma OthersChargeNothing(sys: NameService.System, e: NameService.Event)
    requires !e.call.Requests()
    ensures var r, t := sys.registrar, NameService.Step(sys, e).registrar;
            && t.treasury == r.treasury && t.registrations == r.registrations && t.renewals == r.renewals
            && t.windows == r.windows
  {
  }

  lemma StepCollects(sys: NameService.System, e: NameService.Event)
    ensures NameService.Step(sys, e).registrar.treasury == Capped(sys.registrar.treasury + Charge(sys, e))
  {
    if !e.call.Requests() {
      OthersChargeNothing(sys, e);
    } else if NameService.Outcome(sys, e).Ok? {
      RequestCharges(sys.registrar, e.call);
    }
  }

  /** All calls of a run together. */
  function Collected(sys: NameService.System, events: seq<NameService.Event>): nat {
    if events == [] then 0
    else
      var front := events[..|events| - 1];
      Collected(sys, front) + Charge(NameService.Run(sys, front), events[|events| - 1])
  }

  /** `later` is `earlier` with `more` added, up to the capacity. */
  predicate Grew(earlier: U64, more: nat, later: U64) {
    later == Capped(earlier + more)
  }

  lemma GrewTwice(a: U64, more: nat, b: U64, again: nat, c: U64)
    requires Grew(a, more, b) && Grew(b, again, c)
    ensures Grew(a, more + again, c)
  {
  }

  lemma RunCollects(sys: NameService.System, events: seq<NameService.Event>)
    requires events != []
    ensures var before := NameService.Run(sys, events[..|events| - 1]);
            Grew(before.registrar.treasury, Charge(before, events[|events| - 1]),
                 NameService.Run(sys, events).registrar.treasury)
  {
    StepCollects(NameService.Run(sys, events[..|events| - 1]), events[|events| - 1]);
  }

  /** Over every run of the system the treasury has grown by the fees and payments of all
      committed requests, up to its capacity. */
  lemma {:induction false} TreasuryIsCollected(sys: NameService.System, events: seq<NameService.Event>)
    ensures Grew(sys.registrar.treasury, Collected(sys, events), NameService.Run(sys, events).registrar.treasury)
  {
    if events != [] {
      var front, last := events[..|events| - 1], events[|events| - 1];
      var before := NameService.Run(sys, front);
      TreasuryIsCollected(sys, front);
      RunCollects(sys, events);
      GrewTwice(sys.registrar.treasury, Collected(sys, front), before.registrar.treasury,
                Charge(before, last), NameService.Run(sys, events).registrar.treasury);
    }
  }

  // ----- over runs: the counters -----

  /** A committed registration, or a committed renewal or extension. */
  predicate Committed(sys: NameService.System, e: NameService.Event, registration: bool) {
    e.call.Requests() && e.call.RegisterLabel? == registration && NameService.Outcome(sys, e).Ok?
  }

  function Count(sys: NameService.System, events: seq<NameService.Event>, registrations: bool): nat {
    if events == [] then 0
    else
      var front := events[..|events| - 1];
      Count(sys, front, registrations)
      + (if Committed(NameService.Run(sys, front), events[|events| - 1], registrations) then 1 else 0)
  }

  /** The counter of committed registrations, or of committed renewals. */
  function Counter(r: State, registrations: bool): U64 {
    if registrations then r.registrations else r.renewals
  }

  lemma StepCounts(sys: NameService.System, e: NameService.Event, registrations: bool)
    ensures Grew(Counter(sys.registrar, registrations), if Committed(sys, e, registrations) then 1 else 0,
                 Counter(NameService.Step(sys, e).registrar, registrations))
  {
    if !e.call.Requests() {
      OthersChargeNothing(sys, e);
    } else if NameService.Outcome(sys, e).Ok? {
      RequestCharges(sys.registrar, e.call);
    }
  }

  /** Over every run both counters have counted exactly the committed requests of their kind. */
  lemma {:induction false} CountersCount(sys: NameService.System, events: seq<NameService.Event>, registrations: bool)
    ensures Grew(Counter(sys.registrar, registrations), Count(sys, events, registrations),
                 Counter(NameService.Run(sys, events).registrar, registrations))
  {
    if events != [] {
      var front, last := events[..|events| - 1], events[|events| - 1];
      var before := NameService.Run(sys, front);
      CountersCount(sys, front, registrations);
      StepCounts(before, last, registrations);
      GrewTwice(Counter(sys.registrar, registrations), Count(sys, front, registrations),
                Counter(before.registrar, registrations), if Committed(before, last, registrations) then 1 else 0,
                Counter(NameService.Step(before, last).registrar, registrations));
    }
  }

  // ----- over runs: the rate limit -----

  predicate CountsFor(sys: NameService.System, e: NameService.Event, who: Address, start: U64) {
    && e.call.RegisterLabel? && e.call.owner == who && SatSub(e.call.now, sys.registrar.rate.window) == start
    && NameService.Outcome(sys, e).Ok?
  }

  /** Committed registrations of `who` at clocks whose window starts at `start`. */
  function Registered(sys: NameService.System, events: seq<NameService.Event>, who: Address, start: U64): nat {
    if events == [] then 0
    else
      var front := events[..|events| - 1];
      Registered(sys, front, who, start)
      + (if CountsFor(NameService.Run(sys, front), events[|events| - 1], who, start) then 1 else 0)
  }

  lemma StepCountsWindow(sys: NameService.System, e: NameService.Event, who: Address, start: U64)
    ensures Grew(InWindow(sys.registrar, who, start), if CountsFor(sys, e, who, start) then 1 else 0,
                 InWindow(NameService.Step(sys, e).registrar, who, start))
  {
    if !e.call.Requests() {
      OthersChargeNothing(sys, e);
    } else if NameService.Outcome(sys, e).Ok? {
      RequestCountsWindow(sys.registrar, e.call, who, start);
    }
  }

  lemma RequestCountsWindow(r: State, c: NameService.Call, who: Address, start: U64)
    requires c.Requests() && NameService.Request(r, c).Ok?
    ensures Grew(InWindow(r, who, start),
                 if c.RegisterLabel? && c.owner == who && SatSub(c.now, r.rate.window) == start then 1 else 0,
                 InWindow(NameService.Request(r, c).value.state, who, start))
  {
    match c
    case RegisterLabel(auth, lbl, owner, years, maxPrice, now) =>
      RegisterWrites(r, auth, lbl, owner, years, maxPrice, now);
    case RenewName(auth, name, caller, years, payment, now) =>
      RenewWrites(r, auth, name, caller, years, payment, now);
    case ExtendName(auth, name, caller, years, payment, now) =>
      ExtendIsRenew(r, auth, name, caller, years, payment, now);
      RenewWrites(r, auth, name, caller, years, payment, now);
  }

  /** Over every run a window has counted exactly the committed registrations that fall into it. */
  lemma {:induction false} WindowsCount(sys: NameService.System, events: seq<NameService.Event>, who: Address,
                                        start: U64)
    ensures Grew(InWindow(sys.registrar, who, start), Registered(sys, events, who, start),
                 InWindow(NameService.Run(sys, events).registrar, who, start))
  {
    if events != [] {
      var front, last := events[..|events| - 1], events[|events| - 1];
      var before := NameService.Run(sys, front);
      WindowsCount(sys, front, who, start);
      StepCountsWindow(before, last, who, start);
      GrewTwice(InWindow(sys.registrar, who, start), Registered(sys, front, who, start),
                InWindow(before.registrar, who, start), if CountsFor(before, last, who, start) then 1 else 0,
                InWindow(NameService.Step(before, last).registrar, who, start));
    }
  }

  lemma RegisterRespectsLimit(r: State, c: NameService.Call, registered: nat)
    requires c.RegisterLabel? && NameService.Request(r, c).Ok?
    requires Grew(0, registered, InWindow(r, c.owner, SatSub(c.now, r.rate.window)))
    ensures c.owner in r.whitelist || registered < r.rate.limit
  {
  }

  /** Over every run from empty windows: whoever is not whitelisted and has already made as many
      registrations at clocks with this window start as the limit allows is refused. */
  lemma RateLimitHolds(sys: NameService.System, events: seq<NameService.Event>, r: State, c: NameService.Call)
    requires sys.registrar.windows == map[] && r == NameService.Run(sys, events).registrar
    requires c.RegisterLabel? && NameService.Request(r, c).Ok?
    ensures c.owner in r.whitelist || Registered(sys, events, c.owner, SatSub(c.now, r.rate.window)) < r.rate.limit
  {
    var start := SatSub(c.now, r.rate.window);
    WindowsCount(sys, events, c.owner, start);
    RegisterRespectsLimit(r, c, Registered(sys, events, c.owner, start));
  }

  // ----- errors -----

  /** The reasons an error stands for. */
  predicate Reason(r: State, c: NameService.Call, e: Error)
    requires c.Requests()
  {
    match e
    case InsufficientFee =>
      if c.RegisterLabel? then c.maxPrice < Fee(|c.lbl|, c.years) else c.payment < Fee(LeadingLength(c.name), c.years)
    case NotFound => !c.RegisterLabel? && c.name !in r.records
    case NotRenewable => c.ExtendName? && c.name in r.records && c.now <= r.records[c.name].expiresAt
    case AlreadyRegistered =>
      c.RegisterLabel? && c.lbl + [DOT] + XLM in r.records && c.now <= r.records[c.lbl + [DOT] + XLM].graceEndsAt
    case Reserved => c.RegisterLabel? && c.lbl in r.reserved
    case Unauthorized => !c.RegisterLabel? && c.name in r.records && r.records[c.name].owner != c.caller
    case Validation =>
      !(1 <= c.years <= 10) || (if c.RegisterLabel? then !IsLabel(c.lbl) else !IsFqdn(c.name))
    case RegistrationClaimable => !c.RegisterLabel? && c.name in r.records && r.records[c.name].graceEndsAt < c.now
    case NotInitialized => r.registry.None?
    case RateLimitExceeded =>
      && c.RegisterLabel? && c.owner !in r.whitelist
      && r.rate.limit <= InWindow(r, c.owner, SatSub(c.now, r.rate.window))
    case QuoteExpired => false
    case Trap => (if c.RegisterLabel? then c.owner else c.caller) !in c.auth
  }

  lemma RegisterErrors(r: State, c: NameService.Call)
    requires c.RegisterLabel? && NameService.Request(r, c).Err?
    ensures Reason(r, c, NameService.Request(r, c).error)
    ensures NameService.Request(r, c).error != Trap && NameService.Request(r, c).error != Validation ==> IsLabel(c.lbl)
  {
    ValidLabelIff(c.lbl);
  }

  lemma RenewErrors(r: State, c: NameService.Call)
    requires c.RenewName? && NameService.Request(r, c).Err?
    ensures Reason(r, c, NameService.Request(r, c).error)
  {
    ExtractIff(c.name);
  }

  lemma ExtendErrors(r: State, c: NameService.Call)
    requires c.ExtendName? && NameService.Request(r, c).Err?
    ensures Reason(r, c, NameService.Request(r, c).error)
  {
    ExtractIff(c.name);
  }

  /** A request is only ever turned down for its reason, never for an expired quote, and a
      registration for any other reason only once its label is known to be valid. */
  lemma ErrorsAreTrue(r: State, c: NameService.Call)
    requires c.Requests() && NameService.Request(r, c).Err?
    ensures Reason(r, c, NameService.Request(r, c).error)
    ensures var e := NameService.Request(r, c).error;
            c.RegisterLabel? && e != Trap && e != Validation ==> IsLabel(c.lbl)
  {
    if c.RegisterLabel? {
      RegisterErrors(r, c);
    } else if c.RenewName? {
      RenewErrors(r, c);
    } else {
      ExtendErrors(r, c);
    }
  }

  /** A quote for a renewal names the price and the dates, whoever asks and whether or not the
      renewal would pass. */
  lemma QuoteIs(s: State, name: Str, years: U64, now: U64)
    ensures QuoteRenewal(s, name, years, now).Ok? <==> IsFqdn(name) && 1 <= years <= 10 && name in s.records
    ensures QuoteRenewal(s, name, years, now).Ok? ==>
              var q, r := QuoteRenewal(s, name, years, now).value, s.records[name];
              && q.fee == Fee(LeadingLength(name), years) && q.currentExpiry == r.expiresAt
              && q.extendedExpiry == Capped(Max(r.expiresAt, now) + years * 31_536_000)
              && q.graceEndsAt == Capped(q.extendedExpiry + s.grace)
  {
    ExtractIff(name);
  }

  lemma StatusIff(s: State, lbl: Str, now: U64)
    requires Inv(s) && IsLabel(lbl) && lbl !in s.reserved
    ensures var name, status := lbl + [DOT] + XLM, RegistrationStatus(s, lbl, now);
            && (status == Unavailable <==> name !in s.records)
            && (status == Status.Active <==> name in s.records && now <= s.records[name].expiresAt)
            && (status == Status.Claimable <==> name in s.records && s.records[name].graceEndsAt < now)
  {
    ValidLabelIff(lbl);
    assert lbl + [DOT] + XLM in s.records ==> GoodRecord(lbl + [DOT] + XLM, s.records[lbl + [DOT] + XLM]);
  }
}
