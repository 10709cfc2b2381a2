/**
 What each call of the auction contract promises: exactly when it succeeds, what it moves and
 writes, and that over every run tokens are neither created nor lost.
 */
module AuctionLaws {
  import opened Common
  import opened Ledger
  import opened Names
  import opened Vickrey
  import opened Auctions

  // ----- bidding -----

  lemma PlaceSucceedsIff(s: State, auth: set<Address>, name: Str, bidder: Address, amount: U64, now: U64)
    ensures PlaceBid(s, auth, name, bidder, amount, now).Ok? <==>
            && !s.locked && bidder in auth && bidder != s.self && amount > 0
            && name in s.auctions && name !in s.settlements
            && s.auctions[name].startsAt <= now <= s.auctions[name].endsAt
            && amount <= BalanceOf(s.balances, s.auctions[name].asset, bidder)
  {
  }

  /** Change of one balance by a bid. */
  function Charged(s: State, name: Str, bidder: Address, amount: U64, asset: Address, who: Address): int
    requires name in s.auctions
  {
    if asset != s.auctions[name].asset then 0
    else if who == s.self then amount
    else if who == bidder then 0 - amount
    else 0
  }

  /** A bid costs the bidder exactly its amount, which the contract receives, and nobody else
      anything, in any asset; it is appended to the bids of that auction and nothing else is
      written. */
  lemma PlaceMovesExactly(s: State, auth: set<Address>, name: Str, bidder: Address, amount: U64, now: U64)
    requires PlaceBid(s, auth, name, bidder, amount, now).Ok?
    ensures var t := PlaceBid(s, auth, name, bidder, amount, now).value;
            && (forall asset, who ::
                  BalanceOf(t.balances, asset, who) ==
                  BalanceOf(s.balances, asset, who) + Charged(s, name, bidder, amount, asset, who))
            && name in t.auctions
            && t.auctions[name].bids == s.auctions[name].bids + [Bid(bidder, amount, now)]
            && Grown(s.auctions[name], t.auctions[name])
            && t.auctions.Keys == s.auctions.Keys
            && (forall n :: n in s.auctions && n != name ==> t.auctions[n] == s.auctions[n])
            && t == s.(auctions := t.auctions, balances := t.balances)
  {
  }

  /** The listing of active auctions shows exactly those that would take a covered bid. */
  lemma ActiveIffBiddable(s: State, name: Str, bidder: Address, amount: U64, now: U64)
    requires !s.locked && bidder != s.self && amount > 0 && Indexed(s)
    requires name in s.auctions ==> amount <= BalanceOf(s.balances, s.auctions[name].asset, bidder)
    ensures s.IsActive(now)(name) <==> PlaceBid(s, {bidder}, name, bidder, amount, now).Ok?
    ensures s.IsSettled()(name) ==> !s.IsActive(now)(name) && SettleAuction(s, name, now) == Err(AlreadySettled)
  {
  }

  // ----- creating -----

  lemma CreateSucceedsIff(s: State, auth: set<Address>, name: Str, asset: Address, treasury: Address,
                          reserve: U64, startsAt: U64, endsAt: U64)
    ensures CreateAuction(s, auth, name, asset, treasury, reserve, startsAt, endsAt).Ok? <==>
            s.admin.Some? && s.admin.value in auth && IsFqdn(name) && name !in s.auctions
  {
  }

  /** The terms an auction is created with. */
  predicate HasTerms(a: Auction, c: Call)
    requires c.Create?
  {
    && a.name == c.name && a.asset == c.asset && a.treasury == c.treasury
    && a.reserve == c.reserve && a.startsAt == c.startsAt && a.endsAt == c.endsAt
  }

  /** A created auction has the terms it was given, no bids, and is listed last; and over every
      later run the terms stay. */
  lemma CreatedTermsStay(s: State, c: Call, future: seq<Call>)
    requires c.Create? && Outcome(s, c).Ok?
    ensures var t := Outcome(s, c).value;
            && c.name in t.auctions && HasTerms(t.auctions[c.name], c) && t.auctions[c.name].bids == []
            && t.names == s.names + [c.name] && t.balances == s.balances && t.settlements == s.settlements
            && (forall n :: n in s.auctions ==> n in t.auctions && t.auctions[n] == s.auctions[n])
            && c.name in Run(t, future).auctions && HasTerms(Run(t, future).auctions[c.name], c)
  {
    RunExtends(Outcome(s, c).value, future);
  }

  lemma InitializeSucceedsIff(s: State, admin: Address)
    ensures Initialize(s, admin).Ok? <==> s.admin.None?
    ensures Initialize(s, admin).Ok? ==> Initialize(s, admin).value == s.(admin := Some(admin))
  {
  }

  /** Whoever is administrator stays so over every run. */
  lemma {:induction false} AdministratorStays(s: State, calls: seq<Call>)
    requires s.admin.Some?
    ensures Run(s, calls).admin == s.admin
  {
    if calls != [] {
      AdministratorStays(s, calls[..|calls| - 1]);
    }
  }

  // ----- settling -----

  /** Settling records the outcome of this auction and touches no other auction, bid or index. */
  lemma SettleWritesOnly(s: State, name: Str, now: U64)
    requires SettleAuction(s, name, now).Ok?
    ensures var t := SettleAuction(s, name, now).value;
            && t == s.(settlements := t.settlements, balances := t.balances)
            && (s.auctions[name].bids == [] ==> t == s)
            && (s.auctions[name].bids != [] ==> t.settlements.Keys == s.settlements.Keys + {name})
            && (forall n :: n in s.settlements ==> t.settlements[n] == s.settlements[n])
  {
  }

  // ----- conservation -----

  /** Everything ever minted of an asset. */
  function Minted(calls: seq<Call>, asset: Address): nat {
    if calls == [] then 0
    else
      var last := calls[|calls| - 1];
      Minted(calls[..|calls| - 1], asset) + (if last.ForeignMint? && last.asset == asset then last.value else 0)
  }

  lemma StepKeepsSupply(s: State, c: Call, asset: Address, holders: seq<Address>)
    requires Distinct(holders) && Covers(Step(s, c).balances, holders)
    ensures Covers(s.balances, holders)
    ensures Supply(Step(s, c).balances, asset, holders) ==
            Supply(s.balances, asset, holders) + (if c.ForeignMint? && c.asset == asset then c.value else 0)
  {
    var t := Step(s, c);
    if Outcome(s, c).Ok? {
      match c
      case Place(_, name, bidder, amount, _) =>
        TransferKeepsSupply(s.balances, s.auctions[name].asset, bidder, s.self, amount, asset, holders);
      case SettleName(name, now) => SettleKeepsSupply(s, name, now, asset, holders);
      case ForeignTransfer(a, from, to, value) => TransferKeepsSupply(s.balances, a, from, to, value, asset, holders);
      case ForeignMint(a, to, value) => CreditAddsSupply(s.balances, a, to, value, asset, holders);
      case _ =>
    }
  }

  lemma SettleKeepsSupply(s: State, name: Str, now: U64, asset: Address, holders: seq<Address>)
    requires SettleAuction(s, name, now).Ok? && Distinct(holders)
    requires Covers(SettleAuction(s, name, now).value.balances, holders)
    ensures Covers(s.balances, holders)
    ensures Supply(SettleAuction(s, name, now).value.balances, asset, holders) == Supply(s.balances, asset, holders)
  {
    var a := s.auctions[name];
    if a.bids != [] {
      PayAllKeepsSupply(s.balances, a.asset, s.self, Settling(a, now), asset, holders);
    }
  }

  lemma CreditAddsSupply(b: Balances, a: Address, to: Address, value: nat, asset: Address, holders: seq<Address>)
    requires Distinct(holders) && Covers(Credit(b, a, to, value), holders)
    ensures Covers(b, holders)
    ensures Supply(Credit(b, a, to, value), asset, holders) ==
            Supply(b, asset, holders) + (if a == asset then value else 0)
  {
    assert (a, to) in Credit(b, a, to, value);
    assert forall k :: k in b ==> k in Credit(b, a, to, value);
    if a == asset {
      SupplySet(b, asset, holders, to, BalanceOf(b, a, to) + value);
    } else {
      SupplySame(b, Credit(b, a, to, value), asset, holders);
    }
  }

  /** Over every run all holders together own exactly what was minted: bids, refunds, payouts and
      outside transfers only move it. */
  lemma {:induction false} SupplyIsMinted(self: Address, calls: seq<Call>, asset: Address, holders: seq<Address>)
    requires Distinct(holders) && Covers(Run(Fresh(self), calls).balances, holders)
    ensures Supply(Run(Fresh(self), calls).balances, asset, holders) == Minted(calls, asset)
  {
    if calls == [] {
      SupplyOfNothing(asset, holders);
    } else {
      var front := calls[..|calls| - 1];
      StepKeepsSupply(Run(Fresh(self), front), calls[|calls| - 1], asset, holders);
      SupplyIsMinted(self, front, asset, holders);
    }
  }

  lemma {:induction false} SupplyOfNothing(asset: Address, holders: seq<Address>)
    ensures Supply(map[], asset, holders) == 0
  {
    if holders != [] {
      SupplyOfNothing(asset, holders[..|holders| - 1]);
    }
  }

  // ----- errors -----

  /** The reasons an error stands for. */
  ghost predicate Reason(s: State, c: Call, e: Error) {
    match e
    case Validation => c.Create? && !IsFqdn(c.name)
    case AlreadyExists => (c.Init? && s.admin.Some?) || (c.Create? && c.name in s.auctions)
    case NotFound => (c.Create? && s.admin.None?) || ((c.Place? || c.SettleName?) && c.name !in s.auctions)
    case AuctionClosed => c.Place? && c.name in s.auctions && s.auctions[c.name].endsAt < c.now
    case AuctionNotStarted => c.Place? && c.name in s.auctions && c.now < s.auctions[c.name].startsAt
    case AuctionNotEnded => c.SettleName? && c.name in s.auctions && c.now < s.auctions[c.name].endsAt
    case AlreadySettled => (c.Place? || c.SettleName?) && c.name in s.settlements
    case InvalidBid => c.Place? && c.amount == 0
    case ReentrancyDetected => c.Place? && s.locked
    case Trap =>
      || (c.Create? && s.admin.Some? && s.admin.value !in c.auth)
      || (c.Place? && (c.bidder !in c.auth || c.bidder == s.self || LacksFunds(s, c)))
      || (c.ForeignTransfer? && (c.from == s.self || BalanceOf(s.balances, c.asset, c.from) < c.value))
      || (c.SettleName? && !Inv(s))
  }

  predicate LacksFunds(s: State, c: Call)
    requires c.Place?
  {
    c.name in s.auctions && BalanceOf(s.balances, s.auctions[c.name].asset, c.bidder) < c.amount
  }

  /** An error is only ever given for its reason. */
  lemma ErrorsAreTrue(s: State, c: Call)
    requires Outcome(s, c).Err?
    ensures Reason(s, c, Outcome(s, c).error)
  {
    if c.SettleName? && Inv(s) {
      SettleSucceedsIff(s, c.name, c.now);
    }
  }
}
