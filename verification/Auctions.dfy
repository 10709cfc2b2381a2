/**
 The auction contract: bids are escrowed in the contract's own token balance until
 `settle` pays everybody. Storage is the value `State`; each entry point is a function
 from storage to an outcome.
 */
module Auctions {
  import opened Common
  import opened Ledger
  import opened Names
  import opened Vickrey

  datatype Auction = Auction(
    name: Str, reserve: U64, startsAt: U64, endsAt: U64, bids: seq<Bid>, asset: Address, treasury: Address)

  /** `Trap` stands for a failed authorization or a failed token transfer. */
  datatype Error =
    | Validation | AlreadyExists | NotFound | AuctionClosed | AuctionNotStarted
    | AuctionNotEnded | AlreadySettled | InvalidBid | ReentrancyDetected | Trap

  datatype State = State(
    self: Address,
    admin: Option<Address>,
    auctions: map<Str, Auction>,
    settlements: map<Str, Settlement>,
    names: seq<Str>,
    locked: bool,
    balances: Balances)
  {
    /** Open for bids at `now`: started, not ended, not settled. */
    function IsActive(now: U64): Str -> bool {
      n => n !in settlements && n in auctions && auctions[n].startsAt <= now <= auctions[n].endsAt
    }

    function IsSettled(): Str -> bool {
      var recorded := settlements;
      n => n in recorded
    }
  }

  const Fresh: Address -> State := self => State(self, None, map[], map[], [], false, map[])

  // ----- entry points -----

  function Initialize(s: State, admin: Address): Result<State, Error> {
    if s.admin.Some? then Err(AlreadyExists) else Ok(s.(admin := Some(admin)))
  }

  function CreateAuction(s: State, auth: set<Address>, name: Str, asset: Address, treasury: Address,
                         reserve: U64, startsAt: U64, endsAt: U64): Result<State, Error> {
    if s.admin.None? then Err(NotFound)
    else if s.admin.value !in auth then Err(Trap)
    else if !IsFqdn(name) then Err(Validation)
    else if name in s.auctions then Err(AlreadyExists)
    else
      var auction := Auction(name, reserve, startsAt, endsAt, [], asset, treasury);
      Ok(s.(auctions := s.auctions[name := auction], names := s.names + [name]))
  }

  predicate WindowOpen(now: U64, startsAt: U64, endsAt: U64) {
    startsAt <= now <= endsAt
  }

  /** The host never lends an outside caller the contract's own authorization. */
  function PlaceBid(s: State, auth: set<Address>, name: Str, bidder: Address, amount: U64, now: U64)
    : Result<State, Error>
  {
    if s.locked then Err(ReentrancyDetected)
    else if bidder !in auth || bidder == s.self then Err(Trap)
    else if amount == 0 then Err(InvalidBid)
    else if name !in s.auctions then Err(NotFound)
    else if name in s.settlements then Err(AlreadySettled)
    else
      var auction := s.auctions[name];
      if now < auction.startsAt then Err(AuctionNotStarted)
      else if now > auction.endsAt then Err(AuctionClosed)
      else
        match Transfer(s.balances, auction.asset, bidder, s.self, amount)
        case None => Err(Trap)
        case Some(balances) =>
          var bids := auction.bids + [Bid(bidder, amount, now)];
          Ok(s.(auctions := s.auctions[name := auction.(bids := bids)], balances := balances))
  }

  predicate Matches(bid: Bid, s: Settlement) {
    s.sold && s.winner == Some(bid.bidder) && bid.amount == s.winningBid
  }

  predicate AnyMatch(bids: seq<Bid>, s: Settlement) {
    exists i :: 0 <= i < |bids| && Matches(bids[i], s)
  }

  /** What one bid is paid: the winning one its overpayment, with the price going to the
      treasury; any other a full refund. */
  function PayoutOf(bid: Bid, wins: bool, s: Settlement, treasury: Address): seq<Payment> {
    if wins then
      Due(bid.bidder, SatSub(bid.amount, s.clearingPrice)) + Due(treasury, s.clearingPrice)
    else [Payment(bid.bidder, bid.amount)]
  }

  /** Whether the `i`-th bid is paid as the winner: the first match takes the branch. */
  predicate Wins(bids: seq<Bid>, s: Settlement, i: nat)
    requires i < |bids|
  {
    Matches(bids[i], s) && !AnyMatch(bids[..i], s)
  }

  function PayoutsUpTo(bids: seq<Bid>, s: Settlement, treasury: Address, n: nat): seq<Payment>
    requires n <= |bids|
  {
    if n == 0 then []
    else PayoutsUpTo(bids, s, treasury, n - 1) + PayoutOf(bids[n - 1], Wins(bids, s, n - 1), s, treasury)
  }

  function Payouts(bids: seq<Bid>, s: Settlement, treasury: Address): seq<Payment> {
    PayoutsUpTo(bids, s, treasury, |bids|)
  }

  function SettleAuction(s: State, name: Str, now: U64): Result<State, Error> {
    if name !in s.auctions then Err(NotFound)
    else if name in s.settlements then Err(AlreadySettled)
    else
      var auction := s.auctions[name];
      if now < auction.endsAt then Err(AuctionNotEnded)
      else
        match Settle(auction.bids, auction.reserve, now)
        case None => Ok(s)
        case Some(settlement) =>
          match PayAll(s.balances, auction.asset, s.self, Payouts(auction.bids, settlement, auction.treasury))
          case None => Err(Trap)
          case Some(balances) =>
            Ok(s.(settlements := s.settlements[name := settlement], balances := balances))
  }

  // ----- runs -----

  /** Contract calls, and token activity that is not the contract's own. */
  datatype Call =
    | Init(admin: Address)
    | Create(auth: set<Address>, name: Str, asset: Address, treasury: Address, reserve: U64, startsAt: U64, endsAt: U64)
    | Place(auth: set<Address>, name: Str, bidder: Address, amount: U64, now: U64)
    | SettleName(name: Str, now: U64)
    | ForeignTransfer(asset: Address, from: Address, to: Address, value: nat)
    | ForeignMint(asset: Address, to: Address, value: nat)

  function Outcome(s: State, c: Call): Result<State, Error> {
    match c
    case Init(admin) => Initialize(s, admin)
    case Create(auth, name, asset, treasury, reserve, startsAt, endsAt) =>
      CreateAuction(s, auth, name, asset, treasury, reserve, startsAt, endsAt)
    case Place(auth, name, bidder, amount, now) => PlaceBid(s, auth, name, bidder, amount, now)
    case SettleName(name, now) => SettleAuction(s, name, now)
    case ForeignTransfer(asset, from, to, value) =>
      if from == s.self then Err(Trap)
      else
        (match Transfer(s.balances, asset, from, to, value)
         case None => Err(Trap)
         case Some(balances) => Ok(s.(balances := balances)))
    case ForeignMint(asset, to, value) => Ok(s.(balances := Credit(s.balances, asset, to, value)))
  }

  function Step(s: State, c: Call): State {
    Commit(s, Outcome(s, c))
  }

  function Run(s: State, calls: seq<Call>): State {
    if calls == [] then s else Step(Run(s, calls[..|calls| - 1]), calls[|calls| - 1])
  }

  lemma RunStep(self: Address, calls: seq<Call>, c: Call)
    ensures Run(Fresh(self), calls + [c]) == Step(Run(Fresh(self), calls), c)
  {
    assert (calls + [c])[..|calls|] == calls;
  }

  // ----- the invariant -----

  function SumAll(bids: seq<Bid>): nat {
    if bids == [] then 0 else SumAll(bids[..|bids| - 1]) + bids[|bids| - 1].amount
  }

  function SumBy(bids: seq<Bid>, who: Address): nat {
    if bids == [] then 0
    else SumBy(bids[..|bids| - 1], who) + (if bids[|bids| - 1].bidder == who then bids[|bids| - 1].amount else 0)
  }

  /** What the contract holds in `asset` for the auction `name`. */
  function EscrowOf(s: State, name: Str, asset: Address): nat {
    if name in s.auctions && name !in s.settlements && s.auctions[name].asset == asset
    then SumAll(s.auctions[name].bids) else 0
  }

  function Owed(s: State, names: seq<Str>, asset: Address): nat {
    if names == [] then 0
    else Owed(s, names[..|names| - 1], asset) + EscrowOf(s, names[|names| - 1], asset)
  }

  /** The discovery index is a duplicate-free listing of the auctions. */
  ghost predicate Indexed(s: State) {
    && Distinct(s.names)
    && (forall n :: n in s.names <==> n in s.auctions)
    && s.settlements.Keys <= s.auctions.Keys
  }

  ghost predicate GoodBid(self: Address, a: Auction, b: Bid) {
    b.amount > 0 && a.startsAt <= b.placedAt <= a.endsAt && b.bidder != self
  }

  /** Stored under its own name, every bid positive, timely and not the contract's. */
  ghost predicate GoodAuction(self: Address, name: Str, a: Auction) {
    && a.name == name
    && forall i :: 0 <= i < |a.bids| ==> GoodBid(self, a, a.bids[i])
  }

  /** The recorded settlement is the second-price outcome of the stored bids. */
  ghost predicate GoodSettlement(a: Auction, s: Settlement) {
    s.settledAt >= a.endsAt && Settle(a.bids, a.reserve, s.settledAt) == Some(s)
  }

  ghost predicate Recorded(s: State) {
    && !s.locked
    && Indexed(s)
    && (forall n :: n in s.auctions ==> GoodAuction(s.self, n, s.auctions[n]))
    && (forall n :: n in s.settlements ==> GoodSettlement(s.auctions[n], s.settlements[n]))
  }

  /** In every asset the contract holds at least the bids of all unsettled auctions. */
  ghost predicate Solvent(s: State) {
    forall asset :: BalanceOf(s.balances, asset, s.self) >= Owed(s, s.names, asset)
  }

  ghost predicate Inv(s: State) {
    Recorded(s) && Solvent(s)
  }

  // ----- payouts -----

  /** When sold, exactly the earliest highest bid takes the winner branch; otherwise none. */
  lemma WinnerBranchIff(bids: seq<Bid>, reserve: U64, settledAt: U64, i: nat)
    requires i < |bids|
    ensures var s := Settle(bids, reserve, settledAt).value;
            Wins(bids, s, i) <==> s.sold && i == TopIndex(bids)
  {
    var s, w := Settle(bids, reserve, settledAt).value, TopIndex(bids);
    if i > w {
      assert s.sold ==> Matches(bids[..i][w], s);
    } else {
      forall k | 0 <= k < i ensures !Matches(bids[..i][k], s) {
        assert bids[..i][k] == bids[k] && bids[k].amount < bids[w].amount;
      }
    }
  }

  function Bonus(s: Settlement, treasury: Address, who: Address): int {
    (if s.sold && treasury == who then s.clearingPrice else 0)
    - (if s.sold && s.winner == Some(who) then s.clearingPrice else 0)
  }

  lemma PayoutOfAmounts(bid: Bid, wins: bool, s: Settlement, treasury: Address, who: Address)
    requires wins ==> s.clearingPrice <= bid.amount && s.sold && s.winner == Some(bid.bidder)
    ensures Total(PayoutOf(bid, wins, s, treasury)) == bid.amount
    ensures ReceivedBy(PayoutOf(bid, wins, s, treasury), who) ==
            (if bid.bidder == who then bid.amount else 0) + (if wins then Bonus(s, treasury, who) else 0)
  {
    if wins {
      var refund := bid.amount - s.clearingPrice;
      DueTotals(bid.bidder, refund, who);
      DueTotals(treasury, s.clearingPrice, who);
      TotalAppend(Due(bid.bidder, refund), Due(treasury, s.clearingPrice), who);
    } else {
      TotalAppend([], [Payment(bid.bidder, bid.amount)], who);
    }
  }

  /** The saturating subtraction of the payout never saturates. */
  lemma PriceWithinBid(bids: seq<Bid>, reserve: U64, settledAt: U64)
    requires bids != []
    ensures var s := Settle(bids, reserve, settledAt).value;
            && s.clearingPrice <= s.winningBid == bids[TopIndex(bids)].amount
            && (s.sold ==> s.winner == Some(bids[TopIndex(bids)].bidder) && reserve <= s.clearingPrice)
  {
    var w := TopIndex(bids);
    var others := Others(bids, w);
    forall i | 0 <= i < |others| ensures others[i].amount <= bids[w].amount {
      assert others[i] == bids[if i < w then i else i + 1];
    }
    MaxAmountIsLeastBound(others, bids[w].amount);
  }

  lemma MatchStep(bids: seq<Bid>, s: Settlement, i: nat)
    requires i < |bids|
    ensures AnyMatch(bids[..i + 1], s) <==> AnyMatch(bids[..i], s) || Matches(bids[i], s)
  {
    assert bids[..i + 1] == bids[..i] + [bids[i]];
    if k :| 0 <= k < i && Matches(bids[..i][k], s) {
      assert Matches(bids[..i + 1][k], s);
    }
    assert bids[..i + 1][i] == bids[i];
  }

  /** The balances once the first `i` bids are paid out. */
  function PaidUpTo(b: Balances, self: Address, a: Auction, s: Settlement, i: nat): Option<Balances>
    requires i <= |a.bids|
  {
    PayAll(b, a.asset, self, PayoutsUpTo(a.bids, s, a.treasury, i))
  }

  lemma PaidStep(b: Balances, self: Address, a: Auction, s: Settlement, i: nat)
    requires i < |a.bids|
    ensures PaidUpTo(b, self, a, s, i + 1) ==
            match PaidUpTo(b, self, a, s, i)
            case None => None
            case Some(paid) => PayAll(paid, a.asset, self, PayoutOf(a.bids[i], Wins(a.bids, s, i), s, a.treasury))
  {
    PayAllAppend(b, a.asset, self, PayoutsUpTo(a.bids, s, a.treasury, i),
                 PayoutOf(a.bids[i], Wins(a.bids, s, i), s, a.treasury));
  }

  lemma SumStep(bids: seq<Bid>, who: Address, n: nat)
    requires n < |bids|
    ensures SumAll(bids[..n + 1]) == SumAll(bids[..n]) + bids[n].amount
    ensures SumBy(bids[..n + 1], who) == SumBy(bids[..n], who) + (if bids[n].bidder == who then bids[n].amount else 0)
  {
    assert bids[..n + 1][..n] == bids[..n];
  }

  /** The payments for the `m`-th bid are its own amount in all, with the price moved from
      winner to treasury for the `w`-th. */
  ghost predicate PaysRight(bids: seq<Bid>, s: Settlement, w: nat, treasury: Address, who: Address, m: nat)
    requires m < |bids|
  {
    var paid := PayoutOf(bids[m], Wins(bids, s, m), s, treasury);
    && Total(paid) == bids[m].amount
    && ReceivedBy(paid, who) ==
       (if bids[m].bidder == who then bids[m].amount else 0) + (if m == w then Bonus(s, treasury, who) else 0)
  }

  lemma PayoutStep(bids: seq<Bid>, reserve: U64, settledAt: U64, treasury: Address, who: Address, m: nat)
    requires m < |bids|
    ensures PaysRight(bids, Settle(bids, reserve, settledAt).value, TopIndex(bids), treasury, who, m)
  {
    var s := Settle(bids, reserve, settledAt).value;
    WinnerBranchIff(bids, reserve, settledAt, m);
    PriceWithinBid(bids, reserve, settledAt);
    PayoutOfAmounts(bids[m], Wins(bids, s, m), s, treasury, who);
  }

  lemma {:induction false} PayoutsPrefix(bids: seq<Bid>, s: Settlement, w: nat, treasury: Address, who: Address, n: nat)
    requires n <= |bids| && forall m: nat :: m < |bids| ==> PaysRight(bids, s, w, treasury, who, m)
    ensures Total(PayoutsUpTo(bids, s, treasury, n)) == SumAll(bids[..n])
    ensures ReceivedBy(PayoutsUpTo(bids, s, treasury, n), who) ==
            SumBy(bids[..n], who) + (if w < n then Bonus(s, treasury, who) else 0)
  {
    if n > 0 {
      var m := n - 1;
      PayoutsPrefix(bids, s, w, treasury, who, m);
      SumStep(bids, who, m);
      assert PaysRight(bids, s, w, treasury, who, m);
      TotalAppend(PayoutsUpTo(bids, s, treasury, m), PayoutOf(bids[m], Wins(bids, s, m), s, treasury), who);
    }
  }

  /** For any bids, several per bidder included, settling pays out exactly what came in, and
      each address exactly its own bids, less the price for the winner, plus the price for
      the treasury. */
  lemma ExactPayouts(bids: seq<Bid>, reserve: U64, settledAt: U64, treasury: Address, who: Address)
    requires bids != []
    ensures var s := Settle(bids, reserve, settledAt).value;
            && Total(Payouts(bids, s, treasury)) == SumAll(bids)
            && ReceivedBy(Payouts(bids, s, treasury), who) == SumBy(bids, who) + Bonus(s, treasury, who)
  {
    var s := Settle(bids, reserve, settledAt).value;
    forall m: nat | m < |bids| ensures PaysRight(bids, s, TopIndex(bids), treasury, who, m) {
      PayoutStep(bids, reserve, settledAt, treasury, who, m);
    }
    PayoutsPrefix(bids, s, TopIndex(bids), treasury, who, |bids|);
    assert bids[..|bids|] == bids;
  }

  // ----- what is owed -----

  lemma {:induction false} OwedSame(s: State, t: State, names: seq<Str>, asset: Address)
    requires forall n :: n in names ==> EscrowOf(s, n, asset) == EscrowOf(t, n, asset)
    ensures Owed(s, names, asset) == Owed(t, names, asset)
  {
    if names != [] {
      OwedSame(s, t, names[..|names| - 1], asset);
    }
  }

  /** Changing one auction changes what is owed by that auction's escrow and nothing else. */
  lemma {:induction false} OwedChange(s: State, t: State, names: seq<Str>, name: Str, asset: Address)
    requires Distinct(names) && name in names
    requires forall n :: n in names && n != name ==> EscrowOf(s, n, asset) == EscrowOf(t, n, asset)
    ensures Owed(t, names, asset) - Owed(s, names, asset) == EscrowOf(t, name, asset) - EscrowOf(s, name, asset)
  {
    var front := names[..|names| - 1];
    if names[|names| - 1] == name {
      OwedSame(s, t, front, asset);
    } else {
      OwedChange(s, t, front, name, asset);
    }
  }

  lemma {:induction false} OwedCovers(s: State, names: seq<Str>, name: Str, asset: Address)
    requires name in names
    ensures EscrowOf(s, name, asset) <= Owed(s, names, asset)
  {
    if names[|names| - 1] != name {
      OwedCovers(s, names[..|names| - 1], name, asset);
    }
  }

  // ----- every step keeps the invariant -----

  lemma CreateKeepsRecords(s: State, t: State, name: Str, a: Auction)
    requires Recorded(s) && name !in s.auctions && a.name == name && a.bids == []
    requires t == s.(auctions := s.auctions[name := a], names := s.names + [name])
    ensures Recorded(t)
  {
  }

  lemma CreateKeepsSolvent(s: State, t: State, name: Str, a: Auction)
    requires Indexed(s) && Solvent(s) && name !in s.auctions && a.bids == []
    requires t == s.(auctions := s.auctions[name := a], names := s.names + [name])
    ensures Solvent(t)
  {
    assert t.names[..|t.names| - 1] == s.names;
    forall asset ensures BalanceOf(t.balances, asset, t.self) >= Owed(t, t.names, asset) {
      OwedSame(s, t, s.names, asset);
      assert BalanceOf(s.balances, asset, s.self) >= Owed(s, s.names, asset);
    }
  }

  lemma PlaceKeepsRecords(s: State, auth: set<Address>, name: Str, bidder: Address, amount: U64, now: U64)
    requires Recorded(s) && PlaceBid(s, auth, name, bidder, amount, now).Ok?
    ensures Recorded(PlaceBid(s, auth, name, bidder, amount, now).value)
  {
  }

  /** What the contract holds beyond what it owes. */
  function Surplus(s: State, asset: Address): int {
    BalanceOf(s.balances, asset, s.self) - Owed(s, s.names, asset)
  }

  lemma PlaceSurplus(s: State, auth: set<Address>, name: Str, bidder: Address, amount: U64, now: U64, asset: Address)
    requires Indexed(s) && PlaceBid(s, auth, name, bidder, amount, now).Ok?
    ensures Surplus(PlaceBid(s, auth, name, bidder, amount, now).value, asset) == Surplus(s, asset)
  {
    var t, a := PlaceBid(s, auth, name, bidder, amount, now).value, s.auctions[name];
    assert t.auctions[name].bids[..|a.bids|] == a.bids;
    OwedChange(s, t, s.names, name, asset);
  }

  lemma PlaceKeepsSolvent(s: State, auth: set<Address>, name: Str, bidder: Address, amount: U64, now: U64)
    requires Indexed(s) && Solvent(s) && PlaceBid(s, auth, name, bidder, amount, now).Ok?
    ensures Solvent(PlaceBid(s, auth, name, bidder, amount, now).value)
  {
    var t := PlaceBid(s, auth, name, bidder, amount, now).value;
    forall asset ensures BalanceOf(t.balances, asset, t.self) >= Owed(t, t.names, asset) {
      PlaceSurplus(s, auth, name, bidder, amount, now, asset);
      assert BalanceOf(s.balances, asset, s.self) >= Owed(s, s.names, asset);
    }
  }

  /** What settling `name` at `now` would pay. */
  function Settling(a: Auction, now: U64): seq<Payment>
    requires a.bids != []
  {
    Payouts(a.bids, Settle(a.bids, a.reserve, now).value, a.treasury)
  }

  /** A solvent contract can afford every payment of any settlement. */
  lemma SettleAffordable(s: State, name: Str, now: U64)
    requires Solvent(s) && name in s.names
    requires name in s.auctions && name !in s.settlements && s.auctions[name].bids != []
    ensures var a := s.auctions[name];
            && Total(Settling(a, now)) == EscrowOf(s, name, a.asset) == SumAll(a.bids)
            && BalanceOf(s.balances, a.asset, s.self) >= Total(Settling(a, now))
  {
    var a := s.auctions[name];
    ExactPayouts(a.bids, a.reserve, now, a.treasury, s.self);
    OwedCovers(s, s.names, name, a.asset);
    assert BalanceOf(s.balances, a.asset, s.self) >= Owed(s, s.names, a.asset);
  }

  /** `settle` succeeds on exactly the ended, unsettled auctions: no payout ever traps. */
  lemma SettleSucceedsIff(s: State, name: Str, now: U64)
    requires Inv(s)
    ensures SettleAuction(s, name, now).Ok? <==>
            name in s.auctions && name !in s.settlements && s.auctions[name].endsAt <= now
  {
    if name in s.auctions && name !in s.settlements && s.auctions[name].bids != [] {
      var a := s.auctions[name];
      SettleAffordable(s, name, now);
      PayAllEffect(s.balances, a.asset, s.self, Settling(a, now));
    }
  }

  /** Change of `who`'s balance in the auctioned asset. */
  function Moved(a: Auction, s: Settlement, self: Address, who: Address): int {
    SumBy(a.bids, who) + Bonus(s, a.treasury, who) - (if who == self then SumAll(a.bids) else 0)
  }

  /** Settling moves every balance by exactly the documented amount. */
  lemma SettlePaysExactly(s: State, name: Str, now: U64)
    requires Inv(s) && SettleAuction(s, name, now).Ok? && s.auctions[name].bids != []
    ensures var a := s.auctions[name];
            var t := SettleAuction(s, name, now).value;
            && name in t.settlements && Settle(a.bids, a.reserve, now) == Some(t.settlements[name])
            && forall asset, who :: BalanceOf(t.balances, asset, who) ==
                 BalanceOf(s.balances, asset, who)
                 + (if asset == a.asset then Moved(a, t.settlements[name], s.self, who) else 0)
  {
    var a := s.auctions[name];
    SettleAffordable(s, name, now);
    PayAllEffect(s.balances, a.asset, s.self, Settling(a, now));
    var settlement := Settle(a.bids, a.reserve, now).value;
    forall who ensures Net(Settling(a, now), s.self, who) == Moved(a, settlement, s.self, who) {
      ExactPayouts(a.bids, a.reserve, now, a.treasury, who);
    }
  }

  lemma {:induction false} NoOwnBids(self: Address, a: Auction, bids: seq<Bid>)
    requires forall i :: 0 <= i < |bids| ==> GoodBid(self, a, bids[i])
    ensures SumBy(bids, self) == 0
  {
    if bids != [] {
      NoOwnBids(self, a, bids[..|bids| - 1]);
    }
  }

  lemma SettleKeepsRecords(s: State, name: Str, now: U64)
    requires Recorded(s) && SettleAuction(s, name, now).Ok?
    ensures Recorded(SettleAuction(s, name, now).value)
  {
  }

  /** Settling discharges the debt to the bidders of this auction and no other debt. */
  lemma SettleDischarges(s: State, name: Str, now: U64, asset: Address)
    requires Indexed(s) && SettleAuction(s, name, now).Ok? && s.auctions[name].bids != []
    ensures Owed(SettleAuction(s, name, now).value, s.names, asset) ==
            Owed(s, s.names, asset) - EscrowOf(s, name, asset)
  {
    OwedChange(s, SettleAuction(s, name, now).value, s.names, name, asset);
  }

  /** Change of the contract's own balance in `asset` when it settles `a`. */
  function OwnChange(self: Address, a: Auction, now: U64, asset: Address): int
    requires a.bids != []
  {
    if a.asset == asset then Bonus(Settle(a.bids, a.reserve, now).value, a.treasury, self) - SumAll(a.bids) else 0
  }

  lemma SettleOwnBalance(s: State, name: Str, now: U64, asset: Address)
    requires Inv(s) && SettleAuction(s, name, now).Ok? && s.auctions[name].bids != []
    ensures BalanceOf(SettleAuction(s, name, now).value.balances, asset, s.self) ==
            BalanceOf(s.balances, asset, s.self) + OwnChange(s.self, s.auctions[name], now, asset)
  {
    SettlePaysExactly(s, name, now);
    assert GoodAuction(s.self, name, s.auctions[name]);
    NoOwnBids(s.self, s.auctions[name], s.auctions[name].bids);
  }

  lemma OwnBonus(self: Address, name: Str, a: Auction, now: U64)
    requires GoodAuction(self, name, a) && a.bids != []
    ensures Bonus(Settle(a.bids, a.reserve, now).value, a.treasury, self) >= 0
  {
    assert GoodBid(self, a, a.bids[TopIndex(a.bids)]);
  }

  /** Settling one auction never spends another's escrow. */
  lemma SettleKeepsSolvent(s: State, name: Str, now: U64)
    requires Inv(s) && SettleAuction(s, name, now).Ok?
    ensures Solvent(SettleAuction(s, name, now).value)
  {
    var t, a := SettleAuction(s, name, now).value, s.auctions[name];
    if a.bids != [] {
      OwnBonus(s.self, name, a, now);
      forall asset ensures BalanceOf(t.balances, asset, t.self) >= Owed(t, t.names, asset) {
        SettleDischarges(s, name, now, asset);
        SettleOwnBalance(s, name, now, asset);
        assert BalanceOf(s.balances, asset, s.self) >= Owed(s, s.names, asset);
      }
    }
  }

  lemma BalancesKeepInv(s: State, t: State)
    requires Inv(s) && t == s.(balances := t.balances, admin := t.admin)
    requires forall asset :: BalanceOf(t.balances, asset, s.self) >= BalanceOf(s.balances, asset, s.self)
    ensures Inv(t)
  {
    forall asset ensures BalanceOf(t.balances, asset, t.self) >= Owed(t, t.names, asset) {
      OwedSame(s, t, s.names, asset);
      assert BalanceOf(s.balances, asset, s.self) >= Owed(s, s.names, asset);
    }
  }

  lemma StepKeepsInv(s: State, c: Call)
    requires Inv(s)
    ensures Inv(Step(s, c))
  {
    if Outcome(s, c).Ok? {
      match c
      case Create(auth, name, asset, treasury, reserve, startsAt, endsAt) =>
        CreateKeepsRecords(s, Step(s, c), name, Step(s, c).auctions[name]);
        CreateKeepsSolvent(s, Step(s, c), name, Step(s, c).auctions[name]);
      case Place(auth, name, bidder, amount, now) =>
        PlaceKeepsRecords(s, auth, name, bidder, amount, now);
        PlaceKeepsSolvent(s, auth, name, bidder, amount, now);
      case SettleName(name, now) =>
        SettleKeepsRecords(s, name, now);
        SettleKeepsSolvent(s, name, now);
      case _ => BalancesKeepInv(s, Step(s, c));
    }
  }

  /** Escrow solvency, the index, the bids and the settlements are right in every run. */
  lemma {:induction false} RunKeepsInv(self: Address, calls: seq<Call>)
    ensures Inv(Run(Fresh(self), calls))
  {
    if calls != [] {
      RunKeepsInv(self, calls[..|calls| - 1]);
      StepKeepsInv(Run(Fresh(self), calls[..|calls| - 1]), calls[|calls| - 1]);
    }
  }

  /** In every run, settling an ended, unsettled auction succeeds: no payout ever traps. */
  lemma ReachableSettleSucceeds(self: Address, calls: seq<Call>, name: Str, now: U64)
    ensures var s := Run(Fresh(self), calls);
            SettleAuction(s, name, now).Ok? <==>
            name in s.auctions && name !in s.settlements && s.auctions[name].endsAt <= now
  {
    RunKeepsInv(self, calls);
    SettleSucceedsIff(Run(Fresh(self), calls), name, now);
  }

  /** The end is judged by the clock the caller passes, so every unsettled auction can be settled
      at once. */
  lemma SettlableAtSomeClock(self: Address, calls: seq<Call>, name: Str)
    ensures var s := Run(Fresh(self), calls);
            (exists now :: SettleAuction(s, name, now).Ok?) <==> name in s.auctions && name !in s.settlements
  {
    ReachableSettleSucceeds(self, calls, name, U64_MAX);
  }

  // ----- nothing gets stuck -----

  /** What a call leaves with the contract for good: tokens sent to it from outside, and the
      price of a sale whose treasury is the contract itself. */
  function Gift(s: State, c: Call, asset: Address): int {
    if Outcome(s, c).Err? then 0
    else
      match c
      case ForeignTransfer(a, _, to, value) => if a == asset && to == s.self then value else 0
      case ForeignMint(a, to, value) => if a == asset && to == s.self then value else 0
      case SettleName(name, now) =>
        var a := s.auctions[name];
        if a.asset == asset && a.bids != [] then Bonus(Settle(a.bids, a.reserve, now).value, a.treasury, s.self) else 0
      case _ => 0
  }

  lemma SettleSurplus(s: State, name: Str, now: U64, asset: Address)
    requires Inv(s) && SettleAuction(s, name, now).Ok?
    ensures Surplus(SettleAuction(s, name, now).value, asset) ==
            Surplus(s, asset) + Gift(s, SettleName(name, now), asset)
  {
    if s.auctions[name].bids != [] {
      SettleDischarges(s, name, now, asset);
      SettleOwnBalance(s, name, now, asset);
    }
  }

  lemma CreateSurplus(s: State, t: State, name: Str, a: Auction, asset: Address)
    requires Indexed(s) && name !in s.auctions && a.bids == []
    requires t == s.(auctions := s.auctions[name := a], names := s.names + [name])
    ensures Surplus(t, asset) == Surplus(s, asset)
  {
    assert t.names[..|t.names| - 1] == s.names;
    OwedSame(s, t, s.names, asset);
  }

  /** Escrow is conserved exactly: the surplus over what is owed changes by gifts alone, so
      bids and settlements neither leak nor strand a token. */
  lemma SurplusChangesByGifts(s: State, c: Call, asset: Address)
    requires Inv(s)
    ensures Surplus(Step(s, c), asset) == Surplus(s, asset) + Gift(s, c, asset)
  {
    if Outcome(s, c).Ok? {
      match c
      case SettleName(name, now) => SettleSurplus(s, name, now, asset);
      case Place(auth, name, bidder, amount, now) => PlaceSurplus(s, auth, name, bidder, amount, now, asset);
      case Create(auth, name, _, _, _, _, _) => CreateSurplus(s, Step(s, c), name, Step(s, c).auctions[name], asset);
      case _ => OwedSame(s, Step(s, c), s.names, asset);
    }
  }

  function Gifts(s: State, calls: seq<Call>, asset: Address): int {
    if calls == [] then 0
    else Gifts(s, calls[..|calls| - 1], asset) + Gift(Run(s, calls[..|calls| - 1]), calls[|calls| - 1], asset)
  }

  /** Over every run the contract holds exactly what it owes plus the gifts received. */
  lemma {:induction false} EscrowIsExact(self: Address, calls: seq<Call>, asset: Address)
    ensures Surplus(Run(Fresh(self), calls), asset) == Gifts(Fresh(self), calls, asset)
  {
    if calls != [] {
      var front := calls[..|calls| - 1];
      EscrowIsExact(self, front, asset);
      RunKeepsInv(self, front);
      SurplusChangesByGifts(Run(Fresh(self), front), calls[|calls| - 1], asset);
    }
  }

  // ----- what never changes -----

  /** Same terms, bids only appended. */
  ghost predicate Grown(a: Auction, b: Auction) {
    b == a.(bids := b.bids) && a.bids <= b.bids
  }

  /** Nothing is ever dropped, and a settled auction is frozen. */
  ghost predicate Extends(s: State, t: State) {
    && s.names <= t.names
    && (forall n :: n in s.auctions ==> n in t.auctions && Grown(s.auctions[n], t.auctions[n]))
    && (forall n :: n in s.settlements && n in s.auctions ==>
          && n in t.settlements && t.settlements[n] == s.settlements[n]
          && n in t.auctions && t.auctions[n] == s.auctions[n])
  }

  lemma StepExtends(s: State, c: Call)
    ensures Extends(s, Step(s, c))
  {
  }

  lemma ExtendsTransitive(s: State, t: State, u: State)
    requires Extends(s, t) && Extends(t, u)
    ensures Extends(s, u)
  {
  }

  lemma ExtendsStep(s: State, t: State, c: Call)
    requires Extends(s, t)
    ensures Extends(s, Step(t, c))
  {
    StepExtends(t, c);
    ExtendsTransitive(s, t, Step(t, c));
  }

  /** Over every run, from any state: in particular a recorded settlement and its bids never
      change again. */
  lemma {:induction false} RunExtends(s: State, calls: seq<Call>)
    ensures Extends(s, Run(s, calls))
  {
    if calls != [] {
      RunExtends(s, calls[..|calls| - 1]);
      ExtendsStep(s, Run(s, calls[..|calls| - 1]), calls[|calls| - 1]);
    }
  }

  lemma {:induction false} RunAppend(s: State, past: seq<Call>, future: seq<Call>)
    ensures Run(s, past + future) == Run(Run(s, past), future)
  {
    if future == [] {
      assert past + future == past;
    } else {
      RunAppend(s, past, future[..|future| - 1]);
      assert (past + future)[..|past + future| - 1] == past + future[..|future| - 1];
    }
  }

  /** In every reachable state the one-pass settlement of a stored auction is the one the
      sort-based version gives with the auction's end as bidding deadline. */
  lemma ReachableSettlesBySorting(self: Address, calls: seq<Call>, name: Str, sorted: seq<Bid>, now: U64)
    requires name in Run(Fresh(self), calls).auctions
    requires var a := Run(Fresh(self), calls).auctions[name]; StableDescending(EligibleBids(a.bids, a.endsAt), sorted)
    ensures var a := Run(Fresh(self), calls).auctions[name];
            Settle(a.bids, a.reserve, now) == SettleSorted(sorted, a.reserve, now)
  {
    RunKeepsInv(self, calls);
    var s := Run(Fresh(self), calls);
    var a := s.auctions[name];
    assert GoodAuction(s.self, name, a);
    forall i | 0 <= i < |a.bids| ensures Eligible(a.endsAt, a.bids[i]) {
      assert GoodBid(s.self, a, a.bids[i]);
    }
    OnePassIsSorting(a.bids, sorted, a.reserve, a.endsAt, now);
  }

  /** The name index of a reachable state lists all auctions ever created, once each. */
  lemma ReachableIndexComplete(self: Address, past: seq<Call>, future: seq<Call>, name: Str)
    ensures name in Run(Fresh(self), past).auctions ==> name in Run(Fresh(self), past + future).names
    ensures Distinct(Run(Fresh(self), past + future).names)
  {
    RunAppend(Fresh(self), past, future);
    RunExtends(Run(Fresh(self), past), future);
    RunKeepsInv(self, past);
    RunKeepsInv(self, past + future);
  }
}
