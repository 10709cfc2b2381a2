/**
 The auction contract as it runs: storage updated in place, with the loops, the flag and
 the reentrancy lock of the original, each entry point proved against its outcome function.
 */
module AuctionContract {
  import opened Common
  import opened Ledger
  import opened Names
  import opened Vickrey
  import opened Auctions
  import Paging

  class Contract {
    const self: Address
    var admin: Option<Address>
    var auctions: map<Str, Auction>
    var settlements: map<Str, Settlement>
    var names: seq<Str>
    var locked: bool
    var balances: Balances
    ghost var history: seq<Call>

    ghost function Storage(): State
      reads this
    {
      State(self, admin, auctions, settlements, names, locked, balances)
    }

    /** Storage is what the calls made so far leave behind, so that whatever holds over every
        run holds of this object. */
    ghost predicate Valid()
      reads this
    {
      Storage() == Run(Fresh(self), history)
    }

    ghost method Log(c: Call)
      requires Valid()
      modifies `history
      ensures history == old(history) + [c] && Run(Fresh(self), history) == Step(Storage(), c)
    {
      RunStep(self, history, c);
      history := history + [c];
    }

    constructor (self: Address)
      ensures Valid() && this.self == self && history == []
    {
      this.self := self;
      admin, auctions, settlements, names, locked, balances := None, map[], map[], [], false, map[];
      history := [];
    }

    /** Solvency, the index, the bids and the settlements are right whatever was called. */
    lemma Invariant()
      requires Valid()
      ensures Inv(Storage())
    {
      RunKeepsInv(self, history);
    }

    method Initialize(admin: Address) returns (r: Result<(), Error>)
      requires Valid()
      modifies this
      ensures Did(old(Storage()), Storage(), Auctions.Initialize(old(Storage()), admin), r)
      ensures Valid() && history == old(history) + [Init(admin)]
    {
      Log(Init(admin));
      if this.admin.Some? {
        return Err(AlreadyExists);
      }
      this.admin := Some(admin);
      return Ok(());
    }

    method CreateAuction(auth: set<Address>, name: Str, asset: Address, treasury: Address,
                         reserve: U64, startsAt: U64, endsAt: U64) returns (r: Result<(), Error>)
      requires Valid()
      modifies this
      ensures Did(old(Storage()), Storage(),
                  Auctions.CreateAuction(old(Storage()), auth, name, asset, treasury, reserve, startsAt, endsAt), r)
      ensures Valid() && history == old(history) + [Create(auth, name, asset, treasury, reserve, startsAt, endsAt)]
    {
      Log(Create(auth, name, asset, treasury, reserve, startsAt, endsAt));
      if admin.None? {
        return Err(NotFound);
      }
      if admin.value !in auth {
        return Err(Trap);
      }
      var valid := CheckFqdn(name);
      if valid.Err? {
        return Err(Validation);
      }
      if name in auctions {
        return Err(AlreadyExists);
      }
      auctions := auctions[name := Auction(name, reserve, startsAt, endsAt, [], asset, treasury)];
      names := names + [name];
      return Ok(());
    }

    /** The reentrancy lock is taken first and released on every exit. */
    method PlaceBid(auth: set<Address>, name: Str, bidder: Address, amount: U64, now: U64)
      returns (r: Result<(), Error>)
      requires Valid()
      modifies this
      ensures Did(old(Storage()), Storage(), Auctions.PlaceBid(old(Storage()), auth, name, bidder, amount, now), r)
      ensures Valid() && history == old(history) + [Place(auth, name, bidder, amount, now)]
    {
      Log(Place(auth, name, bidder, amount, now));
      if locked {
        return Err(ReentrancyDetected);
      }
      locked := true;
      r := PlaceBidLocked(auth, name, bidder, amount, now);
      locked := false;
    }

    method PlaceBidLocked(auth: set<Address>, name: Str, bidder: Address, amount: U64, now: U64)
      returns (r: Result<(), Error>)
      modifies `auctions, `balances
      ensures var before := old(Storage()).(locked := false);
              var o := Auctions.PlaceBid(before, auth, name, bidder, amount, now);
              Did(before, Storage().(locked := false), o, r)
    {
      if bidder !in auth || bidder == self {
        return Err(Trap);
      }
      if amount == 0 {
        return Err(InvalidBid);
      }
      if name !in auctions {
        return Err(NotFound);
      }
      var auction := auctions[name];
      if name in settlements {
        return Err(AlreadySettled);
      }
      if !WindowOpen(now, auction.startsAt, auction.endsAt) {
        return Err(if now < auction.startsAt then AuctionNotStarted else AuctionClosed);
      }
      var moved := Transfer(balances, auction.asset, bidder, self, amount);
      if moved.None? {
        return Err(Trap);
      }
      balances := moved.value;
      auctions := auctions[name := auction.(bids := auction.bids + [Bid(bidder, amount, now)])];
      return Ok(());
    }

    /** One transfer of the payout; a trap leaves the balances to the caller to restore. */
    method Pay(asset: Address, to: Address, amount: nat) returns (ok: bool)
      modifies `balances
      ensures ok <==> Transfer(old(balances), asset, self, to, amount).Some?
      ensures balances == if ok then Transfer(old(balances), asset, self, to, amount).value else old(balances)
    {
      var moved := Transfer(balances, asset, self, to, amount);
      ok := moved.Some?;
      if ok {
        balances := moved.value;
      }
    }

    /** The payout of one bid inside the settle loop. */
    method PayBid(bid: Bid, wins: bool, s: Settlement, asset: Address, treasury: Address) returns (ok: bool)
      modifies `balances
      ensures ok <==> PayAll(old(balances), asset, self, PayoutOf(bid, wins, s, treasury)).Some?
      ensures ok ==> Some(balances) == PayAll(old(balances), asset, self, PayoutOf(bid, wins, s, treasury))
    {
      ghost var start := balances;
      if !wins {
        PayOne(start, asset, self, Payment(bid.bidder, bid.amount));
        ok := Pay(asset, bid.bidder, bid.amount);
        return;
      }
      var overpay := SatSub(bid.amount, s.clearingPrice);
      PayAllAppend(start, asset, self, Due(bid.bidder, overpay), Due(treasury, s.clearingPrice));
      ok := true;
      if overpay > 0 {
        PayOne(start, asset, self, Payment(bid.bidder, overpay));
        ok := Pay(asset, bid.bidder, overpay);
      }
      if ok && s.clearingPrice > 0 {
        PayOne(balances, asset, self, Payment(treasury, s.clearingPrice));
        ok := Pay(asset, treasury, s.clearingPrice);
      }
    }

    /** Settling succeeds on exactly the ended, unsettled auctions: no payout ever traps. */
    method Settle(name: Str, now: U64) returns (r: Result<Option<Settlement>, Error>)
      requires Valid()
      modifies this
      ensures var before := old(Storage());
              var o := SettleAuction(before, name, now);
              && Storage() == Commit(before, o)
              && r == (if o.Err? then Err(o.error)
                       else Ok(Vickrey.Settle(before.auctions[name].bids, before.auctions[name].reserve, now)))
      ensures r.Ok? <==> name in old(auctions) && name !in old(settlements) && old(auctions)[name].endsAt <= now
      ensures Valid() && history == old(history) + [SettleName(name, now)]
    {
      ReachableSettleSucceeds(self, history, name, now);
      Log(SettleName(name, now));
      if name !in auctions {
        return Err(NotFound);
      }
      var auction := auctions[name];
      if name in settlements {
        return Err(AlreadySettled);
      }
      if now < auction.endsAt {
        return Err(AuctionNotEnded);
      }
      var settlement := SettleOnePass(auction.bids, auction.reserve, now);
      if settlement.None? {
        return Ok(None);
      }
      var paid := RecordAndPay(name, auction, settlement.value);
      if !paid {
        return Err(Trap);
      }
      return Ok(settlement);
    }

    /** The settlement is recorded before anybody is paid; a trap undoes both. */
    method RecordAndPay(name: Str, auction: Auction, s: Settlement) returns (ok: bool)
      modifies `settlements, `balances
      ensures ok <==> PaidUpTo(old(balances), self, auction, s, |auction.bids|).Some?
      ensures ok ==> settlements == old(settlements)[name := s]
                     && Some(balances) == PaidUpTo(old(balances), self, auction, s, |auction.bids|)
      ensures !ok ==> settlements == old(settlements) && balances == old(balances)
    {
      var savedSettlements, savedBalances := settlements, balances;
      settlements := settlements[name := s];
      ok := PayOut(auction, s);
      if !ok {
        settlements, balances := savedSettlements, savedBalances;
      }
    }

    /** The payout loop with its `clearing_price_paid` flag. */
    method PayOut(auction: Auction, s: Settlement) returns (ok: bool)
      modifies `balances
      ensures ok <==> PaidUpTo(old(balances), self, auction, s, |auction.bids|).Some?
      ensures ok ==> Some(balances) == PaidUpTo(old(balances), self, auction, s, |auction.bids|)
    {
      var bids := auction.bids;
      var clearingPricePaid := false;
      ghost var start := balances;
      var i := 0;
      ok := true;
      while i < |bids|
        invariant 0 <= i <= |bids|
        invariant clearingPricePaid <==> AnyMatch(bids[..i], s)
        invariant ok ==> Some(balances) == PaidUpTo(start, self, auction, s, i)
        invariant !ok ==> PaidUpTo(start, self, auction, s, i) == None
      {
        var wins := Matches(bids[i], s) && !clearingPricePaid;
        MatchStep(bids, s, i);
        PaidStep(start, self, auction, s, i);
        if ok {
          ok := PayBid(bids[i], wins, s, auction.asset, auction.treasury);
        }
        if wins {
          clearingPricePaid := true;
        }
        i := i + 1;
      }
    }

    // ----- token activity that is not the contract's own -----

    method OutsideTransfer(asset: Address, from: Address, to: Address, value: nat) returns (r: Result<(), Error>)
      requires Valid()
      modifies this
      ensures Did(old(Storage()), Storage(), Outcome(old(Storage()), ForeignTransfer(asset, from, to, value)), r)
      ensures Valid() && history == old(history) + [ForeignTransfer(asset, from, to, value)]
    {
      Log(ForeignTransfer(asset, from, to, value));
      var moved := Transfer(balances, asset, from, to, value);
      if from == self || moved.None? {
        return Err(Trap);
      }
      balances := moved.value;
      return Ok(());
    }

    method OutsideMint(asset: Address, to: Address, value: nat)
      requires Valid()
      modifies this
      ensures Valid() && history == old(history) + [ForeignMint(asset, to, value)]
    {
      Log(ForeignMint(asset, to, value));
      balances := Credit(balances, asset, to, value);
    }

    // ----- discovery -----

    method ListAuctions(offset: U32, limit: U32) returns (page: seq<Str>)
      ensures page == Paging.Page(names, offset, limit)
    {
      page := Paging.SliceIndex(names, offset, limit);
    }

    method ListActiveAuctions(now: U64, offset: U32, limit: U32) returns (page: seq<Str>)
      ensures page == Paging.Page(Filter(names, Storage().IsActive(now)), offset, limit)
    {
      var a, s := auctions, settlements;
      var keep := n => n !in s && n in a && a[n].startsAt <= now <= a[n].endsAt;
      page := Paging.FilterIndex(names, offset, limit, keep);
      FilterAgree(names, keep, Storage().IsActive(now));
    }

    method ListSettledAuctions(offset: U32, limit: U32) returns (page: seq<Str>)
      ensures page == Paging.Page(Filter(names, Storage().IsSettled()), offset, limit)
    {
      var s := settlements;
      page := Paging.FilterIndex(names, offset, limit, n => n in s);
      FilterAgree(names, n => n in s, Storage().IsSettled());
    }
  }
}
