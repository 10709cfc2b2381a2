/**
 The token contracts the auction pays through: a standard ledger, where a transfer traps
 when the sender's balance is too small.
 */
module Ledger {
  import opened Common

  /** Keyed by (asset, holder). */
  type Balances = map<(Address, Address), nat>

  datatype Payment = Payment(to: Address, amount: nat)

  function BalanceOf(b: Balances, asset: Address, who: Address): nat {
    if (asset, who) in b then b[(asset, who)] else 0
  }

  function Credit(b: Balances, asset: Address, to: Address, amount: nat): Balances {
    b[(asset, to) := BalanceOf(b, asset, to) + amount]
  }

  /** `None` is a trap. */
  function Transfer(b: Balances, asset: Address, from: Address, to: Address, amount: nat): Option<Balances> {
    if BalanceOf(b, asset, from) < amount then None
    else Some(Credit(b[(asset, from) := BalanceOf(b, asset, from) - amount], asset, to, amount))
  }

  function PayAll(b: Balances, asset: Address, from: Address, ps: seq<Payment>): Option<Balances> {
    if ps == [] then Some(b)
    else
      match PayAll(b, asset, from, ps[..|ps| - 1])
      case None => None
      case Some(paid) => Transfer(paid, asset, from, ps[|ps| - 1].to, ps[|ps| - 1].amount)
  }

  lemma PayOne(b: Balances, asset: Address, from: Address, p: Payment)
    ensures PayAll(b, asset, from, [p]) == Transfer(b, asset, from, p.to, p.amount)
  {
  }

  lemma {:induction false} PayAllAppend(b: Balances, asset: Address, from: Address, ps: seq<Payment>, qs: seq<Payment>)
    ensures PayAll(b, asset, from, ps + qs) ==
            match PayAll(b, asset, from, ps)
            case None => None
            case Some(paid) => PayAll(paid, asset, from, qs)
  {
    if qs == [] {
      assert ps + qs == ps;
    } else {
      PayAllAppend(b, asset, from, ps, qs[..|qs| - 1]);
      assert (ps + qs)[..|ps + qs| - 1] == ps + qs[..|qs| - 1];
    }
  }

  function Total(ps: seq<Payment>): nat {
    if ps == [] then 0 else Total(ps[..|ps| - 1]) + ps[|ps| - 1].amount
  }

  function ReceivedBy(ps: seq<Payment>, who: Address): nat {
    if ps == [] then 0
    else ReceivedBy(ps[..|ps| - 1], who) + (if ps[|ps| - 1].to == who then ps[|ps| - 1].amount else 0)
  }

  lemma {:induction false} TotalAppend(ps: seq<Payment>, qs: seq<Payment>, who: Address)
    ensures Total(ps + qs) == Total(ps) + Total(qs)
    ensures ReceivedBy(ps + qs, who) == ReceivedBy(ps, who) + ReceivedBy(qs, who)
  {
    if qs == [] {
      assert ps + qs == ps;
    } else {
      TotalAppend(ps, qs[..|qs| - 1], who);
      assert (ps + qs)[..|ps + qs| - 1] == ps + qs[..|qs| - 1];
    }
  }

  /** A payment that is left out when it is zero. */
  function Due(to: Address, amount: nat): seq<Payment> {
    if amount > 0 then [Payment(to, amount)] else []
  }

  lemma DueTotals(to: Address, amount: nat, who: Address)
    ensures Total(Due(to, amount)) == amount
    ensures ReceivedBy(Due(to, amount), who) == if to == who then amount else 0
  {
    assert Due(to, amount) != [] ==> Due(to, amount)[..0] == [];
  }

  /** Net change of one balance when `from` makes the payments. */
  function Net(ps: seq<Payment>, from: Address, who: Address): int {
    ReceivedBy(ps, who) - (if who == from then Total(ps) else 0)
  }

  /** A sender that holds the total can make every payment, even to itself, and no balance
      moves by anything but what it is owed. */
  lemma {:induction false} PayAllEffect(b: Balances, asset: Address, from: Address, ps: seq<Payment>)
    requires BalanceOf(b, asset, from) >= Total(ps)
    ensures PayAll(b, asset, from, ps).Some?
    ensures var after := PayAll(b, asset, from, ps).value;
            forall a, who ::
            BalanceOf(after, a, who) == BalanceOf(b, a, who) + (if a == asset then Net(ps, from, who) else 0)
  {
    if ps != [] {
      var front := ps[..|ps| - 1];
      PayAllEffect(b, asset, from, front);
      var paid := PayAll(b, asset, from, front).value;
      assert BalanceOf(paid, asset, from) == BalanceOf(b, asset, from) + Net(front, from, from);
    }
  }

  // ----- nothing is created or lost by transfers -----

  /** What the listed holders own of one asset together. */
  function Supply(b: Balances, asset: Address, holders: seq<Address>): nat {
    if holders == [] then 0
    else Supply(b, asset, holders[..|holders| - 1]) + BalanceOf(b, asset, holders[|holders| - 1])
  }

  /** Nobody else holds anything. */
  ghost predicate Covers(b: Balances, holders: seq<Address>) {
    forall k :: k in b ==> k.1 in holders
  }

  lemma {:induction false} SupplySame(b: Balances, c: Balances, asset: Address, holders: seq<Address>)
    requires forall who :: who in holders ==> BalanceOf(b, asset, who) == BalanceOf(c, asset, who)
    ensures Supply(b, asset, holders) == Supply(c, asset, holders)
  {
    if holders != [] {
      SupplySame(b, c, asset, holders[..|holders| - 1]);
    }
  }

  lemma {:induction false} SupplySet(b: Balances, asset: Address, holders: seq<Address>, who: Address, v: nat)
    requires Distinct(holders) && who in holders
    ensures Supply(b[(asset, who) := v], asset, holders) == Supply(b, asset, holders) - BalanceOf(b, asset, who) + v
  {
    var front, last := holders[..|holders| - 1], holders[|holders| - 1];
    if last == who {
      SupplySame(b, b[(asset, who) := v], asset, front);
    } else {
      SupplySet(b, asset, front, who, v);
    }
  }

  lemma TransferParties(b: Balances, a: Address, from: Address, to: Address, amount: nat, holders: seq<Address>)
    requires Transfer(b, a, from, to, amount).Some? && Covers(Transfer(b, a, from, to, amount).value, holders)
    ensures Covers(b, holders) && from in holders && to in holders
  {
    var after := Transfer(b, a, from, to, amount).value;
    assert (a, from) in after && (a, to) in after;
    assert forall k :: k in b ==> k in after;
  }

  lemma TransferKeepsSupply(b: Balances, a: Address, from: Address, to: Address, amount: nat, asset: Address,
                            holders: seq<Address>)
    requires Transfer(b, a, from, to, amount).Some? && Distinct(holders)
    requires Covers(Transfer(b, a, from, to, amount).value, holders)
    ensures Supply(Transfer(b, a, from, to, amount).value, asset, holders) == Supply(b, asset, holders)
    ensures Covers(b, holders)
  {
    TransferParties(b, a, from, to, amount, holders);
    if a == asset {
      var debited := b[(a, from) := BalanceOf(b, a, from) - amount];
      SupplySet(b, asset, holders, from, BalanceOf(b, a, from) - amount);
      SupplySet(debited, asset, holders, to, BalanceOf(debited, a, to) + amount);
    } else {
      SupplySame(b, Transfer(b, a, from, to, amount).value, asset, holders);
    }
  }

  lemma {:induction false} PayAllKeepsSupply(b: Balances, a: Address, from: Address, ps: seq<Payment>, asset: Address,
                                             holders: seq<Address>)
    requires PayAll(b, a, from, ps).Some? && Distinct(holders) && Covers(PayAll(b, a, from, ps).value, holders)
    ensures Supply(PayAll(b, a, from, ps).value, asset, holders) == Supply(b, asset, holders)
    ensures Covers(b, holders)
  {
    if ps != [] {
      var paid, last := PayAll(b, a, from, ps[..|ps| - 1]).value, ps[|ps| - 1];
      TransferKeepsSupply(paid, a, from, last.to, last.amount, asset, holders);
      PayAllKeepsSupply(b, a, from, ps[..|ps| - 1], asset, holders);
    }
  }
}
