/**
 The second-price rule of the auction contract: the one-pass winner computation, the
 sort-based reference version, and the incentive property the rule exists for.
 */
module Vickrey {
  import opened Common

  datatype Bid = Bid(bidder: Address, amount: U64, placedAt: U64)

  datatype Settlement = Settlement(
    winner: Option<Address>, clearingPrice: U64, winningBid: U64, settledAt: U64, sold: bool)

  // ----- what the rule is -----

  /** `w` is the earliest bid of maximal amount. */
  ghost predicate IsTop(bids: seq<Bid>, w: nat) {
    && w < |bids|
    && (forall i :: 0 <= i < w ==> bids[i].amount < bids[w].amount)
    && (forall i :: w < i < |bids| ==> bids[i].amount <= bids[w].amount)
  }

  function TopIndex(bids: seq<Bid>): (w: nat)
    requires bids != []
    ensures IsTop(bids, w)
  {
    var n := |bids| - 1;
    if n == 0 then 0
    else
      var w := TopIndex(bids[..n]);
      if bids[n].amount > bids[w].amount then n else w
  }

  /** The largest amount, 0 when there is none. */
  function MaxAmount(bids: seq<Bid>): U64 {
    if bids == [] then 0
    else
      var front, last := MaxAmount(bids[..|bids| - 1]), bids[|bids| - 1].amount;
      if last >= front then last else front
  }

  ghost predicate AllAtMost(bids: seq<Bid>, m: U64) {
    forall i :: 0 <= i < |bids| ==> bids[i].amount <= m
  }

  ghost predicate AllBelow(bids: seq<Bid>, m: U64) {
    forall i :: 0 <= i < |bids| ==> bids[i].amount < m
  }

  /** `MaxAmount` is the least upper bound of the amounts. */
  lemma {:induction false} MaxAmountIsLeastBound(bids: seq<Bid>, m: U64)
    ensures MaxAmount(bids) <= m <==> AllAtMost(bids, m)
  {
    if bids != [] {
      MaxAmountIsLeastBound(bids[..|bids| - 1], m);
      assert bids == bids[..|bids| - 1] + [bids[|bids| - 1]];
    }
  }

  function Others(bids: seq<Bid>, w: nat): seq<Bid>
    requires w < |bids|
  {
    bids[..w] + bids[w + 1..]
  }

  function Settled(highest: Bid, second: U64, reserve: U64, settledAt: U64): Settlement {
    if highest.amount < reserve then Settlement(None, 0, highest.amount, settledAt, false)
    else Settlement(Some(highest.bidder), if second > reserve then second else reserve,
                    highest.amount, settledAt, true)
  }

  /** The rule: the earliest highest bid wins and pays the best of the other bids and the
      reserve, unless it misses the reserve. */
  function Settle(bids: seq<Bid>, reserve: U64, settledAt: U64): Option<Settlement> {
    if bids == [] then None
    else
      var w := TopIndex(bids);
      Some(Settled(bids[w], MaxAmount(Others(bids, w)), reserve, settledAt))
  }

  // ----- one pass -----

  /** `p` is the best amount among the bids other than `w`, 0 when `w` stands alone. */
  ghost predicate IsRunnerUp(bids: seq<Bid>, w: nat, p: U64) {
    && (forall i :: 0 <= i < |bids| && i != w ==> bids[i].amount <= p)
    && (p == 0 || exists i :: 0 <= i < |bids| && i != w && bids[i].amount == p)
  }

  lemma TopUnique(bids: seq<Bid>, v: nat, w: nat)
    requires IsTop(bids, v) && IsTop(bids, w)
    ensures v == w
  {
    assert bids[v].amount == bids[w].amount;
  }

  lemma RunnerUpIsMax(bids: seq<Bid>, w: nat, p: U64)
    requires w < |bids| && IsRunnerUp(bids, w, p)
    ensures MaxAmount(Others(bids, w)) == p
  {
    var others := Others(bids, w);
    var m := MaxAmount(others);
    forall i | 0 <= i < |others| ensures others[i].amount <= p {
      assert others[i] == bids[if i < w then i else i + 1];
    }
    MaxAmountIsLeastBound(others, p);
    MaxAmountIsLeastBound(others, m);
    if p > 0 {
      var i :| 0 <= i < |bids| && i != w && bids[i].amount == p;
      assert others[if i < w then i else i - 1].amount == p;
    }
  }

  /** The loop of `settle_vickrey`: one running maximum and one running second. */
  method SettleOnePass(bids: seq<Bid>, reserve: U64, settledAt: U64) returns (r: Option<Settlement>)
    ensures r == Settle(bids, reserve, settledAt)
  {
    if bids == [] {
      return None;
    }
    var highest: Option<Bid> := None;
    var second: U64 := 0;
    ghost var w := 0;
    var i := 0;
    while i < |bids|
      invariant 0 <= i <= |bids|
      invariant i == 0 ==> highest == None && second == 0
      invariant i > 0 ==> w < i && highest == Some(bids[w])
      invariant i > 0 ==> IsTop(bids[..i], w) && IsRunnerUp(bids[..i], w, second)
    {
      var bid := bids[i];
      if highest == None || bid.amount > highest.value.amount {
        second := if highest == None then 0 else highest.value.amount;
        if i > 0 {
          assert bids[..i + 1][w].amount == second;
        }
        highest := Some(bid);
        w := i;
      } else if bid.amount > second {
        second := bid.amount;
        assert bids[..i + 1][i].amount == second;
      } else if second > 0 {
        ghost var k :| 0 <= k < i && k != w && bids[..i][k].amount == second;
        assert bids[..i + 1][k].amount == second;
      }
      i := i + 1;
    }
    assert bids[..i] == bids;
    TopUnique(bids, w, TopIndex(bids));
    RunnerUpIsMax(bids, w, second);
    return Some(Settled(highest.value, second, reserve, settledAt));
  }

  // ----- the sort-based reference -----

  predicate Eligible(deadline: U64, bid: Bid) {
    bid.amount > 0 && bid.placedAt <= deadline
  }

  /** `sorted` is what a stable descending sort makes of `bids`. */
  ghost predicate StableDescending(bids: seq<Bid>, sorted: seq<Bid>) {
    && multiset(sorted) == multiset(bids)
    && Descending(sorted)
    && (forall x: U64 :: OfAmount(sorted, x) == OfAmount(bids, x))
  }

  function OfAmount(bids: seq<Bid>, x: U64): seq<Bid> {
    Filter(bids, (b: Bid) => b.amount == x)
  }

  function EligibleBids(bids: seq<Bid>, deadline: U64): seq<Bid> {
    Filter(bids, b => Eligible(deadline, b))
  }

  /** What `settle.rs` reads off the filtered and sorted list. */
  function SettleSorted(sorted: seq<Bid>, reserve: U64, settledAt: U64): Option<Settlement> {
    if sorted == [] then None
    else if sorted[0].amount < reserve then Some(Settlement(None, 0, sorted[0].amount, settledAt, false))
    else
      var price := if |sorted| > 1 then Max(sorted[1].amount, reserve) else reserve;
      Some(Settlement(Some(sorted[0].bidder), price, sorted[0].amount, settledAt, true))
  }

  lemma FirstOfAmount(bids: seq<Bid>, w: nat)
    requires w < |bids|
    requires forall i :: 0 <= i < w ==> bids[i].amount != bids[w].amount
    ensures OfAmount(bids, bids[w].amount) != []
    ensures OfAmount(bids, bids[w].amount)[0] == bids[w]
  {
    var keep := (b: Bid) => b.amount == bids[w].amount;
    assert bids == bids[..w + 1] + bids[w + 1..];
    FilterAppend(bids[..w + 1], bids[w + 1..], keep);
    FilterStep(bids, keep, w);
    FilterNone(bids[..w], keep);
  }

  lemma {:induction false} MaxAmountOfMultiset(a: seq<Bid>, b: seq<Bid>)
    requires multiset(a) == multiset(b)
    ensures MaxAmount(a) <= MaxAmount(b)
  {
    MaxAmountIsLeastBound(b, MaxAmount(b));
    MaxAmountIsLeastBound(a, MaxAmount(b));
    forall i | 0 <= i < |a| ensures a[i].amount <= MaxAmount(b) {
      assert a[i] in multiset(b);
    }
  }

  lemma SameHeadRest(a: seq<Bid>, b: seq<Bid>, w: nat)
    requires multiset(a) == multiset(b) && w < |b| && a != [] && a[0] == b[w]
    ensures multiset(a[1..]) == multiset(Others(b, w))
  {
    assert a == [a[0]] + a[1..];
    assert b == b[..w] + [b[w]] + b[w + 1..];
    assert multiset(a[1..]) == multiset(a) - multiset{a[0]};
    assert multiset(Others(b, w)) == multiset(b) - multiset{b[w]};
  }

  lemma SortedHead(bids: seq<Bid>, sorted: seq<Bid>)
    requires bids != [] && StableDescending(bids, sorted)
    ensures sorted != [] && sorted[0] == bids[TopIndex(bids)]
  {
    var w := TopIndex(bids);
    var x := bids[w].amount;
    assert bids[w] in multiset(sorted);
    assert sorted[0] in multiset(bids);
    assert sorted[0].amount == x;
    FirstOfAmount(bids, w);
    FirstOfAmount(sorted, 0);
    assert OfAmount(sorted, x) == OfAmount(bids, x);
  }

  lemma SortedRest(bids: seq<Bid>, sorted: seq<Bid>)
    requires bids != [] && StableDescending(bids, sorted)
    ensures MaxAmount(Others(bids, TopIndex(bids))) == if |sorted| > 1 then sorted[1].amount else 0
  {
    var others := Others(bids, TopIndex(bids));
    SortedHead(bids, sorted);
    SameHeadRest(sorted, bids, TopIndex(bids));
    MaxAmountOfMultiset(sorted[1..], others);
    MaxAmountOfMultiset(others, sorted[1..]);
    if |sorted| > 1 {
      var m := MaxAmount(sorted[1..]);
      MaxAmountIsLeastBound(sorted[1..], m);
      MaxAmountIsLeastBound(sorted[1..], sorted[1].amount);
      assert sorted[1..][0] == sorted[1];
    }
  }

  lemma SortedSettles(bids: seq<Bid>, sorted: seq<Bid>, reserve: U64, settledAt: U64)
    requires bids != [] && StableDescending(bids, sorted)
    ensures Settle(bids, reserve, settledAt) == SettleSorted(sorted, reserve, settledAt)
  {
    SortedHead(bids, sorted);
    SortedRest(bids, sorted);
  }

  /** On positive, timely bids the one-pass rule and the filter, sort and take-second
      version settle alike, for every stable sort. */
  lemma OnePassIsSorting(bids: seq<Bid>, sorted: seq<Bid>, reserve: U64, deadline: U64, settledAt: U64)
    requires forall i :: 0 <= i < |bids| ==> Eligible(deadline, bids[i])
    requires StableDescending(EligibleBids(bids, deadline), sorted)
    ensures Settle(bids, reserve, settledAt) == SettleSorted(sorted, reserve, settledAt)
  {
    assert EligibleBids(bids, deadline) == bids by {
      FilterAll(bids, b => Eligible(deadline, b));
    }
    if bids != [] {
      SortedSettles(bids, sorted, reserve, settledAt);
    } else {
      assert |multiset(sorted)| == 0;
    }
  }

  // A stable descending sort exists: insertion after the bids of equal amount.

  function Insert(sorted: seq<Bid>, b: Bid): seq<Bid> {
    if sorted == [] then [b]
    else if sorted[|sorted| - 1].amount >= b.amount then sorted + [b]
    else Insert(sorted[..|sorted| - 1], b) + [sorted[|sorted| - 1]]
  }

  function StableSort(bids: seq<Bid>): seq<Bid> {
    if bids == [] then [] else Insert(StableSort(bids[..|bids| - 1]), bids[|bids| - 1])
  }

  ghost predicate Descending(bids: seq<Bid>) {
    forall i, j :: 0 <= i < j < |bids| ==> bids[i].amount >= bids[j].amount
  }

  ghost predicate AllAtLeast(bids: seq<Bid>, m: U64) {
    forall i :: 0 <= i < |bids| ==> bids[i].amount >= m
  }

  lemma {:induction false} InsertPermutes(sorted: seq<Bid>, b: Bid)
    ensures multiset(Insert(sorted, b)) == multiset(sorted) + multiset{b}
  {
    if sorted != [] && sorted[|sorted| - 1].amount < b.amount {
      InsertPermutes(sorted[..|sorted| - 1], b);
      assert sorted == sorted[..|sorted| - 1] + [sorted[|sorted| - 1]];
    }
  }

  lemma {:induction false} InsertAtLeast(sorted: seq<Bid>, b: Bid, m: U64)
    requires AllAtLeast(sorted, m) && b.amount >= m
    ensures AllAtLeast(Insert(sorted, b), m)
  {
    if sorted != [] && sorted[|sorted| - 1].amount < b.amount {
      InsertAtLeast(sorted[..|sorted| - 1], b, m);
    }
  }

  lemma {:induction false} InsertSorts(sorted: seq<Bid>, b: Bid)
    requires Descending(sorted)
    ensures Descending(Insert(sorted, b))
  {
    if sorted != [] && sorted[|sorted| - 1].amount < b.amount {
      InsertSorts(sorted[..|sorted| - 1], b);
      InsertAtLeast(sorted[..|sorted| - 1], b, sorted[|sorted| - 1].amount);
    }
  }

  lemma SwapKeepsAmounts(a: Bid, b: Bid, x: U64)
    requires a.amount != b.amount
    ensures OfAmount([a, b], x) == OfAmount([b, a], x)
  {
    var keep := (c: Bid) => c.amount == x;
    FilterAppend([a], [b], keep);
    FilterAppend([b], [a], keep);
    assert [a, b] == [a] + [b] && [b, a] == [b] + [a];
    assert Filter([a], keep) == if keep(a) then [a] else [];
    assert Filter([b], keep) == if keep(b) then [b] else [];
  }

  lemma {:induction false} InsertIsStable(sorted: seq<Bid>, b: Bid, x: U64)
    ensures OfAmount(Insert(sorted, b), x) == OfAmount(sorted + [b], x)
  {
    var keep := (c: Bid) => c.amount == x;
    if sorted != [] && sorted[|sorted| - 1].amount < b.amount {
      var front, last := sorted[..|sorted| - 1], sorted[|sorted| - 1];
      InsertIsStable(front, b, x);
      SwapKeepsAmounts(b, last, x);
      assert sorted + [b] == front + [last, b] && front + [b, last] == (front + [b]) + [last];
      FilterAppend(Insert(front, b), [last], keep);
      FilterAppend(front + [b], [last], keep);
      FilterAppend(front, [b, last], keep);
      FilterAppend(front, [last, b], keep);
    }
  }

  lemma {:induction false} StableSortSorts(bids: seq<Bid>)
    ensures StableDescending(bids, StableSort(bids))
  {
    if bids != [] {
      var front, last := bids[..|bids| - 1], bids[|bids| - 1];
      StableSortSorts(front);
      assert bids == front + [last];
      var sorted := StableSort(front);
      InsertPermutes(sorted, last);
      InsertSorts(sorted, last);
      forall x: U64 ensures OfAmount(StableSort(bids), x) == OfAmount(bids, x) {
        InsertIsStable(sorted, last, x);
        FilterAppend(sorted, [last], (c: Bid) => c.amount == x);
        FilterAppend(front, [last], (c: Bid) => c.amount == x);
        assert OfAmount(sorted, x) == OfAmount(front, x);
      }
    }
  }

  // ----- truthful bidding -----

  /** Gain of `me`, who values the name at `v`. */
  function Utility(bids: seq<Bid>, reserve: U64, settledAt: U64, me: Address, v: U64): int {
    match Settle(bids, reserve, settledAt)
    case None => 0
    case Some(s) => if s.winner == Some(me) then v - s.clearingPrice else 0
  }

  ghost predicate NotAmong(bids: seq<Bid>, me: Address) {
    forall i :: 0 <= i < |bids| ==> bids[i].bidder != me
  }

  lemma IsTopIff(before: seq<Bid>, mine: Bid, after: seq<Bid>)
    ensures IsTop(before + [mine] + after, |before|) <==>
            AllBelow(before, mine.amount) && AllAtMost(after, mine.amount)
  {
    var bids, m := before + [mine] + after, |before|;
    assert bids[m] == mine;
    assert forall i :: 0 <= i < m ==> bids[i] == before[i];
    assert forall i :: 0 <= i < |after| ==> after[i] == bids[m + 1 + i];
    if AllAtMost(after, mine.amount) {
      assert forall i :: m < i < |bids| ==> bids[i] == after[i - m - 1];
    }
  }

  /** A bid is the top one iff it beats everything earlier and is beaten by nothing later. */
  lemma TopIff(before: seq<Bid>, mine: Bid, after: seq<Bid>)
    ensures TopIndex(before + [mine] + after) == |before| <==>
            AllBelow(before, mine.amount) && AllAtMost(after, mine.amount)
    ensures Others(before + [mine] + after, |before|) == before + after
  {
    var bids := before + [mine] + after;
    IsTopIff(before, mine, after);
    if IsTop(bids, |before|) {
      TopUnique(bids, TopIndex(bids), |before|);
    }
  }

  /** It wins iff it moreover meets the reserve; the price then does not depend on it. */
  lemma WinsIff(before: seq<Bid>, mine: Bid, after: seq<Bid>, reserve: U64, settledAt: U64)
    requires NotAmong(before, mine.bidder) && NotAmong(after, mine.bidder)
    ensures var s := Settle(before + [mine] + after, reserve, settledAt).value;
            && (s.winner == Some(mine.bidder) <==>
                AllBelow(before, mine.amount) && AllAtMost(after, mine.amount) && reserve <= mine.amount)
            && (s.winner == Some(mine.bidder) ==> s.clearingPrice == Max(MaxAmount(before + after), reserve))
  {
    var bids, m := before + [mine] + after, |before|;
    var w := TopIndex(bids);
    TopIff(before, mine, after);
    assert bids[m] == mine;
    if w < m {
      assert bids[w] == before[w];
    } else if w > m {
      assert bids[w] == after[w - m - 1];
    }
  }

  lemma MaxOfOthers(before: seq<Bid>, after: seq<Bid>, m: U64)
    ensures MaxAmount(before + after) <= m <==> AllAtMost(before, m) && AllAtMost(after, m)
  {
    var all := before + after;
    MaxAmountIsLeastBound(all, m);
    assert forall i :: 0 <= i < |before| ==> before[i] == all[i];
    assert forall i :: 0 <= i < |after| ==> after[i] == all[|before| + i];
  }

  /** Bidding one's valuation is weakly dominant, whatever the others bid, wherever one's
      bid stands among them and whatever the reserve; and it never loses money. */
  lemma TruthfulIsDominant(before: seq<Bid>, after: seq<Bid>, me: Address, v: U64, x: U64,
                           placedAt: U64, reserve: U64, settledAt: U64)
    requires NotAmong(before, me) && NotAmong(after, me)
    ensures Utility(before + [Bid(me, v, placedAt)] + after, reserve, settledAt, me, v)
         >= Utility(before + [Bid(me, x, placedAt)] + after, reserve, settledAt, me, v)
    ensures Utility(before + [Bid(me, v, placedAt)] + after, reserve, settledAt, me, v) >= 0
  {
    WinsIff(before, Bid(me, v, placedAt), after, reserve, settledAt);
    WinsIff(before, Bid(me, x, placedAt), after, reserve, settledAt);
    MaxOfOthers(before, after, v);
    if v > 0 && !(AllBelow(before, v) && AllAtMost(after, v)) {
      MaxOfOthers(before, after, v - 1);
    }
  }
}
