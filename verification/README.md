# Verified model of the xlm-ns name service

xlm-ns is a Stellar name service made of Soroban contracts. This project models the six
contracts that hold state together with the name grammar they share, and proves what their
runs keep.

Each contract has two main modules. The first (`Auctions`, `Nft`, `Registry`, `Registrar`,
`Subdomain`, `Resolver`) describes its storage as a value, each entry point as a function from
storage to an outcome, and a run as a sequence of calls; the theorems are about those runs. A
companion (`AuctionLaws`, `NftLaws`, ...) states for every entry point exactly when it succeeds,
what it changes and what it leaves alone, and which reason each error has. The second (`AuctionContract`, `NftContract`, ...) is the contract as it runs: a class whose methods
update storage in place, with the loops, flags and undo steps of the original. Each object
carries the history of its calls; its `Valid()`, required and ensured by every entry point, says
that storage is what a run of that history leaves, and every entry point appends its own call. So
every theorem about runs holds of every object, and the `Invariant` lemmas read the main ones off.
(`SubdomainContract` and `RegistrarContract` keep the invariant itself as `Valid()`.)
`NameService` puts registrar, registry and NFT together with the calls they make into each other.

| file | contents |
|---|---|
| `Common.dfy`, `Index.dfy` | results, bounded integers, list operations, hand-kept indexes as views of a relation |
| `Names.dfy`, `Validation.dfy` | name grammar: byte side, string side, agreement over UTF-8 |
| `Vickrey.dfy`, `Ledger.dfy`, `Auctions.dfy`, `AuctionLaws.dfy`, `AuctionContract.dfy`, `Paging.dfy` | second-price rule, token ledger, escrow, paging |
| `Lifecycle.dfy`, `Registry.dfy`, `RegistryLaws.dfy`, `RegistryContract.dfy` | dates, entries, locks, owner index |
| `Registrar.dfy`, `RegistrarLaws.dfy`, `RegistrarContract.dfy` | pricing, rate limit, registration and renewal |
| `Nft.dfy`, `NftLaws.dfy`, `NftContract.dfy` | tokens and their enumeration |
| `NameService.dfy` | registrar, registry and NFT in one system |
| `Subdomain.dfy`, `SubdomainLaws.dfy`, `SubdomainContract.dfy` | namespaces and the purge |
| `Resolver.dfy`, `ResolverLaws.dfy`, `Fallback.dfy`, `ResolverContract.dfy` | forward, reverse and primary tables, batches, wildcard resolution |

Modelling choices:

- A call that returns an error or traps changes nothing, nested calls included. Where the source
  has already written something when the error occurs, the class writes it too and then undoes it.
- Authorization is a set of addresses attached to the call. `Trap` stands for a failed
  authorization, a failed token transfer, a failed nested call or a buffer overrun.
- Clocks are arguments, as in the source; nothing assumes they advance from call to call.
- Answers of contracts outside a module are arguments of the call: for the subdomain contract the
  names active in the registry at ledger time (`live`), for the resolver the registry's entries
  (`book`), which each call reads at its own clock, and whether nested calls succeeded (`nestedOk`,
  `answers`, `foreignOk`).
- Integers are u64 or u32 ranges with the saturating operators written out. Token balances are
  unbounded.
- An auction can never be paid by itself: the host does not lend a contract's own authorization
  to an outside caller, so a bid in the contract's name traps.
- The registrar of `NameService` is already initialised with the registry of the same system.

Where documentation and code differ the code is followed: the subdomain architecture note says a
registry transfer updates the owner in the resolver, while the registry only asks the resolver to
clear the previous owner's reverse entries.

Some things a reader might expect do not hold of the code, and the model says exactly when:

- Clocks of registry, registrar, auction and most resolver calls are the caller's own argument and
  never compared with the ledger; "active", "expired" and "ended" mean at that clock
  (`Registry.StrangerBurnsIff`, `Auctions.SettlableAtSomeClock`).
- The holder of an expired name can still write its resolver record, and a record's stale owner can
  still pass it on, because `transfer_record_owner` asks no registry (`Resolver.UnruledIff`).
- NFT transfers and approvals, and the resolver's wildcard switch, compare their caller argument
  with the owner but never authenticate it (`Nft.AnyoneMovesAnyToken`,
  `Resolver.AnyoneSwitchesWildcards`).
- A token synchronised to a new owner keeps the former owner's approval
  (`NftLaws.SyncKeepsApproval`).
- After a registry transfer nobody can renew the name through the registrar, which still asks for
  the old owner; nor can anybody renew a name registered before the NFT contract was configured
  (`NameService.RenewableIff`, `NameService.TransferEndsRenewal`, `NameService.LateNftEndsRenewal`).
- Under a transferred parent the former owner still creates subdomains and the new one does not,
  until he registers the parent again, although the registry is documented as the canonical record
  of ownership (`Subdomain.RecordedOwnerDecides`).

## Model

| member | source | states |
|---|---|---|
| Names.CheckFqdn | packages/xlm-ns-common/src/soroban.rs:56-72 | the label loop, stopping at the first bad label, gives exactly the verdict and error of the grammar check |
| Names.ValidLabelIff | packages/xlm-ns-common/src/soroban.rs:127-146 | the label validator accepts exactly 3 to 64 of [a-z0-9-] with no hyphen at either end, and such a label has no dot |
| Names.FqdnLanguage | packages/xlm-ns-common/src/soroban.rs:56-72 | a name is accepted iff it has at most 68 bytes and is a dot-join of one or more valid labels followed by ".xlm" |
| Names.JoinSplit | packages/xlm-ns-common/src/soroban.rs:67-69 | cutting at dots loses nothing and leaves no dot in a part |
| Names.SplitJoin | packages/xlm-ns-common/src/soroban.rs:67-69 | dot-free parts survive joining and cutting, so a name has one decomposition |
| Names.BuildXlmNameInBuffer | packages/xlm-ns-common/src/soroban.rs:84-93 | filling the fixed buffer piece by piece yields label, dot and "xlm", or the label's error |
| Names.BuildThenExtract | packages/xlm-ns-common/src/soroban.rs:74-93 | building succeeds iff the label is valid, the result is an accepted base name and an accepted name, and extraction gives the label back |
| Names.BuildInjective | packages/xlm-ns-common/src/soroban.rs:84-93 | two labels never build the same name |
| Names.BaseNameIffBuilt | packages/xlm-ns-common/src/soroban.rs:37-54 | the base-name check accepts exactly what the builder can make |
| Names.BaseNameIffTwoParts | packages/xlm-ns-common/src/soroban.rs:37-54 | base names are exactly the accepted names with one label before the TLD |
| Names.BaseNameErrorsAreTrue | packages/xlm-ns-common/src/soroban.rs:37-54 | each error of the base-name check, the label's own included, is given only for its reason, in the order of the checks |
| Names.ExtractedIsFirst | packages/xlm-ns-common/src/soroban.rs:74-82 | the extracted label is the leading label of the name, however many it has |
| Validation.LabelValidatorsAgree | packages/xlm-ns-common/src/validation.rs:8-31 | string and byte label validators accept the same Unicode text |
| Validation.LabelErrorsDifferIff | packages/xlm-ns-common/src/validation.rs:19-28 | their errors differ iff the length is admissible, a character is forbidden and an end is a hyphen |
| Validation.EncodeSplit | packages/xlm-ns-common/src/validation.rs:49-56 | UTF-8 encoding commutes with cutting at dots |
| Validation.FqdnValidatorsAgree | packages/xlm-ns-common/src/validation.rs:49-62 | `parse_fqdn` and the byte base-name check accept the same text and find the same label |
| Vickrey.SettleOnePass | contracts/auction/src/lib.rs:526-569 | the one-pass loop computes the rule: earliest highest bid wins, pays the best other bid or the reserve, no sale below the reserve |
| Vickrey.MaxAmountIsLeastBound | contracts/auction/src/lib.rs:531-545 | the second price is the least upper bound of the other bids |
| Vickrey.StableSortSorts | contracts/auction/src/settle.rs:27 | a stable descending sort exists: insertion gives a descending permutation that keeps the order of equal amounts |
| Vickrey.OnePassIsSorting | contracts/auction/src/settle.rs:12-52 | on positive, timely bids the one-pass rule equals filter, any stable sort and take-second |
| Vickrey.WinsIff | contracts/auction/src/lib.rs:534-568 | a bid wins iff it beats all earlier bids, no later bid beats it and it meets the reserve; the price does not depend on it |
| Vickrey.TruthfulIsDominant | contracts/auction/src/lib.rs:526-569 | bidding one's valuation is weakly dominant for any other bids, position and reserve, and never loses money |
| Ledger.PayAllEffect | contracts/auction/src/lib.rs:321-353 | a sender holding the total can make every payment, even to itself, and every balance moves by exactly its share |
| Auctions.WinnerBranchIff | contracts/auction/src/lib.rs:322-330 | the winner branch is taken by exactly the earliest highest bid when sold and by none otherwise |
| Auctions.PriceWithinBid | contracts/auction/src/lib.rs:331 | the price never exceeds the winning bid, so the saturating subtraction never saturates |
| Auctions.ExactPayouts | contracts/auction/src/lib.rs:324-353 | payouts total the bids, and each address gets its bids, minus the price if it won, plus the price if it is the treasury |
| Auctions.SettleAffordable | contracts/auction/src/lib.rs:315-353 | a solvent contract holds enough for every settlement |
| Auctions.SettleSucceedsIff | contracts/auction/src/lib.rs:298-356 | settling succeeds iff the auction exists, is unsettled and has ended at the given clock |
| Auctions.SettlePaysExactly | contracts/auction/src/lib.rs:298-356 | settling moves every balance of every asset by exactly the documented amount |
| Auctions.PlaceKeepsSolvent | contracts/auction/src/lib.rs:258-296 | a bid raises balance and debt alike |
| Auctions.SettleKeepsSolvent | contracts/auction/src/lib.rs:298-356 | settling one auction never spends another's escrow |
| Auctions.RunKeepsInv | contracts/auction/src/lib.rs:157-356 | in every run, foreign token traffic included, every asset balance covers the bids of all unsettled auctions, the index lists the auctions once each, bids are positive and timely, and recorded settlements are the second-price outcome |
| Auctions.ReachableSettleSucceeds | contracts/auction/src/lib.rs:298-356 | in every run no payout ever traps |
| Auctions.SettlableAtSomeClock | contracts/auction/src/lib.rs:298-312 | the clock is the caller's argument: in every run some clock settles an auction iff it exists and is unsettled |
| Auctions.SurplusChangesByGifts | contracts/auction/src/lib.rs:258-356 | balance minus debt changes only by tokens given to the contract |
| Auctions.EscrowIsExact | contracts/auction/src/lib.rs:258-356 | over every run the contract holds exactly what it owes plus gifts, so nothing leaks or is stranded |
| Auctions.RunExtends | contracts/auction/src/lib.rs:258-319 | over every run terms are fixed, bids and index only grow, a settlement and its bids never change again |
| Auctions.ReachableSettlesBySorting | contracts/auction/src/lib.rs:258-296 | every reachable auction settles as the sort-based version with its end as deadline |
| Auctions.ReachableIndexComplete | contracts/auction/src/lib.rs:187-198 | the index lists every auction ever created, without duplicates |
| AuctionContract.Contract.Invariant | contracts/auction/src/lib.rs:157-356 | after any calls an object has received, outside token activity included, it is solvent, its index complete, its bids timely and its settlements second-price outcomes |
| AuctionLaws.PlaceSucceedsIff | contracts/auction/src/lib.rs:258-296 | a bid succeeds iff unlocked, authorized, not the contract's own, positive, on an existing unsettled auction, within its window, and covered by the bidder's balance |
| AuctionLaws.PlaceMovesExactly | contracts/auction/src/lib.rs:258-296 | it costs the bidder exactly the amount, gives it to the contract, moves no other balance of any asset, and appends exactly this bid |
| AuctionLaws.ActiveIffBiddable | contracts/auction/src/lib.rs:377-395 | the active listing shows exactly the auctions that would take a covered bid, and none that is settled |
| AuctionLaws.CreateSucceedsIff | contracts/auction/src/lib.rs:157-200 | creating succeeds iff the administrator has authorized it, the name is accepted and has no auction yet |
| AuctionLaws.CreatedTermsStay | contracts/auction/src/lib.rs:157-200 | a created auction has the given terms, no bids, is listed last, and keeps its terms over every later run |
| AuctionLaws.AdministratorStays | contracts/auction/src/lib.rs:99-108 | the administrator stays the same over every run |
| AuctionLaws.SettleWritesOnly | contracts/auction/src/lib.rs:298-319 | settling records one settlement and touches no bid, no other settlement and no index; without bids it changes nothing |
| AuctionLaws.SupplyIsMinted | contracts/auction/src/lib.rs:258-356 | over every run all holders together own exactly what was minted of an asset |
| AuctionLaws.ErrorsAreTrue | contracts/auction/src/lib.rs:157-356 | every error is given only for its own reason, and a settlement never traps in a reachable state |
| AuctionContract.Contract.PlaceBid | contracts/auction/src/lib.rs:258-296 | bid and transfer from bidder to contract commit together and the reentrancy lock is released on every exit |
| AuctionContract.Contract.PayOut | contracts/auction/src/lib.rs:322-353 | the loop with its flag makes exactly the specified payments in order, and fails iff one of them does |
| AuctionContract.Contract.Settle | contracts/auction/src/lib.rs:298-356 | settlement recorded and everybody paid, or nothing changes; it succeeds iff the auction exists, is unsettled and has ended at the given clock, after any calls whatever |
| AuctionContract.Contract.ListActiveAuctions | contracts/auction/src/lib.rs:377-395 | the requested page of the open, unsettled auctions in creation order |
| AuctionContract.Contract.ListSettledAuctions | contracts/auction/src/lib.rs:399-405 | the requested page of the settled auctions in creation order |
| Paging.SliceIndex | contracts/auction/src/lib.rs:424-443 | the copying loop returns the window of at most 100 elements after the offset |
| Paging.FilterIndex | contracts/auction/src/lib.rs:445-473 | the early-exit loop returns that window of the filtered index, for every predicate |
| Paging.PagesTile | contracts/auction/src/lib.rs:424-443 | successive pages of any size from 1 to 100 tile the index in order, each element once |
| Paging.PagesCover | contracts/auction/src/lib.rs:370-372 | enough pages give back the whole index |
| Paging.PageIs | contracts/auction/src/lib.rs:424-443 | a page has as many elements as asked for, at most 100, and as there are after the offset, in order |
| Index.MoveViews | contracts/registry/src/lib.rs:766-796 | removing a name from one owner's list and adding it to another's keeps the lists a duplicate-free view of ownership, also when both owners are equal |
| Index.ListsKeepOrder | contracts/registry/src/lib.rs:766-796 | a new item goes to the end of its list, a removed one leaves the others in order, no other list changes |
| Index.TotalLengthIsSize | contracts/nft/src/lib.rs:347-353 | the lengths of all lists add up to the number of items |
| Nft.OutcomeEnumerates | contracts/nft/src/lib.rs:146-193 | every successful call keeps the global and the per-owner enumeration |
| Nft.RunEnumerates | contracts/nft/src/lib.rs:146-501 | in every run the global list holds every token once and each owner list exactly that owner's tokens |
| Nft.BalancesSumToSupply | contracts/nft/src/lib.rs:347-353 | in every run the balances of all owners sum to the total supply |
| Nft.AnyoneMovesAnyToken | contracts/nft/src/lib.rs:272-302 | in every state a transfer that carries no authorization can take a token to any address iff the token exists and no registry is set or the registry call returns |
| NftContract.Contract.Invariant | contracts/nft/src/lib.rs:146-501 | after any calls an object has received both enumerations list exactly its tokens |
| NftLaws.TransferSucceedsIff | contracts/nft/src/lib.rs:272-302 | a transfer succeeds iff the token exists, the caller argument is its owner or approved address, and no registry is set or it answers |
| NftLaws.TransferFromSucceedsIff | contracts/nft/src/lib.rs:304-334 | transfer_from succeeds iff the token exists, the owner argument is its owner, the spender its approved address, and no registry is set or it answers |
| NftLaws.TransferDelivers | contracts/nft/src/lib.rs:272-334 | after either the new owner has the token and alone lists it, no approval stands, and nothing else has changed |
| NftLaws.ApproveSucceedsIff | contracts/nft/src/lib.rs:241-270 | approving and clearing succeed iff the caller argument is the owner |
| NftLaws.MintGives | contracts/nft/src/lib.rs:146-193 | a minted token has the given owner, data and expiry, no approval, is listed last and by its owner alone |
| NftLaws.MintSucceedsIff | contracts/nft/src/lib.rs:146-193 | minting succeeds iff the administrator has authorized it, the id is free, and no registry is set or it answers |
| NftLaws.AdministratorSucceedsIff | contracts/nft/src/lib.rs:370-429 | burning and synchronising succeed iff the administrator has authorized it and the token exists |
| NftLaws.BurnLeavesNothing | contracts/nft/src/lib.rs:370-394 | a burned token is in no list and the others keep their order |
| NftLaws.SyncKeepsApproval | contracts/nft/src/lib.rs:412-429 | synchronising moves the token but leaves the former owner's approval standing, so exactly the address it names can take the token on |
| NftLaws.RecordCallsWriteOneField | contracts/nft/src/lib.rs:241-410 | approving and synchronising the expiry write one field of one token |
| NftLaws.OwnershipSafety | contracts/nft/src/lib.rs:272-429 | over any run the very step that took a token from the owner it had was a transfer naming owner or approved address, a transfer_from naming both, or the administrator's synchronisation or burn |
| NftLaws.ApprovalWasGranted | contracts/nft/src/lib.rs:241-270 | a standing approval was given by the owner of the time and has stood ever since |
| NftLaws.ErrorsAreTrue | contracts/nft/src/lib.rs:146-429 | every error is given only for its own reason |
| NftContract.Contract.RemoveOwnerToken | contracts/nft/src/lib.rs:477-487 | the rebuild loop drops the token and keeps the others in order |
| NftContract.Contract.Mint | contracts/nft/src/lib.rs:146-193 | token, global list and owner list written together, or nothing when minted already or the registry call fails |
| NftContract.Contract.Transfer | contracts/nft/src/lib.rs:272-302 | a caller argument naming the owner or the approved address moves the token, clears the approval and refiles it; the caller is not authenticated |
| NftContract.Contract.TransferFrom | contracts/nft/src/lib.rs:304-334 | a spender argument naming the approved address, with the right owner argument, moves the token; the spender is not authenticated |
| NftContract.Contract.Burn | contracts/nft/src/lib.rs:370-394 | record, owner list and global list lose the token together |
| NftContract.Contract.SyncOwner | contracts/nft/src/lib.rs:412-429 | the administrator moves the token and its approval stays |
| Lifecycle.RenewalNeverShrinks | packages/xlm-ns-common/src/time.rs:3-13 | whatever grace periods applied before and after, a renewal moves neither expiry nor grace end backwards, saturation included |
| Registry.RunKeepsInv | contracts/registry/src/lib.rs:224-361 | in every run a name is in an owner's list, once, iff its entry has that owner, every lock has an entry, and registered <= expires <= grace end |
| Registry.AuditAlwaysEmpty | contracts/registry/src/lib.rs:504-532 | the audit finds nothing for any owner in any reachable state |
| Registry.RunNames | contracts/registry/src/lib.rs:285-292 | every entry of every run has an accepted name, so the grammar check of `resolve` never decides |
| RegistryContract.Contract.Invariant | contracts/registry/src/lib.rs:224-632 | after any calls an object has received, owner index, locks and dates are right |
| Registry.StepFrame | contracts/registry/src/lib.rs:327-632 | a call touches only the name it is about, and takes a name from its owner only in the four permitted ways |
| Registry.OwnershipSafety | contracts/registry/src/lib.rs:224-564 | if an owner changed or a name vanished over a run, the very step that took the name from the owner it had was the owner's transfer while active, the owner's burn, the NFT contract's update while active, or carried a clock past the grace end |
| Registry.StrangerBurnsIff | contracts/registry/src/lib.rs:534-564 | the clock is the caller's argument: somebody else can burn a name at some clock iff neither its grace period nor its lock lasts to the end of time |
| Registry.LockFreezes | contracts/registry/src/lib.rs:745-757 | while a lock is neither replaced nor removed and clocks stay within it, the entry is unchanged over every run |
| RegistryLaws.LockSucceedsIff | contracts/registry/src/lib.rs:566-606 | locking succeeds iff the authorized caller is the dispute administrator, the name is accepted and registered, and the end is not past |
| RegistryLaws.UnlockSucceedsIff | contracts/registry/src/lib.rs:608-632 | unlocking succeeds iff the authorized caller is the dispute administrator and the accepted name has a lock |
| RegistryLaws.LockHolds | contracts/registry/src/lib.rs:566-606 | after a successful lock, over every run that respects it, the entry is what it was and the lock covers exactly the clocks up to the given end |
| RegistryLaws.LockCallsTouchLocksOnly | contracts/registry/src/lib.rs:566-632 | locking and unlocking change the lock of their name and nothing else; none is left after unlocking |
| RegistryLaws.StandingLockRefuses | contracts/registry/src/lib.rs:745-757 | a lock that covers the clock refuses every call on the name but a lock or unlock |
| RegistryLaws.ElapsedLockRefusesNothing | contracts/registry/src/lib.rs:745-757 | an elapsed lock changes no outcome |
| RegistryLaws.SuccessDropsLock | contracts/registry/src/lib.rs:745-757 | a successful call leaves no lock on its name and every other lock and setting as it was |
| RegistryLaws.TransferSucceedsIff | contracts/registry/src/lib.rs:327-361 | a transfer succeeds iff the authorized caller owns the active, unlocked name |
| RegistryLaws.UpdateOwnerSucceedsIff | contracts/registry/src/lib.rs:415-453 | the NFT contract's update succeeds iff the authorized caller is that contract and the name is active and unlocked |
| RegistryLaws.MoveHandsOver | contracts/registry/src/lib.rs:327-453 | after either the new owner has the name and alone lists it, the count is one higher, and the rest of the entry and every other name are unchanged |
| RegistryLaws.OnlyNewOwnerMovesOn | contracts/registry/src/lib.rs:327-361 | the next transfer succeeds for exactly the new owner |
| RegistryLaws.RegisterSucceedsIff | contracts/registry/src/lib.rs:224-283 | a registration succeeds iff authorized, accepted, unlocked, with fitting metadata and ordered dates, and the name is free or claimable |
| RegistryLaws.RegisterGives | contracts/registry/src/lib.rs:224-283 | a registered name has exactly the given owner, dates and data, its owner alone lists it, and every other name is unchanged |
| RegistryLaws.RenewSucceedsIff | contracts/registry/src/lib.rs:458-495 | a renewal succeeds iff the authorized owner makes it before the name is claimable, unlocked, with ordered dates that do not move back |
| RegistryLaws.BurnSucceedsIff | contracts/registry/src/lib.rs:534-564 | a burn succeeds iff authorized, unlocked, and by the owner or past the grace end |
| RegistryLaws.BurnLeavesNothing | contracts/registry/src/lib.rs:534-564 | a burned name has no entry, no lock and is in no list; every other name is unchanged |
| RegistryLaws.SettersSucceedIff | contracts/registry/src/lib.rs:363-413 | resolver, target and metadata can be set iff the authorized caller owns the active, unlocked name, the metadata fits and the resolver is an address |
| RegistryLaws.RewritesExactly | contracts/registry/src/lib.rs:363-495 | each of them writes its own field, a renewal the two dates, and nothing else |
| RegistryLaws.StepKeepsAdministrator | contracts/registry/src/lib.rs:128-175 | nobody replaces the administrator and only he replaces the dispute administrator |
| RegistryLaws.NameStateIff | contracts/registry/src/lib.rs:298-325 | a name is missing, active or claimable exactly by its entry and the clock |
| RegistryLaws.AuditFinds | contracts/registry/src/lib.rs:512-532 | in any state the audit reports exactly the listed names that are missing or someone else's |
| RegistryLaws.ErrorsAreTrue | contracts/registry/src/lib.rs:224-632 | every error is given only for its own reason |
| RegistryContract.Contract.Register | contracts/registry/src/lib.rs:224-283 | entry and index updated in place, undone when a nested call fails |
| RegistryContract.Contract.Transfer | contracts/registry/src/lib.rs:327-361 | owner, count and both owner lists updated, undone when a nested call fails |
| RegistryContract.Contract.SetMetadata | contracts/registry/src/lib.rs:398-413 | length checked after the lock and before the owner, only the metadata changes |
| RegistryContract.Contract.UpdateOwner | contracts/registry/src/lib.rs:415-453 | only the configured NFT contract moves an active, unlocked name |
| RegistryContract.Contract.Renew | contracts/registry/src/lib.rs:458-495 | dates extended for the owner until the grace end, never backwards, undone when the sync fails |
| RegistryContract.Contract.Burn | contracts/registry/src/lib.rs:534-564 | entry and index entry removed for the owner, or for anybody once claimable |
| RegistryContract.Contract.RemoveOwnerName | contracts/registry/src/lib.rs:780-796 | the filter loop drops the name and keeps the others in order |
| RegistryContract.Contract.Audit | contracts/registry/src/lib.rs:512-532 | the loop returns exactly the indexed names whose entry is missing or someone else's, and none whatever was called before |
| Registrar.ExtendIsRenew | contracts/registrar/src/lib.rs:760-855 | where extending succeeds it equals renewing, and it succeeds on exactly the renewals made after the expiry |
| Registrar.RegistrationCharges | contracts/registrar/src/lib.rs:979-994 | the fee is the exact tier times years, never saturated, within the caller's limit, recorded and credited; the expiry is the clock plus whole years, capped |
| Registrar.QuoteMatchesRenewal | contracts/registrar/src/lib.rs:316-351 | a renewal quote gives the exact fee threshold and the exact new dates |
| RegistrarLaws.RegisterSucceedsIff | contracts/registrar/src/lib.rs:360-477 | a registration passes iff authorized, with a valid unreserved label, 1 to 10 years, within the rate limit or whitelisted, the fee within the limit given, the name free or claimable, and a registry set |
| RegistrarLaws.RegisterWrites | contracts/registrar/src/lib.rs:405-460 | it writes exactly the record with its dates and fee, one more in the owner's window, the fee in the treasury and one more registration, and sends the same dates on |
| RegistrarLaws.RenewSucceedsIff | contracts/registrar/src/lib.rs:480-561 | a renewal passes iff authorized, by the recorded owner, for 1 to 10 years, before the grace end, and paying at least the tier times the years |
| RegistrarLaws.RenewWrites | contracts/registrar/src/lib.rs:512-575 | renewal and extension add the payment to the record and to the treasury, extend from the later of expiry and clock, count one more renewal, and write nothing else |
| RegistrarLaws.QuoteIs | contracts/registrar/src/lib.rs:316-351 | a renewal quote is the tier times the years and the dates the renewal would give |
| RegistrarLaws.StatusIff | contracts/registrar/src/lib.rs:625-657 | the status of an unreserved label is decided by its record and the clock |
| RegistrarLaws.AdministrationSucceedsIff | contracts/registrar/src/lib.rs:235-897 | settings succeed iff the administrator has authorized them and the value is admissible |
| RegistrarLaws.SettingsWrite | contracts/registrar/src/lib.rs:683-897 | each setting changes its own field by its own argument |
| RegistrarLaws.ReservingAdds | contracts/registrar/src/lib.rs:235-298 | reserving adds exactly the valid labels |
| RegistrarLaws.TreasuryIsCollected | contracts/registrar/src/lib.rs:521-533 | over every run of the system the treasury has grown by the fees and payments of all committed requests, up to its capacity |
| RegistrarLaws.CountersCount | contracts/registrar/src/lib.rs:425-440 | over every run the two counters have counted the committed registrations and renewals |
| RegistrarLaws.WindowsCount | contracts/registrar/src/lib.rs:956-977 | over every run a rate window has counted exactly the committed registrations that fall into it |
| RegistrarLaws.RateLimitHolds | contracts/registrar/src/lib.rs:917-954 | in every run whoever is not whitelisted and has used up the limit in a window is refused |
| RegistrarLaws.ErrorsAreTrue | contracts/registrar/src/lib.rs:360-561 | a request is turned down only for its own reason, never for an expired quote |
| RegistrarContract.Contract.Register | contracts/registrar/src/lib.rs:360-477 | record, window counter, treasury and count written and the registry called, or both contracts unchanged |
| RegistrarContract.Contract.Renew | contracts/registrar/src/lib.rs:480-575 | record, treasury and count updated and the registry called, or both contracts unchanged |
| RegistrarContract.Contract.ExtendDuringGrace | contracts/registrar/src/lib.rs:760-855 | the same for a name past its expiry and within its grace period |
| RegistrarContract.ReserveAll | contracts/registrar/src/lib.rs:261-298 | the manifest loop reserves exactly the valid labels and counts those that were new |
| NameService.RequestIsSound | contracts/registrar/src/lib.rs:360-561 | a request that passes the registrar's checks writes the dates it sends, names an accepted name and never moves the dates backwards |
| NameService.RunKeepsAgreement | contracts/registrar/src/lib.rs:360-575 | in every run without direct registry registration, renewal or burn, registrar and registry hold the same names with the same three dates |
| NameService.StatusesAgree | contracts/registrar/src/lib.rs:625-657 | `registration_status` and `name_state` agree at every clock, reserved labels aside |
| NameService.NestedFailsIff | contracts/registry/src/lib.rs:241-361 | with a mirroring NFT contract a registry call's nested calls fail iff a resolver refuses during a transfer; no mint, burn or sync fails |
| NameService.RegistryPointerBlocksMint | contracts/nft/src/lib.rs:174-187 | with the NFT contract's registry pointer set no registration gets through, because minting calls back into the registry |
| NameService.RunKeepsMirror | contracts/nft/src/lib.rs:370-429 | in every run token ids, owners and expiries equal those of the registry |
| NameService.HandoffAccepted | contracts/registry/src/lib.rs:458-495 | whatever passes the registrar's checks passes the registry's and the NFT's |
| NameService.NoRejectedHandoff | contracts/registrar/src/lib.rs:501-561 | in registrar-only runs a request commits in all three contracts iff the registrar accepts it, whatever grace periods are set in between |
| NameService.RunKeepsRegistrar | contracts/registrar/src/lib.rs:726-748 | in every run, whatever is called, the grace period stays between a day and a year and every record has a label and ordered dates with at most a year of grace |
| NameService.RefusedIff | contracts/registry/src/lib.rs:458-495 | in every run without direct registry registration, renewal or burn, a request that passes the registrar is refused by the registry iff a standing lock covers the clock, or it is a renewal and the registry's owner is not the caller; without an NFT contract, or with one deployed before the first registration, that decides the whole request, nested calls included |
| NameService.RenewableIff | contracts/registrar/src/lib.rs:480-575 | in the same runs some call renews a name in all contracts at a given clock iff it is recorded, not claimable, not locked, both contracts name the same owner, and a configured NFT contract has an administrator and the token |
| NameService.DeployedRenewableIff | contracts/registrar/src/lib.rs:480-575 | with the NFT contract deployed before the first registration the last condition always holds |
| NameService.LateNftEndsRenewal | contracts/registry/src/lib.rs:490-492 | in the state after the NFT contract is configured, no call renews a name it has no token for |
| NameService.TransferEndsRenewal | contracts/registry/src/lib.rs:327-361 | in the state after a registry transfer to somebody else no call by anybody renews the name, at any clock: the registrar asks for the old owner, the registry for the new one |
| Subdomain.RunKeepsInv | contracts/subdomain/src/lib.rs:157-447 | in every run records, parent lists and owner lists are duplicate-free views of one relation and no record is orphaned |
| Subdomain.PurgeIsExact | contracts/subdomain/src/lib.rs:504-529 | a purge removes exactly one parent's namespace from all three views and touches nothing else |
| Subdomain.RecordSafety | contracts/subdomain/src/lib.rs:325-447 | over any run the very step that changed or removed a record was a transfer or deletion by its owner, a deletion by its parent's owner or a controller, or a purge with an expired or taken-over parent |
| Subdomain.StepIsAuthorized | contracts/subdomain/src/lib.rs:254-418 | a record appears only through a creation by the parent's owner on file here or a controller, under an active parent, within the depth limit |
| Subdomain.RecordedOwnerDecides | contracts/subdomain/src/lib.rs:254-282 | under an active parent somebody who is neither the registry's owner nor a controller can create iff the registry names another owner than the one on file, who is no controller; the registry's owner can iff the file agrees or lists him |
| Subdomain.TakeoverHandsOver | contracts/subdomain/src/lib.rs:157-202 | once the registry's owner registers the parent again he alone can create, in an empty namespace |
| Subdomain.FormerOwnerStillCreates | contracts/subdomain/src/lib.rs:254-282 | a reachable instance: after a registry transfer the former owner can create and the new one cannot |
| Subdomain.DeleteIsRevoke | contracts/subdomain/src/lib.rs:356-418 | in every reachable state `delete` and `revoke` give the same result, errors included, and the same state |
| Subdomain.DepthCountsLabels | contracts/subdomain/src/lib.rs:283-294 | the depth counted byte by byte is the number of labels between dots |
| SubdomainLaws.CreateSucceedsIff | contracts/subdomain/src/lib.rs:254-323 | creating succeeds iff authorized, by the parent's owner on file or a controller, under an active parent, within depth and buffer limits, for a free name |
| SubdomainLaws.CreateGives | contracts/subdomain/src/lib.rs:254-323 | the record has the given parent, owner and time, is listed by both and by nobody else, and nothing else changes |
| SubdomainLaws.TransferSucceedsIff | contracts/subdomain/src/lib.rs:325-354 | a transfer succeeds iff the authorized caller owns a record of an active parent |
| SubdomainLaws.TransferHandsOver | contracts/subdomain/src/lib.rs:325-354 | the new owner has the record and alone lists it; its parent and time, every other record and every parent are unchanged |
| SubdomainLaws.OnlyNewOwnerMovesOn | contracts/subdomain/src/lib.rs:325-354 | the next transfer succeeds for exactly the new owner |
| SubdomainLaws.DeleteSucceedsIff | contracts/subdomain/src/lib.rs:356-418 | deleting and revoking succeed iff authorized, under an active parent, by the owner, the parent's owner or a controller |
| SubdomainLaws.DeleteLeavesNothing | contracts/subdomain/src/lib.rs:356-418 | a deleted record is in no list and every other record is unchanged |
| SubdomainLaws.RegisterParentSucceedsIff | contracts/subdomain/src/lib.rs:157-202 | registering a parent succeeds iff authorized, for a base name, which is free, or with a registry is held by the caller and not already on file for him |
| SubdomainLaws.RegisterParentGives | contracts/subdomain/src/lib.rs:157-202 | the parent belongs to its owner without controllers, its namespace is empty, and every other parent and record is unchanged |
| SubdomainLaws.QueriesPurgeIff | contracts/subdomain/src/lib.rs:420-502 | a query clears the namespace of the parent it looks at iff that parent is not active, and otherwise changes nothing |
| SubdomainLaws.ControllersSucceedIff | contracts/subdomain/src/lib.rs:204-252 | controllers are added and removed iff the authorized caller is the owner on file of an active parent |
| SubdomainLaws.ControllersChange | contracts/subdomain/src/lib.rs:204-252 | exactly the given address becomes or ceases to be a controller |
| SubdomainLaws.RunKeepsControllersDistinct | contracts/subdomain/src/lib.rs:204-252 | in every run no controller is listed twice, so a removed one has no say left |
| SubdomainLaws.ErrorsAreTrue | contracts/subdomain/src/lib.rs:157-418 | every error is given only for its own reason |
| SubdomainContract.PurgingStep | contracts/subdomain/src/lib.rs:506-514 | purging the next name of the list read before the loop is one step, although the stored list shrinks meanwhile |
| SubdomainContract.PurgingEnds | contracts/subdomain/src/lib.rs:504-521 | what the whole walk leaves is the purge of the namespace |
| SubdomainContract.Contract.PurgeParentNamespace | contracts/subdomain/src/lib.rs:504-521 | the loop that edits the lists it walks performs exactly the purge |
| SubdomainContract.Contract.EnsureParentIsActive | contracts/subdomain/src/lib.rs:484-502 | an inactive parent is purged, an active one untouched |
| SubdomainContract.Contract.RegisterParent | contracts/subdomain/src/lib.rs:157-202 | a takeover starts from a purged namespace; the purge before an error does not persist |
| SubdomainContract.Contract.Create | contracts/subdomain/src/lib.rs:254-323 | the record is filed in all three places under label, dot and parent, within depth and buffer limits |
| SubdomainContract.Contract.LabelDepth | contracts/subdomain/src/lib.rs:284-289 | the byte loop returns the number of labels |
| SubdomainContract.Contract.Transfer | contracts/subdomain/src/lib.rs:325-354 | owner and owner lists change together, no trace of a purge on an error |
| SubdomainContract.Contract.Delete | contracts/subdomain/src/lib.rs:356-380 | record and both list entries removed for the owner, the parent's owner or a controller |
| SubdomainContract.Contract.Revoke | contracts/subdomain/src/lib.rs:388-418 | the same for revocation |
| SubdomainContract.Contract.RecordOf | contracts/subdomain/src/lib.rs:431-447 | answers a record of an active parent, otherwise the namespace is gone and the second purge does nothing |
| SubdomainContract.Contract.SubdomainsForParent | contracts/subdomain/src/lib.rs:449-454 | exactly the records of an active parent, without duplicates |
| Resolver.PointKeepsSound | contracts/resolver/src/lib.rs:260-303 | re-pointing an address keeps reverse and primary entries backed by forward records |
| Resolver.ApplyAllKeepsSound | contracts/resolver/src/lib.rs:650-716 | every iteration of the batch loop keeps the tables sound for the record in hand |
| Resolver.RunKeepsSound | contracts/resolver/src/lib.rs:234-507 | in every run a name found for an address has a forward record with that default-chain address |
| Resolver.OnlyOwnershipDiscards | contracts/resolver/src/lib.rs:881-916 | in every reachable state `reverse` answers the primary name if its record's owner is current, else the reverse name if its is, and removes exactly the consulted entries whose owner is not |
| ResolverLaws.ReverseIs | contracts/resolver/src/lib.rs:545-569 | the answer spelled out: the primary name, else the reverse name, whose record's owner is the one on file in the registry and not expired at ledger time; any record without a registry |
| Resolver.TransferHidesName | contracts/resolver/src/lib.rs:897-912 | after a registry transfer no look-up finds the name, from any address and at any time, unless the record's owner is the new one |
| Resolver.SetRecordRoundTrip | contracts/resolver/src/lib.rs:234-322 | after `set_record` a look-up of the address at any later time answers its current primary name, else the name iff its owner is then the registry's; no other address finds the name |
| Resolver.SetAddressRoundTrip | contracts/resolver/src/lib.rs:326-374 | the same after a change of the default-chain address, for the owner the record already names |
| Resolver.OtherDataLeavesLookUps | contracts/resolver/src/lib.rs:384-419 | text records and addresses on other chains change no look-up of any address |
| Resolver.SetPrimaryRoundTrip | contracts/resolver/src/lib.rs:422-450 | after `set_primary_name` a look-up at any later time answers the name iff the owner the record names is then the registry's |
| Resolver.RemovalLeavesNoTrace | contracts/resolver/src/lib.rs:453-483 | after a removal no address finds the name, whatever the registry says later, and every other address finds what it found before |
| Resolver.ClearingForgets | contracts/resolver/src/lib.rs:489-507 | after `clear_reverse_record` the previous owner's address does not find the name and every other address finds what it found before |
| Resolver.ReverseIdempotent | contracts/resolver/src/lib.rs:545-569 | a second look-up gives the same answer and changes nothing |
| Resolver.BatchRefinesSingles | contracts/resolver/src/lib.rs:630-723 | a batch equals its operations in sequence with failures ignored, time stamp aside, counts the successes, and is identical when anything succeeds |
| Resolver.RecordSafety | contracts/resolver/src/lib.rs:733-772 | over any run the very step that changed a forward record was an authorized call by the owner the registry names at the clock the call asks with (0, or the caller's choice; without a registry, by the record's owner), or the record owner's own `transfer_record_owner`, which asks no registry |
| Resolver.UnruledIff | contracts/resolver/src/lib.rs:733-772 | with a registry a changing step is not by the registry's owner at ledger time iff it is a `transfer_record_owner` by somebody the registry does not name then, or any other write to a name that has expired, by its last holder |
| Resolver.PassingOnIsAll | contracts/resolver/src/lib.rs:571-585 | `transfer_record_owner` goes by the record alone and changes nothing but its owner |
| Resolver.StaleOwnerPassesRecordOn | contracts/resolver/src/lib.rs:571-585 | a reachable instance: after a registry transfer the former owner still hands the record to a third address |
| Resolver.ExpiredHolderStillWrites | contracts/resolver/src/lib.rs:453-520 | a reachable instance: the holder of an expired name passes its record on or removes it, because these calls ask the registry at clock 0 |
| Resolver.RunKeepsBoundsAndNames | contracts/resolver/src/lib.rs:384-419 | in every run a record has at most 16 text records, valid keys and values of at most 256 bytes, and belongs to an accepted name |
| ResolverLaws.SetRecordSucceedsIff | contracts/resolver/src/lib.rs:234-262 | `set_record` succeeds iff authorized, for an accepted name, by the registry's owner at the given clock, or without a registry by the record's owner or for a new name |
| ResolverLaws.RecordWritesSucceedIff | contracts/resolver/src/lib.rs:326-723 | address, text and batch writes succeed iff the record exists, its owner at the given clock has authorized them, and key, value, count and size are within bounds |
| ResolverLaws.OwnerCallsSucceedIff | contracts/resolver/src/lib.rs:422-585 | primary name, removal and owner update are decided at clock 0, passing a record on by the record alone |
| ResolverLaws.SetRecordKeepsRest | contracts/resolver/src/lib.rs:264-303 | `set_record` replaces owner, default-chain address and time, and keeps every other address and all text records |
| ResolverLaws.SetAddressWrites | contracts/resolver/src/lib.rs:326-374 | one address on the given chain changes |
| ResolverLaws.SetTextWrites | contracts/resolver/src/lib.rs:384-419 | one text record changes |
| ResolverLaws.OwnerAndRemovalWrite | contracts/resolver/src/lib.rs:453-585 | the owner calls change the owner alone, removal the record and its wildcard setting |
| ResolverLaws.PointingChangesTwoAddresses | contracts/resolver/src/lib.rs:260-303 | pointing an address at a name sets its reverse entry, drops both entries of the address the name had, and keeps all others |
| ResolverLaws.PrimaryIsSet | contracts/resolver/src/lib.rs:422-450 | one primary entry changes |
| ResolverLaws.RemovalDropsItsAddress | contracts/resolver/src/lib.rs:453-483 | removal drops the entries of the record's own address and no others |
| ResolverLaws.ClearingDrops | contracts/resolver/src/lib.rs:489-507 | the registry's clean-up drops the previous owner's entries that name this name and no others |
| ResolverLaws.WildcardIsSet | contracts/resolver/src/lib.rs:596-612 | the switch sets the flag of its name as told and nothing else |
| ResolverLaws.ErrorsAreTrue | contracts/resolver/src/lib.rs:234-723 | every error is given only for its own reason |
| Resolver.AnyoneSwitchesWildcards | contracts/resolver/src/lib.rs:596-612 | no authorization is asked for and the clock is an argument: some caller and clock switch the wildcard setting of a name iff it is an accepted name with a record and, if a registry is set, an entry there, expired or not |
| ResolverContract.Contract.Invariant | contracts/resolver/src/lib.rs:234-723 | after any calls an object has received, tables are backed, text records bounded and names accepted |
| Fallback.ResolveWithFallback | contracts/resolver/src/lib.rs:788-822 | the loop terminates and answers iff the nearest ancestor with a record, within the hop limit, exists and allows wildcards; flagged wildcard iff a label was dropped |
| Fallback.ParentIsNextAncestor | contracts/resolver/src/lib.rs:824-844 | for every name the parent drops exactly the leading label and is shorter; it is absent exactly at the last label, beyond 256 bytes, or when nothing follows the dot |
| Fallback.AnswerUnique | contracts/resolver/src/lib.rs:797-821 | there is at most one answer |
| Fallback.NeverFromTld | contracts/resolver/src/lib.rs:788-822 | in every reachable state no name is answered from the bare TLD |
| ResolverContract.CheckKey | contracts/resolver/src/lib.rs:936-953 | the byte loop accepts exactly the keys of 1 to 64 allowed bytes |
| ResolverContract.Contract.Reverse | contracts/resolver/src/lib.rs:545-569 | the look-up with its address and owner checks answers and removes by ownership alone, after any calls |
| ResolverContract.Contract.BatchSet | contracts/resolver/src/lib.rs:630-723 | the loop over the record in hand commits the batch and counts the successes, or nothing changes |
| ResolverContract.Contract.Resolve | contracts/resolver/src/lib.rs:524-529 | the record of the nearest ancestor with the flag of this resolution |

## Left out

- CLI, SDK client, monitor, scripts, error tables: input and output only.
- The bridge contract: a small map and list pair.
- `upgrade`, `migrate`, version getters, events and TTL extension: no effect on the modelled state.
- The Soroban host itself: authorization trees, ledger expiry and its own ban on reentrancy; a call back into the registry during `mint` is taken to be refused.
- The i128 upper bound of token balances: balances are unbounded natural numbers.
- NFT name data and metadata (`refresh_name_data`, `metadata`): a copy of registry fields that no other operation reads.
- NFT-to-registry synchronisation: the argument list the NFT sends to `update_owner` does not fit the registry's, so its outcome is an argument and direct token transfers stay out of the mirror theorem.
- Owner equality of registrar and registry after a registry transfer: the registrar record keeps the old owner, so agreement is on dates.
- A bound on registrations per 24 hours: the counter is keyed by the exact value of clock minus window, so what is bounded are the registrations with the same value (`RegistrarLaws.RateLimitHolds`).
- Completeness of the reverse table: two names may share an address and one leaving removes the shared entry.
- `auction_names`, `active_auctions`, `settled_auctions`, `batch_resolve`, `batch_reverse`, `resolve` and `check_owner` of the registry: bounded or repeated forms of operations that are modelled.
- Class methods for the remaining administrator setters of the registrar (rate limit, whitelist, single reserved label): they write one field; the rules are in the outcome functions and part of every run.
- `is_valid` of the reference bid also rejects a blank bidder string; addresses are never blank, so only the amount is checked.
- UTF-8 validity in `parent_name`: names reaching it are ASCII.
