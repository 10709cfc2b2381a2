/**
 The NFT contract: a token record per name, one global list of token ids and one list per
 owner, both kept by hand.
 */
module Nft {
  import opened Common
  import Index

  datatype Token = Token(owner: Address, approved: Option<Address>, metadataUri: Option<Str>, expiresAt: U64)

  /** `Trap` stands for a failed authorization or a failed nested call. */
  datatype Error = AlreadyMinted | NotFound | Unauthorized | NotInitialized | Trap

  datatype State = State(
    admin: Option<Address>,
    registry: Option<Address>,
    tokens: map<Str, Token>,
    ids: seq<Str>,
    owned: Index.Lists<Address, Str>)

  const Fresh := State(None, None, map[], [], map[])

  // ----- entry points -----

  function Initialize(s: State, admin: Address): Result<State, Error> {
    if s.admin.Some? then Err(AlreadyMinted) else Ok(s.(admin := Some(admin)))
  }

  function SetRegistry(s: State, auth: set<Address>, admin: Address, registry: Address): Result<State, Error> {
    if s.admin.None? then Err(NotInitialized)
    else if s.admin.value != admin then Err(Unauthorized)
    else if admin !in auth then Err(Trap)
    else Ok(s.(registry := Some(registry)))
  }

  /** The administrator's authorization, as demanded by mint, burn and the sync calls. */
  function AdminCheck(s: State, auth: set<Address>): Result<(), Error> {
    if s.admin.None? then Err(Unauthorized)
    else if s.admin.value !in auth then Err(Trap)
    else Ok(())
  }

  /** With a registry pointer set, minting and transferring also call the registry;
      `registryAnswers` says whether that call returned. */
  function Mint(s: State, auth: set<Address>, id: Str, owner: Address, uri: Option<Str>, expiresAt: U64,
                registryAnswers: bool): Result<State, Error> {
    match AdminCheck(s, auth)
    case Err(e) => Err(e)
    case Ok(_) =>
      if id in s.tokens then Err(AlreadyMinted)
      else if s.registry.Some? && !registryAnswers then Err(Trap)
      else Ok(s.(tokens := s.tokens[id := Token(owner, None, uri, expiresAt)],
                 ids := s.ids + [id],
                 owned := Index.Add(s.owned, owner, id)))
  }

  function Approve(s: State, id: Str, caller: Address, approved: Option<Address>): Result<State, Error> {
    if id !in s.tokens then Err(NotFound)
    else if s.tokens[id].owner != caller then Err(Unauthorized)
    else Ok(s.(tokens := s.tokens[id := s.tokens[id].(approved := approved)]))
  }

  function Reindex(owned: Index.Lists<Address, Str>, from: Address, to: Address, id: Str): Index.Lists<Address, Str> {
    if from == to then owned else Index.Add(Index.Remove(owned, from, id), to, id)
  }

  function MoveToken(s: State, id: Str, to: Address, approved: Option<Address>): State
    requires id in s.tokens
  {
    s.(tokens := s.tokens[id := s.tokens[id].(owner := to, approved := approved)],
       owned := Reindex(s.owned, s.tokens[id].owner, to, id))
  }

  /** Callers of `approve` and the two transfers are arguments; no authorization is asked for. */
  function Transfer(s: State, id: Str, caller: Address, to: Address, registryAnswers: bool): Result<State, Error> {
    if id !in s.tokens then Err(NotFound)
    else if s.tokens[id].owner != caller && s.tokens[id].approved != Some(caller) then Err(Unauthorized)
    else if s.registry.Some? && !registryAnswers then Err(Trap)
    else Ok(MoveToken(s, id, to, None))
  }

  function TransferFrom(s: State, spender: Address, owner: Address, to: Address, id: Str, registryAnswers: bool)
    : Result<State, Error>
  {
    if id !in s.tokens then Err(NotFound)
    else if s.tokens[id].owner != owner || s.tokens[id].approved != Some(spender) then Err(Unauthorized)
    else if s.registry.Some? && !registryAnswers then Err(Trap)
    else Ok(MoveToken(s, id, to, None))
  }

  function Burn(s: State, auth: set<Address>, id: Str): Result<State, Error> {
    match AdminCheck(s, auth)
    case Err(e) => Err(e)
    case Ok(_) =>
      if id !in s.tokens then Err(NotFound)
      else Ok(s.(tokens := s.tokens - {id},
                 ids := WithoutFirst(s.ids, id),
                 owned := Index.Remove(s.owned, s.tokens[id].owner, id)))
  }

  function SyncExpiry(s: State, auth: set<Address>, id: Str, expiresAt: U64): Result<State, Error> {
    match AdminCheck(s, auth)
    case Err(e) => Err(e)
    case Ok(_) =>
      if id !in s.tokens then Err(NotFound)
      else Ok(s.(tokens := s.tokens[id := s.tokens[id].(expiresAt := expiresAt)]))
  }

  function SyncOwner(s: State, auth: set<Address>, id: Str, to: Address): Result<State, Error> {
    match AdminCheck(s, auth)
    case Err(e) => Err(e)
    case Ok(_) =>
      if id !in s.tokens then Err(NotFound)
      else Ok(MoveToken(s, id, to, s.tokens[id].approved))
  }

  // ----- callers nobody vouches for -----

  predicate Delivers(s: State, o: Result<State, Error>, id: Str, to: Address) {
    id in s.tokens && o.Ok? && id in o.value.tokens && o.value.tokens[id].owner == to
  }

  /** `transfer` compares its caller with the owner but never asks for the caller's
      authorization. So a call that carries none can take any token to any address, in every
      state, as long as no registry is set or the registry call returns. */
  lemma AnyoneMovesAnyToken(s: State, id: Str, to: Address, answers: bool)
    ensures (exists caller :: Delivers(s, Transfer(s, id, caller, to, answers), id, to)) <==>
            id in s.tokens && (s.registry == None || answers)
  {
    if id in s.tokens && (s.registry == None || answers) {
      assert Delivers(s, Transfer(s, id, s.tokens[id].owner, to, answers), id, to);
    }
  }

  // ----- runs -----

  datatype Call =
    | InitCall(admin: Address)
    | SetRegistryCall(auth: set<Address>, admin: Address, registry: Address)
    | MintCall(auth: set<Address>, id: Str, owner: Address, uri: Option<Str>, expiresAt: U64, answers: bool)
    | ApproveCall(id: Str, caller: Address, approved: Option<Address>)
    | TransferCall(id: Str, caller: Address, to: Address, answers: bool)
    | TransferFromCall(spender: Address, owner: Address, to: Address, id: Str, answers: bool)
    | BurnCall(auth: set<Address>, id: Str)
    | SyncExpiryCall(auth: set<Address>, id: Str, expiresAt: U64)
    | SyncOwnerCall(auth: set<Address>, id: Str, to: Address)

  function Outcome(s: State, c: Call): Result<State, Error> {
    match c
    case InitCall(admin) => Initialize(s, admin)
    case SetRegistryCall(auth, admin, registry) => SetRegistry(s, auth, admin, registry)
    case MintCall(auth, id, owner, uri, expiresAt, answers) => Mint(s, auth, id, owner, uri, expiresAt, answers)
    case ApproveCall(id, caller, approved) => Approve(s, id, caller, approved)
    case TransferCall(id, caller, to, answers) => Transfer(s, id, caller, to, answers)
    case TransferFromCall(spender, owner, to, id, answers) => TransferFrom(s, spender, owner, to, id, answers)
    case BurnCall(auth, id) => Burn(s, auth, id)
    case SyncExpiryCall(auth, id, expiresAt) => SyncExpiry(s, auth, id, expiresAt)
    case SyncOwnerCall(auth, id, to) => SyncOwner(s, auth, id, to)
  }

  function Run(s: State, calls: seq<Call>): State {
    if calls == [] then s
    else
      var before := Run(s, calls[..|calls| - 1]);
      Commit(before, Outcome(before, calls[|calls| - 1]))
  }

  lemma RunStep(calls: seq<Call>, c: Call)
    ensures Run(Fresh, calls + [c]) == Commit(Run(Fresh, calls), Outcome(Run(Fresh, calls), c))
  {
    assert (calls + [c])[..|calls|] == calls;
  }

  // ----- enumeration -----

  function OwnerOf(tokens: map<Str, Token>): map<Str, Address> {
    map id | id in tokens :: tokens[id].owner
  }

  /** The global list is a duplicate-free listing of all tokens, each owner list a
      duplicate-free listing of exactly that owner's tokens. */
  ghost predicate Enumerated(s: State) {
    && Distinct(s.ids)
    && Elements(s.ids) == s.tokens.Keys
    && Index.Views(s.owned, OwnerOf(s.tokens))
  }

  lemma MintEnumerates(s: State, auth: set<Address>, id: Str, owner: Address, uri: Option<Str>, expiresAt: U64,
                       answers: bool)
    requires Enumerated(s) && Mint(s, auth, id, owner, uri, expiresAt, answers).Ok?
    ensures Enumerated(Mint(s, auth, id, owner, uri, expiresAt, answers).value)
  {
    var t := Mint(s, auth, id, owner, uri, expiresAt, answers).value;
    assert id !in Elements(s.ids);
    Index.AddViews(s.owned, OwnerOf(s.tokens), owner, id);
    assert OwnerOf(t.tokens) == OwnerOf(s.tokens)[id := owner];
  }

  lemma MoveEnumerates(s: State, id: Str, to: Address, approved: Option<Address>)
    requires Enumerated(s) && id in s.tokens
    ensures Enumerated(MoveToken(s, id, to, approved))
  {
    var t := MoveToken(s, id, to, approved);
    assert OwnerOf(t.tokens) == OwnerOf(s.tokens)[id := to];
    if s.tokens[id].owner == to {
      assert OwnerOf(t.tokens) == OwnerOf(s.tokens);
    } else {
      Index.MoveViews(s.owned, OwnerOf(s.tokens), s.tokens[id].owner, to, id);
    }
  }

  lemma BurnEnumerates(s: State, auth: set<Address>, id: Str)
    requires Enumerated(s) && Burn(s, auth, id).Ok?
    ensures Enumerated(Burn(s, auth, id).value)
  {
    var t := Burn(s, auth, id).value;
    Index.RemoveViews(s.owned, OwnerOf(s.tokens), s.tokens[id].owner, id);
    assert OwnerOf(t.tokens) == OwnerOf(s.tokens) - {id};
    WithoutFirstLists(s.ids, id);
  }

  lemma WithoutFirstLists(ids: seq<Str>, id: Str)
    requires Distinct(ids)
    ensures Distinct(WithoutFirst(ids, id)) && Elements(WithoutFirst(ids, id)) == Elements(ids) - {id}
  {
    WithoutFirstIsWithout(ids, id);
    FilterDistinct(ids, Not(id));
    FilterMembers(ids, Not(id));
  }

  lemma RecordOnlyEnumerates(s: State, t: State)
    requires Enumerated(s)
    requires t.ids == s.ids && t.owned == s.owned && OwnerOf(t.tokens) == OwnerOf(s.tokens)
    ensures Enumerated(t)
  {
    assert t.tokens.Keys == OwnerOf(t.tokens).Keys == s.tokens.Keys;
  }

  lemma OutcomeEnumerates(s: State, c: Call)
    requires Enumerated(s) && Outcome(s, c).Ok?
    ensures Enumerated(Outcome(s, c).value)
  {
    match c
    case MintCall(auth, id, owner, uri, expiresAt, answers) =>
      MintEnumerates(s, auth, id, owner, uri, expiresAt, answers);
    case TransferCall(id, caller, to, answers) => MoveEnumerates(s, id, to, None);
    case TransferFromCall(spender, owner, to, id, answers) => MoveEnumerates(s, id, to, None);
    case SyncOwnerCall(auth, id, to) => MoveEnumerates(s, id, to, s.tokens[id].approved);
    case BurnCall(auth, id) => BurnEnumerates(s, auth, id);
    case _ => RecordOnlyEnumerates(s, Outcome(s, c).value);
  }

  lemma {:induction false} RunEnumerates(calls: seq<Call>)
    ensures Enumerated(Run(Fresh, calls))
  {
    if calls == [] {
      assert OwnerOf(Fresh.tokens) == map[];
    } else {
      var before, last := Run(Fresh, calls[..|calls| - 1]), calls[|calls| - 1];
      RunEnumerates(calls[..|calls| - 1]);
      if Outcome(before, last).Ok? {
        OutcomeEnumerates(before, last);
      }
    }
  }

  /** In every reachable state the balances of all owners add up to the total supply. */
  lemma BalancesSumToSupply(calls: seq<Call>, owners: seq<Address>)
    requires Distinct(owners) && Run(Fresh, calls).owned.Keys <= Elements(owners)
    ensures Index.TotalLength(Run(Fresh, calls).owned, owners) == |Run(Fresh, calls).ids|
  {
    var s := Run(Fresh, calls);
    RunEnumerates(calls);
    DistinctCardinality(s.ids);
    Index.TotalLengthIsSize(s.owned, OwnerOf(s.tokens), owners);
    assert OwnerOf(s.tokens).Keys == s.tokens.Keys;
  }
}
