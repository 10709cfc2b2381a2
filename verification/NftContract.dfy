/**
 The NFT contract as it runs, its owner lists rebuilt by loops in place.
 */
module NftContract {
  import opened Common
  import opened Nft
  import Index

  class Contract {
    var admin: Option<Address>
    var registry: Option<Address>
    var tokens: map<Str, Token>
    var ids: seq<Str>
    var owned: Index.Lists<Address, Str>
    ghost var history: seq<Call>

    ghost function Storage(): State
      reads this
    {
      State(admin, registry, tokens, ids, owned)
    }

    /** Storage is what the calls made so far leave behind, so that whatever holds over every
        run holds of this object. */
    ghost predicate Valid()
      reads this
    {
      Storage() == Run(Fresh, history)
    }

    ghost method Log(c: Call)
      requires Valid()
      modifies `history
      ensures history == old(history) + [c] && Run(Fresh, history) == Commit(Storage(), Outcome(Storage(), c))
    {
      RunStep(history, c);
      history := history + [c];
    }

    constructor ()
      ensures Valid() && history == []
    {
      admin, registry, tokens, ids, owned, history := None, None, map[], [], map[], [];
    }

    /** Both enumerations are right whatever was called. */
    lemma Invariant()
      requires Valid()
      ensures Enumerated(Storage())
    {
      RunEnumerates(history);
    }

    method Initialize(admin: Address) returns (r: Result<(), Error>)
      requires Valid()
      modifies this
      ensures Did(old(Storage()), Storage(), Nft.Initialize(old(Storage()), admin), r)
      ensures Valid() && history == old(history) + [InitCall(admin)]
    {
      Log(InitCall(admin));
      if this.admin.Some? {
        return Err(AlreadyMinted);
      }
      this.admin := Some(admin);
      return Ok(());
    }

    method SetRegistry(auth: set<Address>, admin: Address, registry: Address) returns (r: Result<(), Error>)
      requires Valid()
      modifies this
      ensures Did(old(Storage()), Storage(), Nft.SetRegistry(old(Storage()), auth, admin, registry), r)
      ensures Valid() && history == old(history) + [SetRegistryCall(auth, admin, registry)]
    {
      Log(SetRegistryCall(auth, admin, registry));
      if this.admin.None? {
        return Err(NotInitialized);
      }
      if this.admin.value != admin {
        return Err(Unauthorized);
      }
      if admin !in auth {
        return Err(Trap);
      }
      this.registry := Some(registry);
      return Ok(());
    }

    method AddOwnerToken(owner: Address, id: Str)
      modifies `owned
      ensures owned == Index.Add(old(owned), owner, id)
    {
      var list := Index.Get(owned, owner);
      if id !in list {
        owned := owned[owner := list + [id]];
      }
    }

    method RemoveOwnerToken(owner: Address, id: Str)
      modifies `owned
      ensures owned == Index.Remove(old(owned), owner, id)
    {
      var list := Index.Get(owned, owner);
      var filtered := [];
      var i := 0;
      while i < |list|
        invariant 0 <= i <= |list| && owned == old(owned)
        invariant filtered == Without(list[..i], id)
      {
        FilterStep(list, Not(id), i);
        if list[i] != id {
          filtered := filtered + [list[i]];
        }
        i := i + 1;
      }
      assert list[..i] == list;
      owned := owned[owner := filtered];
    }

    method ReindexOwnerToken(from: Address, to: Address, id: Str)
      modifies `owned
      ensures owned == Reindex(old(owned), from, to, id)
    {
      if from == to {
        return;
      }
      RemoveOwnerToken(from, id);
      AddOwnerToken(to, id);
    }

    method Mint(auth: set<Address>, id: Str, owner: Address, uri: Option<Str>, expiresAt: U64, answers: bool)
      returns (r: Result<(), Error>)
      requires Valid()
      modifies this
      ensures Did(old(Storage()), Storage(), Nft.Mint(old(Storage()), auth, id, owner, uri, expiresAt, answers), r)
      ensures Valid() && history == old(history) + [MintCall(auth, id, owner, uri, expiresAt, answers)]
    {
      Log(MintCall(auth, id, owner, uri, expiresAt, answers));
      if admin.None? {
        return Err(Unauthorized);
      }
      if admin.value !in auth {
        return Err(Trap);
      }
      if id in tokens {
        return Err(AlreadyMinted);
      }
      var savedTokens, savedIds, savedOwned := tokens, ids, owned;
      tokens := tokens[id := Token(owner, None, uri, expiresAt)];
      ids := ids + [id];
      AddOwnerToken(owner, id);
      if registry.Some? && !answers {
        tokens, ids, owned := savedTokens, savedIds, savedOwned;
        return Err(Trap);
      }
      return Ok(());
    }

    method Approve(id: Str, caller: Address, approved: Option<Address>) returns (r: Result<(), Error>)
      requires Valid()
      modifies this
      ensures Did(old(Storage()), Storage(), Nft.Approve(old(Storage()), id, caller, approved), r)
      ensures Valid() && history == old(history) + [ApproveCall(id, caller, approved)]
    {
      Log(ApproveCall(id, caller, approved));
      if id !in tokens {
        return Err(NotFound);
      }
      if tokens[id].owner != caller {
        return Err(Unauthorized);
      }
      tokens := tokens[id := tokens[id].(approved := approved)];
      return Ok(());
    }

    method Transfer(id: Str, caller: Address, to: Address, answers: bool) returns (r: Result<(), Error>)
      requires Valid()
      modifies this
      ensures Did(old(Storage()), Storage(), Nft.Transfer(old(Storage()), id, caller, to, answers), r)
      ensures Valid() && history == old(history) + [TransferCall(id, caller, to, answers)]
    {
      Log(TransferCall(id, caller, to, answers));
      if id !in tokens {
        return Err(NotFound);
      }
      var record := tokens[id];
      if record.owner != caller && record.approved != Some(caller) {
        return Err(Unauthorized);
      }
      r := MoveAndNotify(id, record, to, answers);
    }

    method TransferFrom(spender: Address, owner: Address, to: Address, id: Str, answers: bool)
      returns (r: Result<(), Error>)
      requires Valid()
      modifies this
      ensures Did(old(Storage()), Storage(), Nft.TransferFrom(old(Storage()), spender, owner, to, id, answers), r)
      ensures Valid() && history == old(history) + [TransferFromCall(spender, owner, to, id, answers)]
    {
      Log(TransferFromCall(spender, owner, to, id, answers));
      if id !in tokens {
        return Err(NotFound);
      }
      var record := tokens[id];
      if record.owner != owner || record.approved != Some(spender) {
        return Err(Unauthorized);
      }
      r := MoveAndNotify(id, record, to, answers);
    }

    /** The tail both transfers share: rewrite the record, refile it, tell the registry. */
    method MoveAndNotify(id: Str, record: Token, to: Address, answers: bool) returns (r: Result<(), Error>)
      requires id in tokens && record == tokens[id]
      modifies `tokens, `owned
      ensures registry.Some? && !answers ==> r == Err(Trap) && Storage() == old(Storage())
      ensures registry.None? || answers ==> r == Ok(()) && Storage() == MoveToken(old(Storage()), id, to, None)
    {
      var savedTokens, savedOwned := tokens, owned;
      tokens := tokens[id := record.(owner := to, approved := None)];
      ReindexOwnerToken(record.owner, to, id);
      if registry.Some? && !answers {
        tokens, owned := savedTokens, savedOwned;
        return Err(Trap);
      }
      return Ok(());
    }

    method Burn(auth: set<Address>, id: Str) returns (r: Result<(), Error>)
      requires Valid()
      modifies this
      ensures Did(old(Storage()), Storage(), Nft.Burn(old(Storage()), auth, id), r)
      ensures Valid() && history == old(history) + [BurnCall(auth, id)]
    {
      Log(BurnCall(auth, id));
      if admin.None? {
        return Err(Unauthorized);
      }
      if admin.value !in auth {
        return Err(Trap);
      }
      if id !in tokens {
        return Err(NotFound);
      }
      var record := tokens[id];
      tokens := tokens - {id};
      RemoveOwnerToken(record.owner, id);
      ids := WithoutFirst(ids, id);
      return Ok(());
    }

    method SyncExpiry(auth: set<Address>, id: Str, expiresAt: U64) returns (r: Result<(), Error>)
      requires Valid()
      modifies this
      ensures Did(old(Storage()), Storage(), Nft.SyncExpiry(old(Storage()), auth, id, expiresAt), r)
      ensures Valid() && history == old(history) + [SyncExpiryCall(auth, id, expiresAt)]
    {
      Log(SyncExpiryCall(auth, id, expiresAt));
      if admin.None? {
        return Err(Unauthorized);
      }
      if admin.value !in auth {
        return Err(Trap);
      }
      if id !in tokens {
        return Err(NotFound);
      }
      tokens := tokens[id := tokens[id].(expiresAt := expiresAt)];
      return Ok(());
    }

    method SyncOwner(auth: set<Address>, id: Str, to: Address) returns (r: Result<(), Error>)
      requires Valid()
      modifies this
      ensures Did(old(Storage()), Storage(), Nft.SyncOwner(old(Storage()), auth, id, to), r)
      ensures Valid() && history == old(history) + [SyncOwnerCall(auth, id, to)]
    {
      Log(SyncOwnerCall(auth, id, to));
      if admin.None? {
        return Err(Unauthorized);
      }
      if admin.value !in auth {
        return Err(Trap);
      }
      if id !in tokens {
        return Err(NotFound);
      }
      var record := tokens[id];
      tokens := tokens[id := record.(owner := to)];
      ReindexOwnerToken(record.owner, to, id);
      return Ok(());
    }
  }
}
