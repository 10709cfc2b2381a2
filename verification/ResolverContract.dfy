/**
 The resolver contract as it runs: the tables are written through while a batch edits the
 record in hand, and stale reverse entries are cleaned out by the look-up that meets them.
 */
module ResolverContract {
  import opened Common
  import opened Names
  import opened Resolver
  import Fallback
  import Registry

  /** The byte loop over a text-record key. */
  method CheckKey(key: Str) returns (ok: bool)
    ensures ok <==> ValidKey(key)
  {
    if |key| == 0 || |key| > MAX_KEY_LENGTH {
      return false;
    }
    var i := 0;
    while i < |key|
      invariant 0 <= i <= |key|
      invariant forall j :: 0 <= j < i ==> KeyByte(key[j])
    {
      if !KeyByte(key[i]) {
        return false;
      }
      i := i + 1;
    }
    return true;
  }

  class Contract {
    var registry: Option<Address>
    var forward: map<Str, Record>
    var reverse: map<Str, Str>
    var primary: map<Str, Str>
    var wildcard: map<Str, bool>
    ghost var history: seq<Call>

    ghost function Storage(): State
      reads this
    {
      State(registry, forward, reverse, primary, wildcard)
    }

    /** Storage is what the calls made so far leave behind, so that whatever holds over every
        run holds of this object. */
    ghost predicate Valid()
      reads this
    {
      Storage() == Run(Fresh, history)
    }

    ghost method Log(c: Call)
      requires Valid()
      modifies `history
      ensures history == old(history) + [c] && Run(Fresh, history) == Commit(Storage(), Outcome(Storage(), c))
    {
      RunStep(history, c);
      history := history + [c];
    }

    constructor ()
      ensures Valid() && history == []
    {
      registry, forward, reverse, primary, wildcard, history := None, map[], map[], map[], map[], [];
    }

    /** Tables backed by forward records, text records within bounds and accepted names only,
        whatever was called. */
    lemma Invariant()
      requires Valid()
      ensures Sound(Storage()) && AllBounded(Storage()) && Named(Storage())
    {
      RunKeepsSound(history);
      RunKeepsBoundsAndNames(history);
    }

    method Initialize(registry: Address) returns (r: Result<(), Error>)
      requires Valid()
      modifies this
      ensures Did(old(Storage()), Storage(), Resolver.Initialize(old(Storage()), registry), r)
      ensures Valid() && history == old(history) + [InitCall(registry)]
    {
      Log(InitCall(registry));
      if this.registry.Some? {
        return Err(Unauthorized);
      }
      this.registry := Some(registry);
      return Ok(());
    }

    method CheckOwner(live: Live, name: Str, record: Record, caller: Address) returns (r: Result<(), Error>)
      ensures r == AssertOwner(Storage(), live, name, record, caller)
    {
      if registry.Some? {
        if !live.Has(name) {
          return Err(Trap);
        }
        return Check(live.book[name].owner == caller, Unauthorized);
      }
      return Check(record.owner == caller, Unauthorized);
    }

    /** Forgets the address the name had, then points the new one back at it. */
    method PointBack(name: Str, was: Option<Str>, address: Str)
      modifies `reverse, `primary
      ensures Storage() == Point(old(Storage()), name, was, address)
    {
      if was.Some? && was.value != address {
        reverse := reverse - {was.value};
        primary := primary - {was.value};
      }
      reverse := reverse[address := name];
    }

    method SetRecord(auth: set<Address>, book: Book, name: Str, owner: Address, address: Str, now: U64)
      returns (r: Result<(), Error>)
      requires Valid()
      modifies this
      ensures Did(old(Storage()), Storage(),
                  Resolver.SetRecord(old(Storage()), auth, book, name, owner, address, now), r)
      ensures Valid() && history == old(history) + [SetRecordCall(auth, book, name, owner, address, now)]
    {
      Log(SetRecordCall(auth, book, name, owner, address, now));
      if owner !in auth {
        return Err(Trap);
      }
      var valid := CheckFqdn(name);
      if valid.Err? {
        return Err(Validation);
      }
      if registry.Some? {
        if !Registry.Resolves(book, name, now) {
          return Err(Trap);
        }
        if book[name].owner != owner {
          return Err(Unauthorized);
        }
      }
      var addresses, texts: map<Str, Str> := map[], map[];
      var was := None;
      if name in forward {
        var existing := forward[name];
        if registry.None? && existing.owner != owner {
          return Err(Unauthorized);
        }
        was, addresses, texts := StellarOf(existing), existing.addresses, existing.texts;
      }
      PointBack(name, was, address);
      forward := forward[name := Record(owner, addresses[STELLAR := address], texts, now, false)];
      return Ok(());
    }

    method SetAddress(auth: set<Address>, book: Book, name: Str, caller: Address, chain: Str, address: Str, now: U64)
      returns (r: Result<(), Error>)
      requires Valid()
      modifies this
      ensures Did(old(Storage()), Storage(),
                  Resolver.SetAddress(old(Storage()), auth, book, name, caller, chain, address, now), r)
      ensures Valid() && history == old(history) + [SetAddressCall(auth, book, name, caller, chain, address, now)]
    {
      Log(SetAddressCall(auth, book, name, caller, chain, address, now));
      if caller !in auth {
        return Err(Trap);
      }
      if name !in forward {
        return Err(RecordNotFound);
      }
      var record := forward[name];
      r := CheckOwner(Live(book, now), name, record, caller);
      if r.Err? {
        return;
      }
      if chain == STELLAR {
        PointBack(name, StellarOf(record), address);
      }
      forward := forward[name := record.(addresses := record.addresses[chain := address], updatedAt := now)];
    }

    method SetTextRecord(auth: set<Address>, book: Book, name: Str, caller: Address, key: Str, value: Str, now: U64)
      returns (r: Result<(), Error>)
      requires Valid()
      modifies this
      ensures Did(old(Storage()), Storage(), SetText(old(Storage()), auth, book, name, caller, key, value, now), r)
      ensures Valid() && history == old(history) + [SetTextCall(auth, book, name, caller, key, value, now)]
    {
      Log(SetTextCall(auth, book, name, caller, key, value, now));
      if caller !in auth {
        return Err(Trap);
      }
      var ok := CheckKey(key);
      if !ok {
        return Err(InvalidKey);
      }
      if |value| > MAX_TEXT_VALUE {
        return Err(TextRecordValueTooLong);
      }
      if name !in forward {
        return Err(RecordNotFound);
      }
      var record := forward[name];
      r := CheckOwner(Live(book, now), name, record, caller);
      if r.Err? {
        return;
      }
      if key !in record.texts && |record.texts| >= MAX_TEXT_RECORDS {
        return Err(TooManyTextRecords);
      }
      forward := forward[name := record.(texts := record.texts[key := value], updatedAt := now)];
    }

    method SetPrimaryName(auth: set<Address>, book: Book, address: Str, caller: Address, name: Str)
      returns (r: Result<(), Error>)
      requires Valid()
      modifies this
      ensures Did(old(Storage()), Storage(), SetPrimary(old(Storage()), auth, book, address, caller, name), r)
      ensures Valid() && history == old(history) + [SetPrimaryCall(auth, book, address, caller, name)]
    {
      Log(SetPrimaryCall(auth, book, address, caller, name));
      if caller !in auth {
        return Err(Trap);
      }
      if name !in forward {
        return Err(RecordNotFound);
      }
      r := CheckOwner(Live(book, 0), name, forward[name], caller);
      if r.Err? {
        return;
      }
      if STELLAR !in forward[name].addresses || forward[name].addresses[STELLAR] != address {
        return Err(Unauthorized);
      }
      primary := primary[address := name];
    }

    method RemoveRecord(auth: set<Address>, book: Book, name: Str, caller: Address) returns (r: Result<(), Error>)
      requires Valid()
      modifies this
      ensures Did(old(Storage()), Storage(), Resolver.RemoveRecord(old(Storage()), auth, book, name, caller), r)
      ensures Valid() && history == old(history) + [RemoveCall(auth, book, name, caller)]
    {
      Log(RemoveCall(auth, book, name, caller));
      if caller !in auth {
        return Err(Trap);
      }
      if name !in forward {
        return Err(RecordNotFound);
      }
      r := CheckOwner(Live(book, 0), name, forward[name], caller);
      if r.Err? {
        return;
      }
      var former := StellarOf(forward[name]);
      if former.Some? {
        reverse := reverse - {former.value};
        primary := primary - {former.value};
      }
      forward := forward - {name};
      wildcard := wildcard - {name};
    }

    /** Drops the entries of `address` that still name `name`. */
    method CleanUp(address: Str, name: Str)
      modifies `reverse, `primary
      ensures Storage() == Forget(old(Storage()), address, name)
    {
      if address in reverse && reverse[address] == name {
        reverse := reverse - {address};
      }
      if address in primary && primary[address] == name {
        primary := primary - {address};
      }
    }

    method ClearReverseRecord(auth: set<Address>, name: Str, previousOwner: Address) returns (r: Result<(), Error>)
      requires Valid()
      modifies this
      ensures Did(old(Storage()), Storage(), ClearReverse(old(Storage()), auth, name, previousOwner), r)
      ensures Valid() && history == old(history) + [ClearCall(auth, name, previousOwner)]
    {
      Log(ClearCall(auth, name, previousOwner));
      if registry.None? || registry.value !in auth {
        return Err(Trap);
      }
      CleanUp(previousOwner.key, name);
      return Ok(());
    }

    method Matches(live: Live, name: Str, address: Str) returns (ok: bool)
      ensures ok <==> StillMatches(Storage(), live, name, address)
    {
      if name !in forward {
        return false;
      }
      var record := forward[name];
      if STELLAR !in record.addresses || record.addresses[STELLAR] != address {
        return false;
      }
      if registry.Some? {
        return live.Has(name) && live.book[name].owner == record.owner;
      }
      return true;
    }

    /** Both checks of the original are made; that the owner check alone decides is due to the
        soundness of the tables. */
    method Reverse(live: Live, address: Str) returns (r: Option<Str>)
      requires Valid()
      modifies this
      ensures r == Found(old(Storage()), live, address) && Storage() == Cleaned(old(Storage()), live, address)
      ensures Valid() && history == old(history) + [ReverseCall(live, address)]
    {
      OnlyOwnershipDiscards(history, live, address);
      Log(ReverseCall(live, address));
      if address in primary {
        var name := primary[address];
        var ok := Matches(live, name, address);
        if ok {
          return Some(name);
        }
        CleanUp(address, name);
      }
      if address in reverse {
        var name := reverse[address];
        var ok := Matches(live, name, address);
        if ok {
          return Some(name);
        }
        CleanUp(address, name);
      }
      return None;
    }

    /** The batch loop; each iteration leaves the tables sound for the record in hand. */
    method BatchSet(auth: set<Address>, book: Book, name: Str, caller: Address, ops: seq<BatchOp>, now: U64)
      returns (r: Result<nat, Error>)
      requires Valid()
      modifies this
      ensures var o := Resolver.BatchSet(old(Storage()), auth, book, name, caller, ops, now);
              && (o.Err? ==> r == Err(o.error) && Storage() == old(Storage()))
              && (o.Ok? ==> r == Ok(o.value.applied) && Storage() == o.value.state)
      ensures Valid() && history == old(history) + [BatchCall(auth, book, name, caller, ops, now)]
    {
      Log(BatchCall(auth, book, name, caller, ops, now));
      var valid := CheckFqdn(name);
      if valid.Err? {
        return Err(Validation);
      }
      if caller !in auth {
        return Err(Trap);
      }
      if |ops| > MAX_BATCH_OPS {
        return Err(BatchTooLarge);
      }
      if name !in forward {
        return Err(RecordNotFound);
      }
      var record := forward[name];
      var owner := CheckOwner(Live(book, now), name, record, caller);
      if owner.Err? {
        return Err(owner.error);
      }
      record, r := ApplyOps(name, record, ops);
      forward := forward[name := record.(updatedAt := now)];
    }

    method ApplyOps(name: Str, start: Record, ops: seq<BatchOp>) returns (record: Record, r: Result<nat, Error>)
      modifies `reverse, `primary
      ensures r.Ok? && Cursor(record, Storage(), r.value) == ApplyAll(Cursor(start, old(Storage()), 0), name, ops)
    {
      record := start;
      var applied := 0;
      ghost var c0 := Cursor(start, Storage(), 0);
      var i := 0;
      while i < |ops|
        invariant 0 <= i <= |ops|
        invariant Cursor(record, Storage(), applied) == ApplyAll(c0, name, ops[..i])
      {
        assert ops[..i + 1][..i] == ops[..i];
        match ops[i] {
          case SetAddressOp(address) =>
            PointBack(name, StellarOf(record), address);
            record := record.(addresses := record.addresses[STELLAR := address]);
            applied := applied + 1;
          case SetTextOp(key, value) =>
            var ok := CheckKey(key);
            if ok && |value| <= MAX_TEXT_VALUE && (key in record.texts || |record.texts| < MAX_TEXT_RECORDS) {
              record := record.(texts := record.texts[key := value]);
              applied := applied + 1;
            }
        }
        i := i + 1;
      }
      assert ops[..i] == ops;
      r := Ok(applied);
    }

    method UpdateOwner(auth: set<Address>, book: Book, name: Str, caller: Address, to: Address)
      returns (r: Result<(), Error>)
      requires Valid()
      modifies this
      ensures Did(old(Storage()), Storage(), Resolver.UpdateOwner(old(Storage()), auth, book, name, caller, to), r)
      ensures Valid() && history == old(history) + [UpdateOwnerCall(auth, book, name, caller, to)]
    {
      Log(UpdateOwnerCall(auth, book, name, caller, to));
      if caller !in auth {
        return Err(Trap);
      }
      if name !in forward {
        return Err(RecordNotFound);
      }
      r := CheckOwner(Live(book, 0), name, forward[name], caller);
      if r.Ok? {
        forward := forward[name := forward[name].(owner := to)];
      }
    }

    method TransferRecordOwner(auth: set<Address>, name: Str, caller: Address, to: Address)
      returns (r: Result<(), Error>)
      requires Valid()
      modifies this
      ensures Did(old(Storage()), Storage(), Resolver.TransferRecordOwner(old(Storage()), auth, name, caller, to), r)
      ensures Valid() && history == old(history) + [TransferOwnerCall(auth, name, caller, to)]
    {
      Log(TransferOwnerCall(auth, name, caller, to));
      if caller !in auth {
        return Err(Trap);
      }
      if name !in forward {
        return Err(RecordNotFound);
      }
      if forward[name].owner != caller {
        return Err(Unauthorized);
      }
      forward := forward[name := forward[name].(owner := to)];
      return Ok(());
    }

    method SetWildcardResolution(book: Book, name: Str, caller: Address, enabled: bool, now: U64)
      returns (r: Result<(), Error>)
      requires Valid()
      modifies this
      ensures Did(old(Storage()), Storage(), SetWildcard(old(Storage()), book, name, caller, enabled, now), r)
      ensures Valid() && history == old(history) + [WildcardCall(book, name, caller, enabled, now)]
    {
      Log(WildcardCall(book, name, caller, enabled, now));
      var valid := CheckFqdn(name);
      if valid.Err? {
        return Err(Validation);
      }
      if name !in forward {
        return Err(RecordNotFound);
      }
      r := CheckOwner(Live(book, now), name, forward[name], caller);
      if r.Ok? {
        wildcard := wildcard[name := enabled];
      }
    }

    /** The hop limit is the subdomain contract's maximum depth, `depth`, or 3 when that contract
        is not configured or does not answer. The record carries the flag of this resolution. */
    method Resolve(name: Str, depth: Option<U32>) returns (r: Option<Record>)
      ensures var maxHops := if depth.Some? then depth.value else 3;
              && (r.Some? ==> IsFqdn(name) && exists a :: && Fallback.Answers(Storage(), name, maxHops, a)
                                                           && r.value == a.record.(isWildcard := a.isWildcard))
              && (r.None? ==> !IsFqdn(name) || forall a :: !Fallback.Answers(Storage(), name, maxHops, a))
    {
      var maxHops := if depth.Some? then depth.value else DEFAULT_FALLBACK_DEPTH;
      var found := Fallback.ResolveWithFallback(State(registry, forward, reverse, primary, wildcard), name, maxHops);
      if found.None? {
        return None;
      }
      return Some(found.value.record.(isWildcard := found.value.isWildcard));
    }
  }
}
