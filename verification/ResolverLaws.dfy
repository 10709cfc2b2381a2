/**
 What each call of the resolver promises: exactly when it succeeds, and what record, tables and
 flags are afterwards.
 */
module ResolverLaws {
  import opened Common
  import opened Names
  import opened Resolver
  import Registry

  // ----- when calls succeed -----

  /** The registry has an entry that has not expired at the clock and names `who`. */
  predicate OnFile(live: Live, name: Str, who: Address) {
    name in live.book && live.clock <= live.book[name].expiresAt && live.book[name].owner == who
  }

  /** The owner check: with a registry its entry decides, without one the record. */
  lemma AssertOwnerIff(s: State, live: Live, name: Str, caller: Address)
    requires name in s.forward
    ensures AssertOwner(s, live, name, s.forward[name], caller).Ok? <==> Rules(s, live, name, caller)
    ensures Rules(s, live, name, caller) <==>
            if s.registry == None then s.forward[name].owner == caller else OnFile(live, name, caller)
  {
  }

  /** What a look-up goes by: without a registry any record will do, with one its owner must be
      the one on file. */
  predicate Standing(s: State, live: Live, name: Str) {
    name in s.forward && (s.registry == None || OnFile(live, name, s.forward[name].owner))
  }

  /** The look-up of any address in a sound state: the primary name if it stands, else the reverse
      name if that does. */
  lemma ReverseIs(s: State, live: Live, address: Str)
    requires Sound(s)
    ensures Reverse(s, live, address).name ==
            if address in s.primary && Standing(s, live, s.primary[address]) then Some(s.primary[address])
            else if address in s.reverse && Standing(s, live, s.reverse[address]) then Some(s.reverse[address])
            else None
  {
    ReverseByOwner(s, live, address);
  }

  /** The bytes a text-record key may have. */
  lemma KeyAlphabet(b: Byte)
    ensures KeyByte(b) <==> var c := b as char; 'a' <= c <= 'z' || '0' <= c <= '9' || c in ".-_"
  {
  }

  /** A call on an existing record by its authorized owner, asked for at the given clock. */
  predicate OwnerActs(s: State, auth: set<Address>, book: Book, name: Str, caller: Address, clock: U64) {
    name in s.forward && caller in auth && Rules(s, Live(book, clock), name, caller)
  }

  lemma SetRecordSucceedsIff(s: State, c: Call)
    requires c.SetRecordCall?
    ensures Outcome(s, c).Ok? <==> c.owner in c.auth && IsFqdn(c.name) && Rules(s, Live(c.book, c.now), c.name, c.owner)
  {
  }

  lemma RecordWritesSucceedIff(s: State, c: Call)
    ensures c.SetAddressCall? ==> (Outcome(s, c).Ok? <==> OwnerActs(s, c.auth, c.book, c.name, c.caller, c.now))
    ensures c.SetTextCall? ==>
              (Outcome(s, c).Ok? <==>
               && OwnerActs(s, c.auth, c.book, c.name, c.caller, c.now) && ValidKey(c.key) && |c.value| <= 256
               && (c.key in s.forward[c.name].texts || |s.forward[c.name].texts| < 16))
    ensures c.BatchCall? ==>
              (Outcome(s, c).Ok? <==>
               OwnerActs(s, c.auth, c.book, c.name, c.caller, c.now) && IsFqdn(c.name) && |c.ops| <= 16)
  {
  }

  /** These three ask at clock 0, and passing a record on asks no registry at all. */
  lemma OwnerCallsSucceedIff(s: State, c: Call)
    ensures c.SetPrimaryCall? ==>
              (Outcome(s, c).Ok? <==>
               OwnerActs(s, c.auth, c.book, c.name, c.caller, 0) && StellarOf(s.forward[c.name]) == Some(c.address))
    ensures c.RemoveCall? ==> (Outcome(s, c).Ok? <==> OwnerActs(s, c.auth, c.book, c.name, c.caller, 0))
    ensures c.UpdateOwnerCall? ==> (Outcome(s, c).Ok? <==> OwnerActs(s, c.auth, c.book, c.name, c.caller, 0))
    ensures c.TransferOwnerCall? ==>
              (Outcome(s, c).Ok? <==> c.caller in c.auth && c.name in s.forward && s.forward[c.name].owner == c.caller)
  {
  }

  lemma OtherCallsSucceedIff(s: State, c: Call)
    ensures c.InitCall? ==> (Outcome(s, c).Ok? <==> s.registry == None)
    ensures c.ClearCall? ==> (Outcome(s, c).Ok? <==> s.registry.Some? && s.registry.value in c.auth)
    ensures c.WildcardCall? ==>
              (Outcome(s, c).Ok? <==>
               IsFqdn(c.name) && c.name in s.forward && Rules(s, Live(c.book, c.now), c.name, c.caller))
  {
  }

  // ----- what they do to the record -----

  ghost predicate OtherRecordsKept(s: State, t: State, name: Str) {
    forall n :: n != name ==> SameRecord(s, t, n)
  }

  /** A record is replaced but for its owner: the default-chain address is new, every other
      address and all text records stay, the clock is noted. */
  lemma SetRecordKeepsRest(s: State, c: Call, chain: Str)
    requires c.SetRecordCall? && Outcome(s, c).Ok?
    ensures var t := Outcome(s, c).value;
            && c.name in t.forward && OtherRecordsKept(s, t, c.name)
            && var r := t.forward[c.name];
            && r.owner == c.owner && r.updatedAt == c.now && !r.isWildcard
            && STELLAR in r.addresses && r.addresses[STELLAR] == c.address
            && r.texts == (if c.name in s.forward then s.forward[c.name].texts else map[])
            && (chain != STELLAR ==>
                  && (chain in r.addresses <==> c.name in s.forward && chain in s.forward[c.name].addresses)
                  && (chain in r.addresses ==> r.addresses[chain] == s.forward[c.name].addresses[chain]))
  {
  }

  /** One address, on the given chain. */
  lemma SetAddressWrites(s: State, c: Call, chain: Str)
    requires c.SetAddressCall? && Outcome(s, c).Ok?
    ensures var t := Outcome(s, c).value;
            && c.name in s.forward && c.name in t.forward && OtherRecordsKept(s, t, c.name)
            && var r, was := t.forward[c.name], s.forward[c.name];
            && r == was.(addresses := r.addresses, updatedAt := c.now)
            && c.chain in r.addresses && r.addresses[c.chain] == c.address
            && (chain != c.chain ==>
                  && (chain in r.addresses <==> chain in was.addresses)
                  && (chain in was.addresses ==> r.addresses[chain] == was.addresses[chain]))
  {
  }

  /** One text record. */
  lemma SetTextWrites(s: State, c: Call, key: Str)
    requires c.SetTextCall? && Outcome(s, c).Ok?
    ensures var t := Outcome(s, c).value;
            && t == s.(forward := t.forward)
            && c.name in s.forward && c.name in t.forward && OtherRecordsKept(s, t, c.name)
            && var r, was := t.forward[c.name], s.forward[c.name];
            && r == was.(texts := r.texts, updatedAt := c.now)
            && c.key in r.texts && r.texts[c.key] == c.value
            && (key != c.key ==>
                  (key in r.texts <==> key in was.texts) && (key in was.texts ==> r.texts[key] == was.texts[key]))
  {
  }

  /** The owner alone, or the whole record with its wildcard setting. */
  lemma OwnerAndRemovalWrite(s: State, c: Call)
    requires (c.UpdateOwnerCall? || c.TransferOwnerCall? || c.RemoveCall?) && Outcome(s, c).Ok?
    ensures var t := Outcome(s, c).value;
            && c.name in s.forward && OtherRecordsKept(s, t, c.name) && t.registry == s.registry
            && if c.RemoveCall? then
                 && c.name !in t.forward && t.wildcard.Keys == s.wildcard.Keys - {c.name}
                 && (forall n :: n in t.wildcard ==> t.wildcard[n] == s.wildcard[n])
               else
                 && t == s.(forward := t.forward)
                 && c.name in t.forward && t.forward[c.name] == s.forward[c.name].(owner := c.to)
  {
  }

  // ----- what they do to the tables -----

  /** The entry of `a`, if any, is the same. */
  predicate SameEntryAt(m: map<Str, Str>, after: map<Str, Str>, a: Str) {
    (a in after <==> a in m) && (a in m ==> after[a] == m[a])
  }

  /** Pointing an address at a name sets its reverse entry and drops both entries of the address
      the name had; its own primary entry and all other entries stay. */
  lemma PointingChangesTwoAddresses(s: State, c: Call, a: Str)
    requires (c.SetRecordCall? || (c.SetAddressCall? && c.chain == STELLAR)) && Outcome(s, c).Ok?
    ensures var t := Outcome(s, c).value;
            var was := if c.name in s.forward then StellarOf(s.forward[c.name]) else None;
            && c.address in t.reverse && t.reverse[c.address] == c.name && SameEntryAt(s.primary, t.primary, c.address)
            && (a != c.address ==>
                  if was == Some(a) then a !in t.reverse && a !in t.primary
                  else SameEntryAt(s.reverse, t.reverse, a) && SameEntryAt(s.primary, t.primary, a))
            && t.wildcard == s.wildcard && t.registry == s.registry
  {
  }

  lemma PrimaryIsSet(s: State, c: Call, a: Str)
    requires c.SetPrimaryCall? && Outcome(s, c).Ok?
    ensures var t := Outcome(s, c).value;
            && t == s.(primary := t.primary) && c.address in t.primary && t.primary[c.address] == c.name
            && (a != c.address ==> SameEntryAt(s.primary, t.primary, a))
  {
  }

  lemma RemovalDropsItsAddress(s: State, c: Call, a: Str)
    requires c.RemoveCall? && Outcome(s, c).Ok?
    ensures var t := Outcome(s, c).value;
            if StellarOf(s.forward[c.name]) == Some(a) then a !in t.reverse && a !in t.primary
            else SameEntryAt(s.reverse, t.reverse, a) && SameEntryAt(s.primary, t.primary, a)
  {
  }

  /** The registry's clean-up drops the previous owner's entries that name this name, no others. */
  lemma ClearingDrops(s: State, c: Call, a: Str)
    requires c.ClearCall? && Outcome(s, c).Ok?
    ensures var t := Outcome(s, c).value;
            && t == s.(reverse := t.reverse, primary := t.primary)
            && (if a == c.previousOwner.key && a in s.reverse && s.reverse[a] == c.name then a !in t.reverse
                else SameEntryAt(s.reverse, t.reverse, a))
            && (if a == c.previousOwner.key && a in s.primary && s.primary[a] == c.name then a !in t.primary
                else SameEntryAt(s.primary, t.primary, a))
  {
  }

  /** The wildcard switch sets the flag of its name as told, and nothing else. */
  lemma WildcardIsSet(s: State, c: Call, n: Str)
    requires c.WildcardCall? && Outcome(s, c).Ok?
    ensures var t := Outcome(s, c).value;
            && t == s.(wildcard := t.wildcard) && c.name in t.wildcard && t.wildcard[c.name] == c.enabled
            && (n != c.name ==>
                  (n in t.wildcard <==> n in s.wildcard) && (n in s.wildcard ==> t.wildcard[n] == s.wildcard[n]))
  {
  }

  lemma RegistryIsSet(s: State, c: Call)
    requires c.InitCall? && Outcome(s, c).Ok?
    ensures Outcome(s, c).value == s.(registry := Some(c.registry))
  {
  }

  // ----- errors -----

  /** The registry, asked at that clock, does not resolve the name. */
  predicate Unresolved(s: State, book: Book, name: Str, clock: U64) {
    s.registry.Some? && !Live(book, clock).Has(name)
  }

  /** The reasons an error of a record write stands for. */
  predicate WriteReason(s: State, c: Call, e: Error)
    requires c.Writes()
  {
    match e
    case Validation => (c.SetRecordCall? || c.BatchCall?) && !IsFqdn(c.name)
    case RecordNotFound => !c.SetRecordCall? && c.name !in s.forward
    case Unauthorized =>
      if c.TransferOwnerCall? then c.name in s.forward && s.forward[c.name].owner != c.caller
      else !Rules(s, Live(c.book, c.Clock()), c.name, c.Actor())
    case TooManyTextRecords => c.SetTextCall? && c.name in s.forward && |s.forward[c.name].texts| >= 16
    case TextRecordValueTooLong => c.SetTextCall? && |c.value| > 256
    case InvalidKey => c.SetTextCall? && !ValidKey(c.key)
    case BatchTooLarge => c.BatchCall? && |c.ops| > 16
    case Trap => c.Actor() !in c.auth || (!c.TransferOwnerCall? && Unresolved(s, c.book, c.name, c.Clock()))
  }

  /** The reasons an error of any other call stands for. */
  predicate OtherReason(s: State, c: Call, e: Error)
    requires !c.Writes()
  {
    match c
    case InitCall(_) => e == Unauthorized && s.registry.Some?
    case ClearCall(auth, _, _) => e == Trap && !(s.registry.Some? && s.registry.value in auth)
    case SetPrimaryCall(auth, book, address, caller, name) =>
      || (e == Trap && (caller !in auth || Unresolved(s, book, name, 0)))
      || (e == RecordNotFound && name !in s.forward)
      || (e == Unauthorized && name in s.forward
          && (!Rules(s, Live(book, 0), name, caller) || StellarOf(s.forward[name]) != Some(address)))
    case WildcardCall(book, name, caller, _, now) =>
      || (e == Validation && !IsFqdn(name))
      || (e == RecordNotFound && name !in s.forward)
      || (e == Trap && Unresolved(s, book, name, now))
      || (e == Unauthorized && !Rules(s, Live(book, now), name, caller))
    case ReverseCall(_, _) => false
  }

  lemma SetRecordErrors(s: State, c: Call)
    requires c.SetRecordCall? && Outcome(s, c).Err?
    ensures WriteReason(s, c, Outcome(s, c).error)
  {
  }

  lemma SetAddressErrors(s: State, c: Call)
    requires c.SetAddressCall? && Outcome(s, c).Err?
    ensures WriteReason(s, c, Outcome(s, c).error)
  {
  }

  lemma SetTextErrors(s: State, c: Call)
    requires c.SetTextCall? && Outcome(s, c).Err?
    ensures WriteReason(s, c, Outcome(s, c).error)
  {
  }

  lemma BatchErrors(s: State, c: Call)
    requires c.BatchCall? && Outcome(s, c).Err?
    ensures WriteReason(s, c, Outcome(s, c).error)
  {
  }

  lemma OwnerErrors(s: State, c: Call)
    requires (c.RemoveCall? || c.UpdateOwnerCall? || c.TransferOwnerCall?) && Outcome(s, c).Err?
    ensures WriteReason(s, c, Outcome(s, c).error)
  {
  }

  lemma OtherErrors(s: State, c: Call)
    requires !c.Writes() && Outcome(s, c).Err?
    ensures OtherReason(s, c, Outcome(s, c).error)
  {
  }

  /** An error is only ever given for its reason. */
  lemma ErrorsAreTrue(s: State, c: Call)
    requires Outcome(s, c).Err?
    ensures if c.Writes() then WriteReason(s, c, Outcome(s, c).error) else OtherReason(s, c, Outcome(s, c).error)
  {
    if c.SetRecordCall? {
      SetRecordErrors(s, c);
    } else if c.SetAddressCall? {
      SetAddressErrors(s, c);
    } else if c.SetTextCall? {
      SetTextErrors(s, c);
    } else if c.BatchCall? {
      BatchErrors(s, c);
    } else if c.Writes() {
      OwnerErrors(s, c);
    } else {
      OtherErrors(s, c);
    }
  }
}
