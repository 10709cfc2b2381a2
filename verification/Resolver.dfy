/**
 The resolver contract: forward records per name, reverse and primary names per address,
 and batch updates.
 */
module Resolver {
  import opened Common
  import opened Names
  import Registry

  const STELLAR: Str := [115, 116, 101, 108, 108, 97, 114]
  const DEFAULT_FALLBACK_DEPTH: U32 := 3
  const MAX_BATCH_OPS := 16
  const MAX_TEXT_RECORDS := 16
  const MAX_TEXT_VALUE := 256
  const MAX_KEY_LENGTH := 64

  datatype Record = Record(
    owner: Address, addresses: map<Str, Str>, texts: map<Str, Str>, updatedAt: U64, isWildcard: bool)

  datatype BatchOp = SetAddressOp(address: Str) | SetTextOp(key: Str, value: Str)

  /** `Trap` stands for a failed authorization or a failed registry call. */
  datatype Error =
    | Validation | RecordNotFound | Unauthorized | TooManyTextRecords | TextRecordValueTooLong
    | InvalidKey | BatchTooLarge | Trap

  datatype State = State(
    registry: Option<Address>,
    forward: map<Str, Record>,
    reverse: map<Str, Str>,
    primary: map<Str, Str>,
    wildcard: map<Str, bool>)

  const Fresh := State(None, map[], map[], map[], map[])

  /** The entries of the registry when a call asks it. */
  type Book = map<Str, Registry.Entry>

  /** The registry as it answers at some clock. The clock of most calls is an argument of the
      caller's choice; three calls ask at clock 0, and look-ups at the ledger's time. */
  datatype Live = Live(book: Book, clock: U64)
  {
    predicate Has(name: Str) {
      Registry.Resolves(book, name, clock)
    }

    predicate HeldBy(name: Str, who: Address) {
      Has(name) && book[name].owner == who
    }
  }

  // ----- checks -----

  /** With a registry configured, an unresolvable name makes the nested call trap. */
  function RegistryOwner(s: State, live: Live, name: Str): Result<Option<Address>, Error> {
    if s.registry.None? then Ok(None)
    else if live.Has(name) then Ok(Some(live.book[name].owner))
    else Err(Trap)
  }

  function AssertOwner(s: State, live: Live, name: Str, r: Record, caller: Address): Result<(), Error> {
    var backed :- RegistryOwner(s, live, name);
    Check((if backed.Some? then backed.value else r.owner) == caller, Unauthorized)
  }

  predicate KeyByte(b: Byte) {
    97 <= b <= 122 || 48 <= b <= 57 || b == DOT || b == HYPHEN || b == 95
  }

  predicate ValidKey(key: Str) {
    1 <= |key| <= MAX_KEY_LENGTH && forall i :: 0 <= i < |key| ==> KeyByte(key[i])
  }

  // ----- building blocks -----

  function StellarOf(r: Record): Option<Str> {
    if STELLAR in r.addresses then Some(r.addresses[STELLAR]) else None
  }

  function Unset(m: map<Str, Str>, was: Option<Str>, address: Str): map<Str, Str> {
    if was.Some? && was.value != address then m - {was.value} else m
  }

  /** Pointing `address` back at `name`, after forgetting the address the name had before. */
  function Point(s: State, name: Str, was: Option<Str>, address: Str): State {
    s.(reverse := Unset(s.reverse, was, address)[address := name],
       primary := Unset(s.primary, was, address))
  }

  predicate Fits(r: Record, key: Str) {
    key in r.texts || |r.texts| < MAX_TEXT_RECORDS
  }

  // ----- entry points -----

  function Initialize(s: State, registry: Address): Result<State, Error> {
    if s.registry.Some? then Err(Unauthorized) else Ok(s.(registry := Some(registry)))
  }

  function SetRecord(s: State, auth: set<Address>, book: Book, name: Str, owner: Address, address: Str, now: U64)
    : Result<State, Error>
  {
    var _ :- Check(owner in auth, Trap);
    var _ :- Check(IsFqdn(name), Validation);
    var backed :- RegistryOwner(s, Live(book, now), name);
    var _ :- Check(backed.Some? ==> backed.value == owner, Unauthorized);
    var known := name in s.forward;
    var _ :- Check(known && backed.None? ==> s.forward[name].owner == owner, Unauthorized);
    var addresses := if known then s.forward[name].addresses else map[];
    var texts := if known then s.forward[name].texts else map[];
    var pointed := Point(s, name, if known then StellarOf(s.forward[name]) else None, address);
    Ok(pointed.(forward := s.forward[name := Record(owner, addresses[STELLAR := address], texts, now, false)]))
  }

  function SetAddress(s: State, auth: set<Address>, book: Book, name: Str, caller: Address, chain: Str, address: Str,
                      now: U64)
    : Result<State, Error>
  {
    var _ :- Check(caller in auth, Trap);
    var _ :- Check(name in s.forward, RecordNotFound);
    var r := s.forward[name];
    var _ :- AssertOwner(s, Live(book, now), name, r, caller);
    var pointed := if chain == STELLAR then Point(s, name, StellarOf(r), address) else s;
    Ok(pointed.(forward := s.forward[name := r.(addresses := r.addresses[chain := address], updatedAt := now)]))
  }

  function SetText(s: State, auth: set<Address>, book: Book, name: Str, caller: Address, key: Str, value: Str, now: U64)
    : Result<State, Error>
  {
    var _ :- Check(caller in auth, Trap);
    var _ :- Check(ValidKey(key), InvalidKey);
    var _ :- Check(|value| <= MAX_TEXT_VALUE, TextRecordValueTooLong);
    var _ :- Check(name in s.forward, RecordNotFound);
    var r := s.forward[name];
    var _ :- AssertOwner(s, Live(book, now), name, r, caller);
    var _ :- Check(Fits(r, key), TooManyTextRecords);
    Ok(s.(forward := s.forward[name := r.(texts := r.texts[key := value], updatedAt := now)]))
  }

  function SetPrimary(s: State, auth: set<Address>, book: Book, address: Str, caller: Address, name: Str)
    : Result<State, Error>
  {
    var _ :- Check(caller in auth, Trap);
    var _ :- Check(name in s.forward, RecordNotFound);
    var _ :- AssertOwner(s, Live(book, 0), name, s.forward[name], caller);
    var _ :- Check(StellarOf(s.forward[name]) == Some(address), Unauthorized);
    Ok(s.(primary := s.primary[address := name]))
  }

  function RemoveRecord(s: State, auth: set<Address>, book: Book, name: Str, caller: Address): Result<State, Error> {
    var _ :- Check(caller in auth, Trap);
    var _ :- Check(name in s.forward, RecordNotFound);
    var _ :- AssertOwner(s, Live(book, 0), name, s.forward[name], caller);
    var was := StellarOf(s.forward[name]);
    Ok(s.(reverse := if was.Some? then s.reverse - {was.value} else s.reverse,
          primary := if was.Some? then s.primary - {was.value} else s.primary,
          forward := s.forward - {name},
          wildcard := s.wildcard - {name}))
  }

  function DropIf(m: map<Str, Str>, address: Str, name: Str): map<Str, Str> {
    if address in m && m[address] == name then m - {address} else m
  }

  /** Both `clear_reverse_record` and the clean-up of stale look-ups. */
  function Forget(s: State, address: Str, name: Str): State {
    s.(reverse := DropIf(s.reverse, address, name), primary := DropIf(s.primary, address, name))
  }

  function ClearReverse(s: State, auth: set<Address>, name: Str, previousOwner: Address): Result<State, Error> {
    var _ :- Check(s.registry.Some? && s.registry.value in auth, Trap);
    Ok(Forget(s, previousOwner.key, name))
  }

  function UpdateOwner(s: State, auth: set<Address>, book: Book, name: Str, caller: Address, to: Address)
    : Result<State, Error>
  {
    var _ :- Check(caller in auth, Trap);
    var _ :- Check(name in s.forward, RecordNotFound);
    var _ :- AssertOwner(s, Live(book, 0), name, s.forward[name], caller);
    Ok(s.(forward := s.forward[name := s.forward[name].(owner := to)]))
  }

  /** The one owner call that goes by the record alone, whatever the registry says. */
  function TransferRecordOwner(s: State, auth: set<Address>, name: Str, caller: Address, to: Address)
    : Result<State, Error>
  {
    var _ :- Check(caller in auth, Trap);
    var _ :- Check(name in s.forward, RecordNotFound);
    var _ :- Check(s.forward[name].owner == caller, Unauthorized);
    Ok(s.(forward := s.forward[name := s.forward[name].(owner := to)]))
  }

  /** The caller is named but its authorization is never asked for. */
  function SetWildcard(s: State, book: Book, name: Str, caller: Address, enabled: bool, now: U64)
    : Result<State, Error>
  {
    var _ :- Check(IsFqdn(name), Validation);
    var _ :- Check(name in s.forward, RecordNotFound);
    var _ :- AssertOwner(s, Live(book, now), name, s.forward[name], caller);
    Ok(s.(wildcard := s.wildcard[name := enabled]))
  }

  /** Hence anybody can switch wildcard resolution of any record, unless the registry has no
      entry for the name: an expired one is resolved at a clock of the caller's choice. */
  lemma AnyoneSwitchesWildcards(s: State, book: Book, name: Str, enabled: bool)
    ensures (exists caller, now :: SetWildcard(s, book, name, caller, enabled, now).Ok?) <==>
            IsFqdn(name) && name in s.forward && (s.registry.Some? ==> name in book)
  {
    if IsFqdn(name) && name in s.forward && (s.registry.Some? ==> name in book) {
      var owner := if s.registry.Some? then book[name].owner else s.forward[name].owner;
      assert SetWildcard(s, book, name, owner, enabled, 0).Ok?;
    }
  }

  // ----- reverse look-up -----

  /** The record's owner is still the registry's. */
  predicate OwnerCurrent(s: State, live: Live, name: Str)
    requires name in s.forward
  {
    s.registry.None? || live.HeldBy(name, s.forward[name].owner)
  }

  predicate StillMatches(s: State, live: Live, name: Str, address: Str) {
    && name in s.forward
    && StellarOf(s.forward[name]) == Some(address)
    && OwnerCurrent(s, live, name)
  }

  datatype Answer = Answer(state: State, name: Option<Str>)

  /** One look-up table: a matching entry answers, a stale one is cleaned out. */
  function Consult(s: State, live: Live, table: map<Str, Str>, address: Str): Answer {
    if address !in table then Answer(s, None)
    else if StillMatches(s, live, table[address], address) then Answer(s, Some(table[address]))
    else Answer(Forget(s, address, table[address]), None)
  }

  /** Primary first, then reverse. */
  function Reverse(s: State, live: Live, address: Str): Answer {
    var first := Consult(s, live, s.primary, address);
    if first.name.Some? then first else Consult(first.state, live, first.state.reverse, address)
  }

  // ----- batch update -----

  /** The loop state of `batch_set`: the record in hand and the tables, which it writes through. */
  datatype Cursor = Cursor(record: Record, tables: State, applied: nat)

  function ApplyOp(c: Cursor, name: Str, op: BatchOp): Cursor {
    match op
    case SetAddressOp(address) =>
      Cursor(c.record.(addresses := c.record.addresses[STELLAR := address]),
             Point(c.tables, name, StellarOf(c.record), address), c.applied + 1)
    case SetTextOp(key, value) =>
      if !ValidKey(key) || |value| > MAX_TEXT_VALUE || !Fits(c.record, key) then c
      else c.(record := c.record.(texts := c.record.texts[key := value]), applied := c.applied + 1)
  }

  function ApplyAll(c: Cursor, name: Str, ops: seq<BatchOp>): Cursor {
    if ops == [] then c else ApplyOp(ApplyAll(c, name, ops[..|ops| - 1]), name, ops[|ops| - 1])
  }

  datatype Batch = Batch(state: State, applied: nat)

  function BatchSet(s: State, auth: set<Address>, book: Book, name: Str, caller: Address, ops: seq<BatchOp>, now: U64)
    : Result<Batch, Error>
  {
    var _ :- Check(IsFqdn(name), Validation);
    var _ :- Check(caller in auth, Trap);
    var _ :- Check(|ops| <= MAX_BATCH_OPS, BatchTooLarge);
    var _ :- Check(name in s.forward, RecordNotFound);
    var _ :- AssertOwner(s, Live(book, now), name, s.forward[name], caller);
    var c := ApplyAll(Cursor(s.forward[name], s, 0), name, ops);
    Ok(Batch(c.tables.(forward := s.forward[name := c.record.(updatedAt := now)]), c.applied))
  }

  // ----- runs -----

  datatype Call =
    | InitCall(registry: Address)
    | SetRecordCall(auth: set<Address>, book: Book, name: Str, owner: Address, address: Str, now: U64)
    | SetAddressCall(auth: set<Address>, book: Book, name: Str, caller: Address, chain: Str, address: Str, now: U64)
    | SetTextCall(auth: set<Address>, book: Book, name: Str, caller: Address, key: Str, value: Str, now: U64)
    | SetPrimaryCall(auth: set<Address>, book: Book, address: Str, caller: Address, name: Str)
    | RemoveCall(auth: set<Address>, book: Book, name: Str, caller: Address)
    | ClearCall(auth: set<Address>, name: Str, previousOwner: Address)
    | UpdateOwnerCall(auth: set<Address>, book: Book, name: Str, caller: Address, to: Address)
    | TransferOwnerCall(auth: set<Address>, name: Str, caller: Address, to: Address)
    | WildcardCall(book: Book, name: Str, caller: Address, enabled: bool, now: U64)
    | ReverseCall(live: Live, address: Str)
    | BatchCall(auth: set<Address>, book: Book, name: Str, caller: Address, ops: seq<BatchOp>, now: U64)
  {
    /** Calls that may write a forward record. */
    predicate Writes() {
      SetRecordCall? || SetAddressCall? || SetTextCall? || RemoveCall? || UpdateOwnerCall? || TransferOwnerCall?
      || BatchCall?
    }

    /** On whose behalf such a call is made. */
    function Actor(): Address
      requires Writes()
    {
      if SetRecordCall? then owner else caller
    }

    /** The clock at which the registry is asked. */
    function Clock(): U64
      requires Writes() && !TransferOwnerCall?
    {
      if RemoveCall? || UpdateOwnerCall? then 0 else now
    }
  }

  function Outcome(s: State, c: Call): Result<State, Error> {
    match c
    case InitCall(registry) => Initialize(s, registry)
    case SetRecordCall(auth, book, name, owner, address, now) => SetRecord(s, auth, book, name, owner, address, now)
    case SetAddressCall(auth, book, name, caller, chain, address, now) =>
      SetAddress(s, auth, book, name, caller, chain, address, now)
    case SetTextCall(auth, book, name, caller, key, value, now) => SetText(s, auth, book, name, caller, key, value, now)
    case SetPrimaryCall(auth, book, address, caller, name) => SetPrimary(s, auth, book, address, caller, name)
    case RemoveCall(auth, book, name, caller) => RemoveRecord(s, auth, book, name, caller)
    case ClearCall(auth, name, previousOwner) => ClearReverse(s, auth, name, previousOwner)
    case UpdateOwnerCall(auth, book, name, caller, to) => UpdateOwner(s, auth, book, name, caller, to)
    case TransferOwnerCall(auth, name, caller, to) => TransferRecordOwner(s, auth, name, caller, to)
    case WildcardCall(book, name, caller, enabled, now) => SetWildcard(s, book, name, caller, enabled, now)
    case ReverseCall(live, address) => Ok(Reverse(s, live, address).state)
    case BatchCall(auth, book, name, caller, ops, now) =>
      (match BatchSet(s, auth, book, name, caller, ops, now)
       case Err(e) => Err(e)
       case Ok(b) => Ok(b.state))
  }

  function Run(s: State, calls: seq<Call>): State {
    if calls == [] then s
    else
      var before := Run(s, calls[..|calls| - 1]);
      Commit(before, Outcome(before, calls[|calls| - 1]))
  }

  lemma RunStep(calls: seq<Call>, c: Call)
    ensures Run(Fresh, calls + [c]) == Commit(Run(Fresh, calls), Outcome(Run(Fresh, calls), c))
  {
    assert (calls + [c])[..|calls|] == calls;
  }

  // ----- reverse soundness -----

  predicate PointsAt(forward: map<Str, Record>, name: Str, address: Str) {
    name in forward && StellarOf(forward[name]) == Some(address)
  }

  ghost predicate Backed(forward: map<Str, Record>, table: map<Str, Str>) {
    forall a :: a in table ==> PointsAt(forward, table[a], a)
  }

  /** Whatever name the reverse or primary table gives an address has a forward record whose
      default-chain address is that address. */
  ghost predicate Sound(s: State) {
    Backed(s.forward, s.reverse) && Backed(s.forward, s.primary)
  }

  /** The loop of a batch keeps the tables sound for the record in hand. */
  ghost predicate SoundInHand(c: Cursor, name: Str) {
    Sound(c.tables.(forward := c.tables.forward[name := c.record]))
  }

  lemma PointKeepsSound(s: State, name: Str, was: Option<Str>, address: Str, forward: map<Str, Record>)
    requires Sound(s)
    requires was == if name in s.forward then StellarOf(s.forward[name]) else None
    requires name in forward && forward == s.forward[name := forward[name]] && StellarOf(forward[name]) == Some(address)
    ensures Sound(Point(s, name, was, address).(forward := forward))
  {
  }

  /** Records may change in any way that keeps their default-chain address. */
  lemma SameAddressKeepsSound(s: State, t: State, name: Str)
    requires Sound(s) && name in s.forward && name in t.forward
    requires t.forward == s.forward[name := t.forward[name]] && StellarOf(t.forward[name]) == StellarOf(s.forward[name])
    requires t.reverse == s.reverse && t.primary == s.primary
    ensures Sound(t)
  {
  }

  lemma RemoveKeepsSound(s: State, auth: set<Address>, book: Book, name: Str, caller: Address)
    requires Sound(s) && RemoveRecord(s, auth, book, name, caller).Ok?
    ensures Sound(RemoveRecord(s, auth, book, name, caller).value)
  {
  }

  lemma ForgetKeepsSound(s: State, address: Str, name: Str)
    requires Sound(s)
    ensures Sound(Forget(s, address, name))
  {
  }

  lemma ReverseKeepsSound(s: State, live: Live, address: Str)
    requires Sound(s)
    ensures Sound(Reverse(s, live, address).state)
  {
  }

  lemma ApplyOpKeepsSound(c: Cursor, name: Str, op: BatchOp)
    requires SoundInHand(c, name)
    ensures SoundInHand(ApplyOp(c, name, op), name)
    ensures ApplyOp(c, name, op).tables.forward == c.tables.forward
  {
  }

  lemma {:induction false} ApplyAllKeepsSound(c: Cursor, name: Str, ops: seq<BatchOp>)
    requires SoundInHand(c, name)
    ensures SoundInHand(ApplyAll(c, name, ops), name)
    ensures ApplyAll(c, name, ops).tables.forward == c.tables.forward
  {
    if ops != [] {
      ApplyAllKeepsSound(c, name, ops[..|ops| - 1]);
      ApplyOpKeepsSound(ApplyAll(c, name, ops[..|ops| - 1]), name, ops[|ops| - 1]);
    }
  }

  lemma BatchKeepsSound(s: State, auth: set<Address>, book: Book, name: Str, caller: Address, ops: seq<BatchOp>,
                        now: U64)
    requires Sound(s) && BatchSet(s, auth, book, name, caller, ops, now).Ok?
    ensures Sound(BatchSet(s, auth, book, name, caller, ops, now).value.state)
  {
    var t := BatchSet(s, auth, book, name, caller, ops, now).value.state;
    var start := Cursor(s.forward[name], s, 0);
    assert s.forward[name := s.forward[name]] == s.forward;
    ApplyAllKeepsSound(start, name, ops);
    var c := ApplyAll(start, name, ops);
    var hand := c.tables.(forward := c.tables.forward[name := c.record]);
    assert t.forward == hand.forward[name := t.forward[name]];
    SameAddressKeepsSound(hand, t, name);
  }

  lemma SetAddressKeepsSound(s: State, c: Call)
    requires Sound(s) && (c.SetRecordCall? || c.SetAddressCall?) && Outcome(s, c).Ok?
    ensures Sound(Outcome(s, c).value)
  {
    var t := Outcome(s, c).value;
    if c.SetRecordCall? || c.chain == STELLAR {
      var was := if c.name in s.forward then StellarOf(s.forward[c.name]) else None;
      PointKeepsSound(s, c.name, was, c.address, t.forward);
      assert t == Point(s, c.name, was, c.address).(forward := t.forward);
    } else {
      SameAddressKeepsSound(s, t, c.name);
    }
  }

  lemma RecordCallsKeepSound(s: State, c: Call)
    requires Sound(s) && (c.SetTextCall? || c.UpdateOwnerCall? || c.TransferOwnerCall?) && Outcome(s, c).Ok?
    ensures Sound(Outcome(s, c).value)
  {
    SameAddressKeepsSound(s, Outcome(s, c).value, c.name);
  }

  lemma OutcomeKeepsSound(s: State, c: Call)
    requires Sound(s) && Outcome(s, c).Ok?
    ensures Sound(Outcome(s, c).value)
  {
    if c.SetRecordCall? || c.SetAddressCall? {
      SetAddressKeepsSound(s, c);
    } else if c.SetTextCall? || c.UpdateOwnerCall? || c.TransferOwnerCall? {
      RecordCallsKeepSound(s, c);
    } else if c.RemoveCall? {
      RemoveKeepsSound(s, c.auth, c.book, c.name, c.caller);
    } else if c.BatchCall? {
      BatchKeepsSound(s, c.auth, c.book, c.name, c.caller, c.ops, c.now);
    } else if c.ClearCall? {
      ForgetKeepsSound(s, c.previousOwner.key, c.name);
    } else if c.ReverseCall? {
      ReverseKeepsSound(s, c.live, c.address);
    } else {
      assert c.SetPrimaryCall? || c.WildcardCall? || c.InitCall?;
    }
  }

  /** Reverse and primary entries are sound in every run. */
  lemma {:induction false} RunKeepsSound(calls: seq<Call>)
    ensures Sound(Run(Fresh, calls))
  {
    if calls != [] {
      var before, last := Run(Fresh, calls[..|calls| - 1]), calls[|calls| - 1];
      RunKeepsSound(calls[..|calls| - 1]);
      if Outcome(before, last).Ok? {
        OutcomeKeepsSound(before, last);
      }
    }
  }

  // ----- what a look-up answers -----

  predicate Current(s: State, live: Live, name: Str) {
    name in s.forward && OwnerCurrent(s, live, name)
  }

  predicate CurrentIn(s: State, live: Live, table: map<Str, Str>, address: Str) {
    address in table && Current(s, live, table[address])
  }

  /** The primary name if its record's owner is current, else the reverse name if its is. */
  function Found(s: State, live: Live, address: Str): Option<Str> {
    if CurrentIn(s, live, s.primary, address) then Some(s.primary[address])
    else if CurrentIn(s, live, s.reverse, address) then Some(s.reverse[address])
    else None
  }

  /** Consulted entries whose record's owner is not current are gone, and nothing else: the
      reverse entry is not consulted when the primary one answers. */
  function Cleaned(s: State, live: Live, address: Str): State {
    if CurrentIn(s, live, s.primary, address) then s
    else if CurrentIn(s, live, s.reverse, address) then s.(primary := s.primary - {address})
    else s.(primary := s.primary - {address}, reverse := s.reverse - {address})
  }

  /** With sound tables the owner check alone decides answer and removals. */
  lemma ReverseByOwner(s: State, live: Live, address: Str)
    requires Sound(s)
    ensures Reverse(s, live, address) == Answer(Cleaned(s, live, address), Found(s, live, address))
  {
    assert address in s.primary ==> PointsAt(s.forward, s.primary[address], address);
    assert address in s.reverse ==> PointsAt(s.forward, s.reverse[address], address);
    assert address !in s.primary ==> s.primary - {address} == s.primary;
    assert address !in s.reverse ==> s.reverse - {address} == s.reverse;
  }

  /** Hence in every reachable state `reverse` answers by ownership alone, and drops an entry
      only because the record's owner is no longer the registry's. */
  lemma OnlyOwnershipDiscards(calls: seq<Call>, live: Live, address: Str)
    ensures var s := Run(Fresh, calls);
            Reverse(s, live, address) == Answer(Cleaned(s, live, address), Found(s, live, address))
  {
    RunKeepsSound(calls);
    ReverseByOwner(Run(Fresh, calls), live, address);
  }

  /** After a registry transfer no look-up finds the name, from any address and at any time,
      until the record's owner is the new one: stale mappings do not survive. */
  lemma TransferHidesName(calls: seq<Call>, g: Registry.State, e: Registry.Event, ledger: U64, address: Str)
    requires e.call.TransferCall? && Registry.Settled(Registry.Outcome(g, e.call), e.nestedOk).Ok?
    requires Run(Fresh, calls).registry.Some?
    ensures var s, n := Run(Fresh, calls), e.call.name;
            Reverse(s, Live(Registry.Step(g, e).entries, ledger), address).name == Some(n) ==>
            n in s.forward && s.forward[n].owner == e.call.to
  {
    OnlyOwnershipDiscards(calls, Live(Registry.Step(g, e).entries, ledger), address);
    Registry.TransferEffect(g, e.call);
  }

  /** A name is found only from the default-chain address of its own record. */
  lemma FoundPointsBack(s: State, live: Live, address: Str)
    requires Sound(s) && Found(s, live, address).Some?
    ensures PointsAt(s.forward, Found(s, live, address).value, address)
  {
  }

  /** An address whose entries are the same, naming records with the same owners, finds the same name. */
  lemma SameEntriesSameAnswer(s: State, t: State, live: Live, a: Str)
    requires s.registry == t.registry
    requires a in s.primary <==> a in t.primary
    requires a in s.reverse <==> a in t.reverse
    requires a in s.primary ==> t.primary[a] == s.primary[a] && SameOwner(s, t, s.primary[a])
    requires a in s.reverse ==> t.reverse[a] == s.reverse[a] && SameOwner(s, t, s.reverse[a])
    ensures Found(t, live, a) == Found(s, live, a)
  {
  }

  predicate SameOwner(s: State, t: State, n: Str) {
    && (n in s.forward <==> n in t.forward)
    && (n in s.forward ==> t.forward[n].owner == s.forward[n].owner)
  }

  /** No address but the record's own finds the name. */
  lemma FoundFromItsAddress(s: State, name: Str, address: Str, live: Live, a: Str)
    requires Sound(s) && PointsAt(s.forward, name, address)
    ensures Reverse(s, live, a).name == Some(name) ==> a == address
  {
    ReverseByOwner(s, live, a);
    if Found(s, live, a) == Some(name) {
      FoundPointsBack(s, live, a);
    }
  }

  /** What the calls that point an address at a name leave. */
  lemma PointingWrites(s: State, c: Call)
    requires (c.SetRecordCall? || (c.SetAddressCall? && c.chain == STELLAR)) && Outcome(s, c).Ok?
    ensures var t := Outcome(s, c).value;
            && PointsAt(t.forward, c.name, c.address)
            && c.address in t.reverse && t.reverse[c.address] == c.name
            && t.forward[c.name].owner == (if c.SetRecordCall? then c.owner else s.forward[c.name].owner)
  {
  }

  /** What a look-up of `address` answers, whenever it is made, once `address` points at `name`:
      a current primary name, else `name` as long as the record's owner is the registry's. */
  function PointedAnswer(t: State, later: Live, address: Str, name: Str): Option<Str>
    requires name in t.forward
  {
    if CurrentIn(t, later, t.primary, address) then Some(t.primary[address])
    else if OwnerCurrent(t, later, name) then Some(name)
    else None
  }

  /** Setting a record and looking its address up, whatever the registry says by then. No other
      address finds the name any more. */
  lemma SetRecordRoundTrip(s: State, c: Call, later: Live, a: Str)
    requires Sound(s) && c.SetRecordCall? && Outcome(s, c).Ok?
    ensures var t := Outcome(s, c).value;
            && c.name in t.forward && t.forward[c.name].owner == c.owner
            && Reverse(t, later, c.address).name == PointedAnswer(t, later, c.address, c.name)
            && (Reverse(t, later, a).name == Some(c.name) ==> a == c.address)
  {
    OutcomeKeepsSound(s, c);
    PointingWrites(s, c);
    ReverseByOwner(Outcome(s, c).value, later, c.address);
    FoundFromItsAddress(Outcome(s, c).value, c.name, c.address, later, a);
  }

  /** Changing the default-chain address does the same, for the owner the record already names,
      who need not be the caller. */
  lemma SetAddressRoundTrip(s: State, c: Call, later: Live, a: Str)
    requires Sound(s) && c.SetAddressCall? && c.chain == STELLAR && Outcome(s, c).Ok?
    ensures var t := Outcome(s, c).value;
            && c.name in t.forward && t.forward[c.name].owner == s.forward[c.name].owner
            && Reverse(t, later, c.address).name == PointedAnswer(t, later, c.address, c.name)
            && (Reverse(t, later, a).name == Some(c.name) ==> a == c.address)
  {
    OutcomeKeepsSound(s, c);
    PointingWrites(s, c);
    ReverseByOwner(Outcome(s, c).value, later, c.address);
    FoundFromItsAddress(Outcome(s, c).value, c.name, c.address, later, a);
  }

  lemma OtherDataKeepsTables(s: State, c: Call, n: Str)
    requires (c.SetTextCall? || (c.SetAddressCall? && c.chain != STELLAR)) && Outcome(s, c).Ok?
    ensures Outcome(s, c).value == s.(forward := Outcome(s, c).value.forward) && SameOwner(s, Outcome(s, c).value, n)
  {
  }

  lemma SameOwnersSameLookUps(s: State, t: State, other: Live, a: Str)
    requires Sound(s) && Sound(t) && t == s.(forward := t.forward) && forall n :: SameOwner(s, t, n)
    ensures Reverse(t, other, a).name == Reverse(s, other, a).name
  {
    ReverseByOwner(s, other, a);
    ReverseByOwner(t, other, a);
    SameEntriesSameAnswer(s, t, other, a);
  }

  /** Addresses on other chains and text records do not interfere with look-ups. */
  lemma OtherDataLeavesLookUps(s: State, c: Call, other: Live, a: Str)
    requires Sound(s) && (c.SetTextCall? || (c.SetAddressCall? && c.chain != STELLAR)) && Outcome(s, c).Ok?
    ensures Reverse(Outcome(s, c).value, other, a).name == Reverse(s, other, a).name
  {
    var t := Outcome(s, c).value;
    OutcomeKeepsSound(s, c);
    forall n ensures SameOwner(s, t, n) && t == s.(forward := t.forward) {
      OtherDataKeepsTables(s, c, n);
    }
    SameOwnersSameLookUps(s, t, other, a);
  }

  /** A primary name is what a look-up answers, whenever it is made, iff the owner the record
      names is then the registry's. */
  lemma SetPrimaryRoundTrip(s: State, c: Call, later: Live)
    requires Sound(s) && c.SetPrimaryCall? && Outcome(s, c).Ok?
    ensures Reverse(Outcome(s, c).value, later, c.address).name == Some(c.name) <==> OwnerCurrent(s, later, c.name)
  {
    OutcomeKeepsSound(s, c);
    ReverseByOwner(Outcome(s, c).value, later, c.address);
  }

  /** Only the entries of the removed record's own address go; the others name other records. */
  lemma RemovalKeepsEntries(s: State, c: Call, a: Str)
    requires Sound(s) && c.RemoveCall? && Outcome(s, c).Ok? && StellarOf(s.forward[c.name]) != Some(a)
    ensures var t := Outcome(s, c).value;
            && s.registry == t.registry
            && (a in s.primary <==> a in t.primary) && (a in s.reverse <==> a in t.reverse)
            && (a in s.primary ==> t.primary[a] == s.primary[a] && SameOwner(s, t, s.primary[a]))
            && (a in s.reverse ==> t.reverse[a] == s.reverse[a] && SameOwner(s, t, s.reverse[a]))
  {
    assert a in s.primary ==> PointsAt(s.forward, s.primary[a], a);
    assert a in s.reverse ==> PointsAt(s.forward, s.reverse[a], a);
  }

  /** After a removal no look-up finds the name, whatever the registry says later, and every
      address but the record's own finds what it found before. */
  lemma RemovalLeavesNoTrace(s: State, c: Call, other: Live, a: Str)
    requires Sound(s) && c.RemoveCall? && Outcome(s, c).Ok?
    ensures var t := Outcome(s, c).value;
            && Reverse(t, other, a).name != Some(c.name)
            && (StellarOf(s.forward[c.name]) != Some(a) ==> Reverse(t, other, a).name == Reverse(s, other, a).name)
  {
    var t := Outcome(s, c).value;
    OutcomeKeepsSound(s, c);
    ReverseByOwner(s, other, a);
    ReverseByOwner(t, other, a);
    if StellarOf(s.forward[c.name]) != Some(a) {
      RemovalKeepsEntries(s, c, a);
      SameEntriesSameAnswer(s, t, other, a);
    }
  }

  /** After the registry's clean-up the previous owner's address no longer finds the name, and
      every other address finds what it found before. */
  lemma ClearingForgets(s: State, c: Call, other: Live, a: Str)
    requires Sound(s) && c.ClearCall? && Outcome(s, c).Ok?
    ensures var t := Outcome(s, c).value;
            if a == c.previousOwner.key then Reverse(t, other, a).name != Some(c.name)
            else Reverse(t, other, a).name == Reverse(s, other, a).name
  {
    var t := Outcome(s, c).value;
    OutcomeKeepsSound(s, c);
    ReverseByOwner(s, other, a);
    ReverseByOwner(t, other, a);
    if a != c.previousOwner.key {
      SameEntriesSameAnswer(s, t, other, a);
    }
  }

  /** A second look-up finds the same answer and has nothing left to clean. */
  lemma ReverseIdempotent(s: State, live: Live, address: Str)
    ensures var once := Reverse(s, live, address);
            Reverse(once.state, live, address) == once
  {
  }

  // ----- a batch is its operations in sequence -----

  /** One operation through the single-operation entry points. */
  function Single(s: State, auth: set<Address>, book: Book, name: Str, caller: Address, op: BatchOp, now: U64)
    : Result<State, Error>
  {
    match op
    case SetAddressOp(address) => SetAddress(s, auth, book, name, caller, STELLAR, address, now)
    case SetTextOp(key, value) => SetText(s, auth, book, name, caller, key, value, now)
  }

  /** All of them in order, failures ignored, successes counted. */
  function Singles(s: State, auth: set<Address>, book: Book, name: Str, caller: Address, ops: seq<BatchOp>, now: U64)
    : Batch
  {
    if ops == [] then Batch(s, 0)
    else
      var before := Singles(s, auth, book, name, caller, ops[..|ops| - 1], now);
      match Single(before.state, auth, book, name, caller, ops[|ops| - 1], now)
      case Err(_) => before
      case Ok(t) => Batch(t, before.applied + 1)
  }

  /** The sequential state and the batch cursor agree but for the time stamp. */
  ghost predicate InStep(s: State, name: Str, seqn: Batch, c: Cursor, now: U64) {
    && seqn.applied == c.applied
    && name in seqn.state.forward
    && seqn.state == c.tables.(forward := s.forward[name := seqn.state.forward[name]])
    && seqn.state.forward[name] == c.record.(updatedAt := seqn.state.forward[name].updatedAt)
    && (c.applied > 0 ==> seqn.state.forward[name].updatedAt == now)
    && c.tables.registry == s.registry && c.tables.forward == s.forward && c.tables.wildcard == s.wildcard
    && name in s.forward && c.record.owner == s.forward[name].owner
  }

  lemma SingleInStep(s: State, auth: set<Address>, book: Book, name: Str, caller: Address, op: BatchOp, now: U64,
                     before: Batch, c: Cursor)
    requires name in s.forward && caller in auth && AssertOwner(s, Live(book, now), name, s.forward[name], caller).Ok?
    requires InStep(s, name, before, c, now)
    ensures var one := Single(before.state, auth, book, name, caller, op, now);
            InStep(s, name, if one.Ok? then Batch(one.value, before.applied + 1) else before, ApplyOp(c, name, op), now)
  {
  }

  lemma {:induction false} SinglesInStep(s: State, auth: set<Address>, book: Book, name: Str, caller: Address,
                                         ops: seq<BatchOp>, now: U64)
    requires name in s.forward && caller in auth && AssertOwner(s, Live(book, now), name, s.forward[name], caller).Ok?
    ensures InStep(s, name, Singles(s, auth, book, name, caller, ops, now),
                   ApplyAll(Cursor(s.forward[name], s, 0), name, ops), now)
  {
    if ops == [] {
      assert s.forward[name := s.forward[name]] == s.forward;
    } else {
      var front, last := ops[..|ops| - 1], ops[|ops| - 1];
      SinglesInStep(s, auth, book, name, caller, front, now);
      SingleInStep(s, auth, book, name, caller, last, now,
                   Singles(s, auth, book, name, caller, front, now),
                   ApplyAll(Cursor(s.forward[name], s, 0), name, front));
    }
  }

  /** `batch_set` refines its operations in sequence: the same tables, the same record but
      for the time stamp, and the number of successes as its answer; when anything succeeds
      the two states are identical. */
  lemma BatchRefinesSingles(s: State, auth: set<Address>, book: Book, name: Str, caller: Address, ops: seq<BatchOp>,
                            now: U64)
    requires BatchSet(s, auth, book, name, caller, ops, now).Ok?
    ensures var b := BatchSet(s, auth, book, name, caller, ops, now).value;
            var q := Singles(s, auth, book, name, caller, ops, now);
            && b.applied == q.applied
            && name in q.state.forward
            && b.state == q.state.(forward := q.state.forward[name := q.state.forward[name].(updatedAt := now)])
            && (b.applied > 0 ==> b.state == q.state)
  {
    SinglesInStep(s, auth, book, name, caller, ops, now);
    var q := Singles(s, auth, book, name, caller, ops, now);
    var r := q.state.forward[name];
    assert q.state.forward[name := r.(updatedAt := now)] == s.forward[name := r.(updatedAt := now)];
  }

  // ----- who may change a record -----

  /** `who` is the owner that counts: with a registry the one it names at that clock, otherwise
      the record's. */
  predicate Rules(s: State, live: Live, n: Str, who: Address) {
    if s.registry.Some? then live.HeldBy(n, who)
    else n in s.forward ==> s.forward[n].owner == who
  }

  /** The only ways the forward record of `n` changes: the owner that counts at the clock the
      call asks with acts, or the address the record names passes it on, which no registry is
      asked about. */
  predicate MayChange(s: State, c: Call, n: Str) {
    && c.Writes() && c.name == n && c.Actor() in c.auth && (c.SetRecordCall? ==> IsFqdn(n))
    && if c.TransferOwnerCall? then n in s.forward && s.forward[n].owner == c.caller
       else Rules(s, Live(c.book, c.Clock()), n, c.Actor())
  }

  predicate SameRecord(s: State, t: State, n: Str) {
    && (n in s.forward <==> n in t.forward)
    && (n in s.forward ==> t.forward[n] == s.forward[n])
  }

  /** Calls that look a name up, point at it or forget it leave the records alone. */
  lemma TablesOnly(s: State, c: Call, n: Str)
    requires !c.Writes() && Outcome(s, c).Ok?
    ensures SameRecord(s, Outcome(s, c).value, n)
  {
  }

  lemma BatchIsAuthorized(s: State, c: Call, n: Str)
    requires c.BatchCall? && Outcome(s, c).Ok? && !SameRecord(s, Outcome(s, c).value, n)
    ensures MayChange(s, c, n)
  {
  }

  lemma WriteIsAuthorized(s: State, c: Call, n: Str)
    requires c.Writes() && !c.BatchCall?
    requires Outcome(s, c).Ok? && !SameRecord(s, Outcome(s, c).value, n)
    ensures MayChange(s, c, n)
  {
  }

  lemma ChangeIsAuthorized(s: State, c: Call, n: Str)
    requires Outcome(s, c).Ok? && !SameRecord(s, Outcome(s, c).value, n)
    ensures MayChange(s, c, n)
  {
    if c.BatchCall? {
      BatchIsAuthorized(s, c, n);
    } else if c.Writes() {
      WriteIsAuthorized(s, c, n);
    } else {
      TablesOnly(s, c, n);
    }
  }

  /** The call at `i` is where the record of `n` first differs from what it was, in one of
      those ways. */
  ghost predicate ChangesAt(s: State, calls: seq<Call>, n: Str, i: nat)
    requires i < |calls|
  {
    && SameRecord(s, Run(s, calls[..i]), n) && !SameRecord(s, Run(s, calls[..i + 1]), n)
    && MayChange(Run(s, calls[..i]), calls[i], n)
  }

  lemma StepChanges(s: State, before: State, c: Call, n: Str)
    requires SameRecord(s, before, n) && !SameRecord(s, Commit(before, Outcome(before, c)), n)
    ensures MayChange(before, c, n)
  {
    ChangeIsAuthorized(before, c, n);
  }

  lemma LastStepChanges(s: State, calls: seq<Call>, n: Str)
    requires calls != [] && SameRecord(s, Run(s, calls[..|calls| - 1]), n) && !SameRecord(s, Run(s, calls), n)
    ensures ChangesAt(s, calls, n, |calls| - 1)
  {
    StepChanges(s, Run(s, calls[..|calls| - 1]), calls[|calls| - 1], n);
    assert calls[..|calls| - 1 + 1] == calls;
  }

  lemma ChangesAtExtends(s: State, calls: seq<Call>, n: Str, i: nat)
    requires i + 1 < |calls| && ChangesAt(s, calls[..|calls| - 1], n, i)
    ensures ChangesAt(s, calls, n, i)
  {
    var front := calls[..|calls| - 1];
    assert front[..i] == calls[..i] && front[..i + 1] == calls[..i + 1] && front[i] == calls[i];
  }

  /** Over any run from any state: if a name's forward record is not what it was, the step
      that changed it was one of the calls of `MayChange`: an authorized call by the owner that
      counted at that point, or the record owner's own transfer of the record. */
  lemma {:induction false} RecordSafety(s: State, calls: seq<Call>, n: Str)
    requires !SameRecord(s, Run(s, calls), n)
    ensures exists i :: 0 <= i < |calls| && ChangesAt(s, calls, n, i)
  {
    var front := calls[..|calls| - 1];
    if SameRecord(s, Run(s, front), n) {
      LastStepChanges(s, calls, n);
    } else {
      RecordSafety(s, front, n);
      var i :| 0 <= i < |front| && ChangesAt(s, front, n, i);
      ChangesAtExtends(s, calls, n, i);
    }
  }

  // ----- writers who are not the current owner -----

  /** A step changed the record of `n` although the actor is not the owner that counts when the
      ledger's time is `ledger`; `book` holds the registry's entries at that moment. */
  ghost predicate Unruled(s: State, book: Book, ledger: U64, c: Call, n: Str) {
    && Outcome(s, c).Ok? && !SameRecord(s, Outcome(s, c).value, n)
    && !(c.Writes() && Rules(s, Live(book, ledger), n, c.Actor()))
  }

  /** With a registry there are exactly two ways: the address the record names passes the record
      on while the registry names somebody else or nobody; or the name has expired, and its last
      holder asks at an earlier clock, as every other call lets him. */
  lemma UnruledIff(s: State, book: Book, ledger: U64, c: Call, n: Str)
    requires s.registry.Some? && (c.Writes() && !c.TransferOwnerCall? ==> c.book == book)
    requires Outcome(s, c).Ok? && !SameRecord(s, Outcome(s, c).value, n)
    ensures c.Writes() && c.name == n && (!c.TransferOwnerCall? ==> n in book && book[n].owner == c.Actor())
    ensures Unruled(s, book, ledger, c, n) <==>
            if c.TransferOwnerCall? then !Live(book, ledger).HeldBy(n, c.caller) else book[n].expiresAt < ledger
  {
    ChangeIsAuthorized(s, c, n);
  }

  /** In the first way only the owner field changes. */
  lemma PassingOnIsAll(s: State, c: Call)
    requires c.TransferOwnerCall? && Outcome(s, c).Ok?
    ensures c.name in s.forward && s.forward[c.name].owner == c.caller
    ensures Outcome(s, c).value == s.(forward := s.forward[c.name := s.forward[c.name].(owner := c.to)])
  {
  }

  /** `alice` has set a record while the registry names her. */
  function AliceHasRecord(registry: Address, book: Book, n: Str, address: Str, alice: Address): State {
    Run(Fresh, [InitCall(registry), SetRecordCall({alice}, book, n, alice, address, 0)])
  }

  lemma AliceOwnsRecord(registry: Address, book: Book, n: Str, address: Str, alice: Address)
    requires IsFqdn(n) && n in book && book[n].owner == alice
    ensures var s := AliceHasRecord(registry, book, n, address, alice);
            s.registry == Some(registry) && n in s.forward && s.forward[n].owner == alice
  {
    var first, second := InitCall(registry), SetRecordCall({alice}, book, n, alice, address, 0);
    assert [first, second][..1] == [first];
    assert Run(Fresh, [first]) == Fresh.(registry := Some(registry)) by {
      assert [first][..0] == [];
    }
  }

  /** The first way happens: Alice sets her record, the registry passes the name to Bob, and
      Alice still makes Mallory the owner of the record. */
  lemma StaleOwnerPassesRecordOn(
    registry: Address, n: Str, address: Str, alice: Address, mallory: Address, before: Book, after: Book, ledger: U64)
    requires IsFqdn(n) && n in before && n in after && before[n].owner == alice != after[n].owner && alice != mallory
    ensures var s := AliceHasRecord(registry, before, n, address, alice);
            Unruled(s, after, ledger, TransferOwnerCall({alice}, n, alice, mallory), n)
  {
    AliceOwnsRecord(registry, before, n, address, alice);
  }

  /** So does the second: once the name has expired, Alice can still pass its record on or
      remove it. */
  lemma ExpiredHolderStillWrites(
    registry: Address, n: Str, address: Str, alice: Address, mallory: Address, book: Book, ledger: U64)
    requires IsFqdn(n) && n in book && book[n].owner == alice != mallory && book[n].expiresAt < ledger
    ensures var s := AliceHasRecord(registry, book, n, address, alice);
            && Unruled(s, book, ledger, UpdateOwnerCall({alice}, book, n, alice, mallory), n)
            && Unruled(s, book, ledger, RemoveCall({alice}, book, n, alice), n)
  {
    AliceOwnsRecord(registry, book, n, address, alice);
  }

  // ----- text record bounds -----

  ghost predicate Bounded(r: Record) {
    && |r.texts| <= MAX_TEXT_RECORDS
    && forall k :: k in r.texts ==> ValidKey(k) && |r.texts[k]| <= MAX_TEXT_VALUE
  }

  ghost predicate AllBounded(s: State) {
    forall n :: n in s.forward ==> Bounded(s.forward[n])
  }

  lemma AddTextBounded(r: Record, key: Str, value: Str)
    requires Bounded(r) && ValidKey(key) && |value| <= MAX_TEXT_VALUE && Fits(r, key)
    ensures Bounded(r.(texts := r.texts[key := value]))
  {
  }

  lemma {:induction false} ApplyAllBounded(c: Cursor, name: Str, ops: seq<BatchOp>)
    requires Bounded(c.record)
    ensures Bounded(ApplyAll(c, name, ops).record)
  {
    if ops != [] {
      ApplyAllBounded(c, name, ops[..|ops| - 1]);
      var before, op := ApplyAll(c, name, ops[..|ops| - 1]), ops[|ops| - 1];
      if op.SetTextOp? && ApplyOp(before, name, op) != before {
        AddTextBounded(before.record, op.key, op.value);
      }
    }
  }

  predicate TextsKept(s: State, t: State, n: Str) {
    n in t.forward ==> t.forward[n].texts == map[] || (n in s.forward && t.forward[n].texts == s.forward[n].texts)
  }

  /** Calls that do not edit text records carry them over. */
  lemma OtherWritesKeepTexts(s: State, c: Call, n: Str)
    requires c.Writes() && !c.SetTextCall? && !c.BatchCall? && Outcome(s, c).Ok?
    ensures TextsKept(s, Outcome(s, c).value, n)
  {
  }

  lemma OtherCallsKeepTexts(s: State, c: Call, n: Str)
    requires !c.SetTextCall? && !c.BatchCall? && Outcome(s, c).Ok?
    ensures TextsKept(s, Outcome(s, c).value, n)
  {
    if c.Writes() {
      OtherWritesKeepTexts(s, c, n);
    } else {
      TablesOnly(s, c, n);
    }
  }

  lemma SetTextKeepsBounds(s: State, c: Call)
    requires AllBounded(s) && c.SetTextCall? && Outcome(s, c).Ok?
    ensures AllBounded(Outcome(s, c).value)
  {
    AddTextBounded(s.forward[c.name], c.key, c.value);
  }

  lemma BatchKeepsBounds(s: State, c: Call)
    requires AllBounded(s) && c.BatchCall? && Outcome(s, c).Ok?
    ensures AllBounded(Outcome(s, c).value)
  {
    ApplyAllBounded(Cursor(s.forward[c.name], s, 0), c.name, c.ops);
  }

  lemma OutcomeKeepsBounds(s: State, c: Call)
    requires AllBounded(s) && Outcome(s, c).Ok?
    ensures AllBounded(Outcome(s, c).value)
  {
    if c.SetTextCall? {
      SetTextKeepsBounds(s, c);
    } else if c.BatchCall? {
      BatchKeepsBounds(s, c);
    } else {
      var t := Outcome(s, c).value;
      forall n | n in t.forward ensures Bounded(t.forward[n]) {
        OtherCallsKeepTexts(s, c, n);
      }
    }
  }

  // ----- names of forward records -----

  ghost predicate Named(s: State) {
    forall n :: n in s.forward ==> IsFqdn(n)
  }

  lemma OutcomeNames(s: State, c: Call)
    requires Outcome(s, c).Ok?
    ensures Outcome(s, c).value.forward.Keys <= s.forward.Keys
            + (if c.SetRecordCall? && IsFqdn(c.name) then {c.name} else {})
  {
  }

  /** In every run the text records stay within their bounds, and every forward record
      belongs to an accepted name. */
  lemma {:induction false} RunKeepsBoundsAndNames(calls: seq<Call>)
    ensures AllBounded(Run(Fresh, calls)) && Named(Run(Fresh, calls))
  {
    if calls != [] {
      var before, last := Run(Fresh, calls[..|calls| - 1]), calls[|calls| - 1];
      RunKeepsBoundsAndNames(calls[..|calls| - 1]);
      if Outcome(before, last).Ok? {
        OutcomeKeepsBounds(before, last);
        OutcomeNames(before, last);
      }
    }
  }
}
