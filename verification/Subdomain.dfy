/**
 The subdomain contract: records under registered parents, listed per parent and per
 owner. A parent that is no longer active in the registry has its namespace purged.
 */
module Subdomain {
  import opened Common
  import opened Names
  import Index

  const BUFFER_SIZE := 256

  datatype Parent = Parent(owner: Address, controllers: seq<Address>)

  datatype Record = Record(parent: Str, owner: Address, createdAt: U64)

  /** `Trap` stands for a failed authorization or a buffer overrun. */
  datatype Error = Validation | ParentNotFound | AlreadyExists | NotFound | Unauthorized | DepthLimitExceeded | Trap

  datatype State = State(
    admin: Option<Address>,
    registry: Option<Address>,
    maxDepth: U32,
    parents: map<Str, Parent>,
    records: map<Str, Record>,
    byParent: Index.Lists<Str, Str>,
    byOwner: Index.Lists<Address, Str>)

  const Fresh := State(None, None, 3, map[], map[], map[], map[])

  /** The names active in the registry at the ledger's time, with their owners. */
  type Live = map<Str, Address>

  // ----- the purge -----

  predicate ActiveParent(s: State, live: Live, parent: Str) {
    s.registry.None? || parent in live
  }

  /** Names that are not a record under `parent`. */
  function Outside(records: map<Str, Record>, parent: Str): Str -> bool {
    n => !(n in records && records[n].parent == parent)
  }

  function FilterEach<K>(lists: Index.Lists<K, Str>, keep: Str -> bool): Index.Lists<K, Str> {
    map k | k in lists :: Filter(lists[k], keep)
  }

  /** Exactly the namespace of `parent` disappears: its records, its list, its entry, and its
      names from the owners' lists. */
  function Purge(s: State, parent: Str): State {
    s.(parents := s.parents - {parent},
       records := map n | n in s.records && s.records[n].parent != parent :: s.records[n],
       byParent := s.byParent - {parent},
       byOwner := FilterEach(s.byOwner, Outside(s.records, parent)))
  }

  /** The three queries that check a parent leave the purge behind. */
  function Look(s: State, live: Live, parent: Str): State {
    if ActiveParent(s, live, parent) then s else Purge(s, parent)
  }

  // ----- entry points -----

  function Initialize(s: State, admin: Address): Result<State, Error> {
    if s.admin.Some? then Err(AlreadyExists) else Ok(s.(admin := Some(admin), maxDepth := 3))
  }

  function AdminCheck(s: State, auth: set<Address>): Result<(), Error> {
    if s.admin.None? then Err(Unauthorized) else Check(s.admin.value in auth, Trap)
  }

  function SetRegistry(s: State, auth: set<Address>, registry: Address): Result<State, Error> {
    var _ :- AdminCheck(s, auth);
    Ok(s.(registry := Some(registry)))
  }

  function SetMaxDepth(s: State, auth: set<Address>, depth: U32): Result<State, Error> {
    var _ :- AdminCheck(s, auth);
    Ok(s.(maxDepth := depth))
  }

  function RegisterParent(s: State, auth: set<Address>, live: Live, parent: Str, owner: Address): Result<State, Error> {
    var _ :- Check(owner in auth, Trap);
    var _ :- Check(IsFqdn(parent) && ValidateBaseName(parent).Ok?, Validation);
    var clean :- ClearedFor(s, live, parent, owner);
    Ok(clean.(parents := clean.parents[parent := Parent(owner, [])]))
  }

  /** A parent taken over by a new registry owner starts from an empty namespace. */
  function ClearedFor(s: State, live: Live, parent: Str, owner: Address): Result<State, Error> {
    if s.registry.None? then
      if parent in s.parents then Err(AlreadyExists) else Ok(s)
    else if parent !in live then Err(ParentNotFound)
    else if live[parent] != owner then Err(Unauthorized)
    else if parent !in s.parents then Ok(s)
    else if s.parents[parent].owner != owner then Ok(Purge(s, parent))
    else Err(AlreadyExists)
  }

  function GetParent(s: State, live: Live, parent: Str): Result<Parent, Error> {
    if !ActiveParent(s, live, parent) || parent !in s.parents then Err(ParentNotFound) else Ok(s.parents[parent])
  }

  function AddController(s: State, auth: set<Address>, live: Live, parent: Str, caller: Address, controller: Address)
    : Result<State, Error>
  {
    var _ :- Check(caller in auth, Trap);
    var p :- GetParent(s, live, parent);
    var _ :- Check(p.owner == caller, Unauthorized);
    if controller in p.controllers then Ok(s)
    else Ok(s.(parents := s.parents[parent := p.(controllers := p.controllers + [controller])]))
  }

  function RemoveController(s: State, auth: set<Address>, live: Live, parent: Str, caller: Address, controller: Address)
    : Result<State, Error>
  {
    var _ :- Check(caller in auth, Trap);
    var p :- GetParent(s, live, parent);
    var _ :- Check(p.owner == caller, Unauthorized);
    if controller !in p.controllers then Ok(s)
    else Ok(s.(parents := s.parents[parent := p.(controllers := WithoutFirst(p.controllers, controller))]))
  }

  predicate Controls(p: Parent, caller: Address) {
    p.owner == caller || caller in p.controllers
  }

  function CountDots(s: Str): nat {
    if s == [] then 0 else CountDots(s[..|s| - 1]) + (if s[|s| - 1] == DOT then 1 else 0)
  }

  function Depth(lbl: Str): nat {
    if lbl == [] then 0 else 1 + CountDots(lbl)
  }

  function Fqdn(lbl: Str, parent: Str): Str {
    lbl + [DOT] + parent
  }

  /** The new record, filed under its parent and its owner. */
  function Filed(s: State, fqdn: Str, record: Record): State {
    s.(records := s.records[fqdn := record],
       byParent := Index.Add(s.byParent, record.parent, fqdn),
       byOwner := Index.Add(s.byOwner, record.owner, fqdn))
  }

  function Create(s: State, auth: set<Address>, live: Live, lbl: Str, parent: Str, caller: Address, owner: Address,
                  now: U64)
    : Result<State, Error>
  {
    var _ :- Check(caller in auth, Trap);
    var p :- GetParent(s, live, parent);
    var _ :- Check(Controls(p, caller), Unauthorized);
    var _ :- Check(|lbl| <= BUFFER_SIZE && |parent| <= BUFFER_SIZE, Trap);
    var _ :- Check(Depth(lbl) <= s.maxDepth || lbl == [], DepthLimitExceeded);
    var _ :- Check(|Fqdn(lbl, parent)| <= BUFFER_SIZE, Trap);
    var _ :- Check(Fqdn(lbl, parent) !in s.records, AlreadyExists);
    Ok(Filed(s, Fqdn(lbl, parent), Record(parent, owner, now)))
  }

  function Transfer(s: State, auth: set<Address>, live: Live, fqdn: Str, caller: Address, to: Address)
    : Result<State, Error>
  {
    var _ :- Check(caller in auth, Trap);
    var _ :- Check(fqdn in s.records, NotFound);
    var r := s.records[fqdn];
    var _ :- Check(ActiveParent(s, live, r.parent), ParentNotFound);
    var _ :- Check(r.owner == caller, Unauthorized);
    Ok(s.(records := s.records[fqdn := r.(owner := to)],
          byOwner := Index.Add(Index.RemoveFirst(s.byOwner, r.owner, fqdn), to, fqdn)))
  }

  function Dropped(s: State, fqdn: Str): State
    requires fqdn in s.records
  {
    s.(records := s.records - {fqdn},
       byParent := Index.RemoveFirst(s.byParent, s.records[fqdn].parent, fqdn),
       byOwner := Index.RemoveFirst(s.byOwner, s.records[fqdn].owner, fqdn))
  }

  function Delete(s: State, auth: set<Address>, live: Live, fqdn: Str, caller: Address): Result<State, Error> {
    var _ :- Check(caller in auth, Trap);
    var _ :- Check(fqdn in s.records, NotFound);
    var r := s.records[fqdn];
    var _ :- Check(ActiveParent(s, live, r.parent), ParentNotFound);
    if r.owner == caller then Ok(Dropped(s, fqdn))
    else
      var p :- GetParent(s, live, r.parent);
      var _ :- Check(Controls(p, caller), Unauthorized);
      Ok(Dropped(s, fqdn))
  }

  function Revoke(s: State, auth: set<Address>, live: Live, fqdn: Str, caller: Address): Result<State, Error> {
    var _ :- Check(caller in auth, Trap);
    var _ :- Check(fqdn in s.records, NotFound);
    var r := s.records[fqdn];
    var _ :- Check(ActiveParent(s, live, r.parent), ParentNotFound);
    var parent := GetParent(s, live, r.parent);
    var _ :- Check(r.owner == caller || (parent.Ok? && Controls(parent.value, caller)), Unauthorized);
    Ok(Dropped(s, fqdn))
  }

  function LookUp(s: State, live: Live, fqdn: Str): State {
    if fqdn in s.records then Look(s, live, s.records[fqdn].parent) else s
  }

  // ----- runs -----

  datatype Call =
    | InitCall(admin: Address)
    | SetRegistryCall(auth: set<Address>, registry: Address)
    | SetMaxDepthCall(auth: set<Address>, depth: U32)
    | RegisterParentCall(auth: set<Address>, live: Live, parent: Str, owner: Address)
    | AddControllerCall(auth: set<Address>, live: Live, parent: Str, caller: Address, controller: Address)
    | RemoveControllerCall(auth: set<Address>, live: Live, parent: Str, caller: Address, controller: Address)
    | CreateCall(auth: set<Address>, live: Live, lbl: Str, parent: Str, caller: Address, owner: Address, now: U64)
    | TransferCall(auth: set<Address>, live: Live, fqdn: Str, caller: Address, to: Address)
    | DeleteCall(auth: set<Address>, live: Live, fqdn: Str, caller: Address)
    | RevokeCall(auth: set<Address>, live: Live, fqdn: Str, caller: Address)
    | LookUpCall(live: Live, fqdn: Str)
    | LookCall(live: Live, parent: Str)

  function Outcome(s: State, c: Call): Result<State, Error> {
    match c
    case InitCall(admin) => Initialize(s, admin)
    case SetRegistryCall(auth, registry) => SetRegistry(s, auth, registry)
    case SetMaxDepthCall(auth, depth) => SetMaxDepth(s, auth, depth)
    case RegisterParentCall(auth, live, parent, owner) => RegisterParent(s, auth, live, parent, owner)
    case AddControllerCall(auth, live, parent, caller, controller) =>
      AddController(s, auth, live, parent, caller, controller)
    case RemoveControllerCall(auth, live, parent, caller, controller) =>
      RemoveController(s, auth, live, parent, caller, controller)
    case CreateCall(auth, live, lbl, parent, caller, owner, now) =>
      Create(s, auth, live, lbl, parent, caller, owner, now)
    case TransferCall(auth, live, fqdn, caller, to) => Transfer(s, auth, live, fqdn, caller, to)
    case DeleteCall(auth, live, fqdn, caller) => Delete(s, auth, live, fqdn, caller)
    case RevokeCall(auth, live, fqdn, caller) => Revoke(s, auth, live, fqdn, caller)
    case LookUpCall(live, fqdn) => Ok(LookUp(s, live, fqdn))
    case LookCall(live, parent) => Ok(Look(s, live, parent))
  }

  function Run(s: State, calls: seq<Call>): State {
    if calls == [] then s
    else
      var before := Run(s, calls[..|calls| - 1]);
      Commit(before, Outcome(before, calls[|calls| - 1]))
  }

  // ----- the invariant -----

  function ParentOf(records: map<Str, Record>): map<Str, Str> {
    map n | n in records :: records[n].parent
  }

  function OwnerOf(records: map<Str, Record>): map<Str, Address> {
    map n | n in records :: records[n].owner
  }

  /** `n` is some label, which may itself contain dots, followed by a dot and `parent`. */
  predicate Under(n: Str, parent: Str) {
    exists i :: 0 <= i < |n| && n[i] == DOT && n[i + 1..] == parent
  }

  /** Records, per-parent lists and per-owner lists are duplicate-free views of one relation;
      no record is orphaned, and each is named after its parent. */
  ghost predicate Inv(s: State) {
    && Index.Views(s.byParent, ParentOf(s.records))
    && Index.Views(s.byOwner, OwnerOf(s.records))
    && forall n :: n in s.records ==> s.records[n].parent in s.parents && Under(n, s.records[n].parent)
  }

  lemma FiledKeepsInv(s: State, fqdn: Str, record: Record)
    requires Inv(s) && fqdn !in s.records && record.parent in s.parents && Under(fqdn, record.parent)
    ensures Inv(Filed(s, fqdn, record))
  {
    var t := Filed(s, fqdn, record);
    Index.AddViews(s.byParent, ParentOf(s.records), record.parent, fqdn);
    Index.AddViews(s.byOwner, OwnerOf(s.records), record.owner, fqdn);
    assert ParentOf(t.records) == ParentOf(s.records)[fqdn := record.parent];
    assert OwnerOf(t.records) == OwnerOf(s.records)[fqdn := record.owner];
  }

  lemma DroppedKeepsInv(s: State, fqdn: Str)
    requires Inv(s) && fqdn in s.records
    ensures Inv(Dropped(s, fqdn))
  {
    var t := Dropped(s, fqdn);
    Index.RemoveFirstViews(s.byParent, ParentOf(s.records), s.records[fqdn].parent, fqdn);
    Index.RemoveFirstViews(s.byOwner, OwnerOf(s.records), s.records[fqdn].owner, fqdn);
    assert ParentOf(t.records) == ParentOf(s.records) - {fqdn};
    assert OwnerOf(t.records) == OwnerOf(s.records) - {fqdn};
  }

  lemma TransferKeepsInv(s: State, t: State, fqdn: Str, to: Address)
    requires Inv(s) && fqdn in s.records
    requires t == s.(records := s.records[fqdn := s.records[fqdn].(owner := to)],
                     byOwner := Index.Add(Index.RemoveFirst(s.byOwner, s.records[fqdn].owner, fqdn), to, fqdn))
    ensures Inv(t)
  {
    Index.RemoveFirstViews(s.byOwner, OwnerOf(s.records), s.records[fqdn].owner, fqdn);
    Index.MoveViews(s.byOwner, OwnerOf(s.records), s.records[fqdn].owner, to, fqdn);
    assert ParentOf(t.records) == ParentOf(s.records);
    assert OwnerOf(t.records) == OwnerOf(s.records)[fqdn := to];
  }

  lemma FilterEachViews(lists: Index.Lists<Address, Str>, keyOf: map<Str, Address>, keep: Str -> bool)
    requires Index.Views(lists, keyOf)
    ensures Index.Views(FilterEach(lists, keep), map n | n in keyOf && keep(n) :: keyOf[n])
  {
    var after, kept := FilterEach(lists, keep), map n | n in keyOf && keep(n) :: keyOf[n];
    forall k ensures Distinct(Index.Get(after, k)) {
      assert Distinct(Index.Get(lists, k));
      FilterDistinct(Index.Get(lists, k), keep);
    }
    forall k, x ensures x in Index.Get(after, k) <==> x in kept && kept[x] == k {
      FilterMembers(Index.Get(lists, k), keep);
      assert x in Index.Get(lists, k) <==> x in keyOf && keyOf[x] == k;
    }
  }

  lemma PurgeKeepsParentView(s: State, parent: Str)
    requires Index.Views(s.byParent, ParentOf(s.records))
    ensures Index.Views(Purge(s, parent).byParent, ParentOf(Purge(s, parent).records))
  {
    var parentOf := ParentOf(s.records);
    Index.DropKeyViews(s.byParent, parentOf, parent);
    assert ParentOf(Purge(s, parent).records) == Index.Except(parentOf, parent);
  }

  lemma PurgeKeepsOwnerView(s: State, parent: Str)
    requires Index.Views(s.byOwner, OwnerOf(s.records))
    ensures Index.Views(Purge(s, parent).byOwner, OwnerOf(Purge(s, parent).records))
  {
    var ownerOf, keep := OwnerOf(s.records), Outside(s.records, parent);
    FilterEachViews(s.byOwner, ownerOf, keep);
    assert OwnerOf(Purge(s, parent).records) == map n | n in ownerOf && keep(n) :: ownerOf[n];
  }

  lemma PurgeKeepsInv(s: State, parent: Str)
    requires Inv(s)
    ensures Inv(Purge(s, parent))
  {
    PurgeKeepsParentView(s, parent);
    PurgeKeepsOwnerView(s, parent);
  }

  function Unlisted(names: seq<Str>): Str -> bool {
    n => n !in names
  }

  lemma PurgeFiltersOwners(s: State, parent: Str, owner: Address)
    requires Inv(s)
    ensures Index.Get(Purge(s, parent).byOwner, owner) ==
            Filter(Index.Get(s.byOwner, owner), Unlisted(Index.Get(s.byParent, parent)))
  {
    var list, dead := Index.Get(s.byOwner, owner), Index.Get(s.byParent, parent);
    forall x | x in list ensures Outside(s.records, parent)(x) == Unlisted(dead)(x) {
      assert x in dead <==> x in ParentOf(s.records) && ParentOf(s.records)[x] == parent;
    }
    FilterAgree(list, Outside(s.records, parent), Unlisted(dead));
  }

  /** A purge empties the parent's namespace in all three views, and no other parent's record
      or list changes; each owner keeps exactly the names outside it, in order. */
  lemma PurgeIsExact(s: State, parent: Str, n: Str, other: Str, owner: Address)
    requires Inv(s)
    ensures var t := Purge(s, parent);
            && parent !in t.parents && Index.Get(t.byParent, parent) == []
            && (n in t.records <==> n in s.records && s.records[n].parent != parent)
            && (n in t.records ==> t.records[n] == s.records[n])
            && (other != parent ==>
                  && Index.Get(t.byParent, other) == Index.Get(s.byParent, other)
                  && (other in t.parents <==> other in s.parents)
                  && (other in t.parents ==> t.parents[other] == s.parents[other]))
            && Index.Get(t.byOwner, owner) ==
               Filter(Index.Get(s.byOwner, owner), Unlisted(Index.Get(s.byParent, parent)))
  {
    PurgeFiltersOwners(s, parent, owner);
  }

  lemma FqdnUnder(lbl: Str, parent: Str)
    ensures Under(Fqdn(lbl, parent), parent)
  {
    assert Fqdn(lbl, parent)[|lbl|] == DOT && Fqdn(lbl, parent)[|lbl| + 1..] == parent;
  }

  lemma RegisterParentKeepsInv(s: State, auth: set<Address>, live: Live, parent: Str, owner: Address)
    requires Inv(s) && RegisterParent(s, auth, live, parent, owner).Ok?
    ensures Inv(RegisterParent(s, auth, live, parent, owner).value)
  {
    PurgeKeepsInv(s, parent);
  }

  lemma ParentsOnlyKeepInv(s: State, t: State)
    requires Inv(s) && s.parents.Keys <= t.parents.Keys
    requires t.records == s.records && t.byParent == s.byParent && t.byOwner == s.byOwner
    ensures Inv(t)
  {
  }

  lemma CreateFiles(s: State, c: Call)
    requires c.CreateCall? && Outcome(s, c).Ok?
    ensures Outcome(s, c).value == Filed(s, Fqdn(c.lbl, c.parent), Record(c.parent, c.owner, c.now))
    ensures Fqdn(c.lbl, c.parent) !in s.records && c.caller in c.auth
            && (c.lbl == [] || 1 + CountDots(c.lbl) <= s.maxDepth)
    ensures Governs(s, c.parent, c.caller) && !Expired(s, c.live, c.parent)
  {
  }

  lemma CreateKeepsInv(s: State, c: Call)
    requires Inv(s) && c.CreateCall? && Outcome(s, c).Ok?
    ensures Inv(Outcome(s, c).value)
  {
    CreateFiles(s, c);
    FqdnUnder(c.lbl, c.parent);
    FiledKeepsInv(s, Fqdn(c.lbl, c.parent), Record(c.parent, c.owner, c.now));
  }

  lemma QuietCallsKeepInv(s: State, c: Call)
    requires Inv(s) && Outcome(s, c).Ok?
    requires c.InitCall? || c.SetRegistryCall? || c.SetMaxDepthCall? || c.AddControllerCall? || c.RemoveControllerCall?
    ensures Inv(Outcome(s, c).value)
  {
    ParentsOnlyKeepInv(s, Outcome(s, c).value);
  }

  lemma OutcomeKeepsInv(s: State, c: Call)
    requires Inv(s) && Outcome(s, c).Ok?
    ensures Inv(Outcome(s, c).value)
  {
    if c.RegisterParentCall? {
      RegisterParentKeepsInv(s, c.auth, c.live, c.parent, c.owner);
    } else if c.CreateCall? {
      CreateKeepsInv(s, c);
    } else if c.TransferCall? {
      TransferKeepsInv(s, Outcome(s, c).value, c.fqdn, c.to);
    } else if c.DeleteCall? || c.RevokeCall? {
      DroppedKeepsInv(s, c.fqdn);
    } else if c.LookUpCall? {
      if c.fqdn in s.records {
        PurgeKeepsInv(s, s.records[c.fqdn].parent);
      }
    } else if c.LookCall? {
      PurgeKeepsInv(s, c.parent);
    } else {
      QuietCallsKeepInv(s, c);
    }
  }

  lemma {:induction false} RunKeepsInv(calls: seq<Call>)
    ensures Inv(Run(Fresh, calls))
  {
    if calls == [] {
      assert ParentOf(Fresh.records) == map[] && OwnerOf(Fresh.records) == map[];
    } else {
      var before, last := Run(Fresh, calls[..|calls| - 1]), calls[|calls| - 1];
      RunKeepsInv(calls[..|calls| - 1]);
      if Outcome(before, last).Ok? {
        OutcomeKeepsInv(before, last);
      }
    }
  }

  /** In every reachable state `delete` and `revoke` give the same result, errors included,
      and the same state, for every caller. */
  lemma DeleteIsRevoke(calls: seq<Call>, auth: set<Address>, live: Live, fqdn: Str, caller: Address)
    ensures Delete(Run(Fresh, calls), auth, live, fqdn, caller) == Revoke(Run(Fresh, calls), auth, live, fqdn, caller)
  {
    RunKeepsInv(calls);
  }

  // ----- who may change a record -----

  /** The owner of a parent as recorded here, or a controller. */
  predicate Governs(s: State, parent: Str, who: Address) {
    parent in s.parents && Controls(s.parents[parent], who)
  }

  predicate Expired(s: State, live: Live, parent: Str) {
    s.registry.Some? && parent !in live
  }

  /** The only ways a record changes or goes. */
  predicate MayLose(s: State, c: Call, n: Str)
    requires n in s.records
  {
    var r := s.records[n];
    || (c.TransferCall? && c.fqdn == n && c.caller == r.owner && c.caller in c.auth && !Expired(s, c.live, r.parent))
    || ((c.DeleteCall? || c.RevokeCall?) && c.fqdn == n && c.caller in c.auth && !Expired(s, c.live, r.parent)
        && (c.caller == r.owner || Governs(s, r.parent, c.caller)))
    || (c.LookCall? && c.parent == r.parent && Expired(s, c.live, r.parent))
    || (c.LookUpCall? && c.fqdn in s.records && s.records[c.fqdn].parent == r.parent && Expired(s, c.live, r.parent))
    || (c.RegisterParentCall? && c.parent == r.parent && c.owner in c.auth && s.registry.Some?
        && r.parent in c.live && c.live[r.parent] == c.owner
        && r.parent in s.parents && s.parents[r.parent].owner != c.owner)
  }

  /** The only way a record appears. */
  predicate MayGain(s: State, c: Call, n: Str) {
    && c.CreateCall? && n == c.lbl + [DOT] + c.parent
    && c.caller in c.auth && Governs(s, c.parent, c.caller) && !Expired(s, c.live, c.parent)
    && (c.lbl != [] ==> |Split(c.lbl, DOT)| <= s.maxDepth)
  }

  predicate Kept(s: State, t: State, n: Str) {
    n in s.records ==> n in t.records && t.records[n] == s.records[n]
  }

  lemma CreateIsAuthorized(s: State, c: Call, n: Str)
    requires c.CreateCall? && Outcome(s, c).Ok?
    ensures Kept(s, Outcome(s, c).value, n)
    ensures n !in s.records && n in Outcome(s, c).value.records ==> MayGain(s, c, n)
  {
    CreateFiles(s, c);
    DepthCountsLabels(c.lbl);
  }

  lemma OwnerCallIsAuthorized(s: State, c: Call, n: Str)
    requires (c.TransferCall? || c.DeleteCall? || c.RevokeCall?) && Outcome(s, c).Ok?
    ensures n in s.records && !Kept(s, Outcome(s, c).value, n) ==> MayLose(s, c, n)
    ensures n !in s.records ==> n !in Outcome(s, c).value.records
  {
  }

  lemma PurgeIsAuthorized(s: State, c: Call, n: Str)
    requires (c.LookCall? || c.LookUpCall? || c.RegisterParentCall?) && Outcome(s, c).Ok?
    ensures n in s.records && !Kept(s, Outcome(s, c).value, n) ==> MayLose(s, c, n)
    ensures n !in s.records ==> n !in Outcome(s, c).value.records
  {
  }

  lemma StepIsAuthorized(s: State, c: Call, n: Str)
    requires Outcome(s, c).Ok?
    ensures n in s.records && !Kept(s, Outcome(s, c).value, n) ==> MayLose(s, c, n)
    ensures n !in s.records && n in Outcome(s, c).value.records ==> MayGain(s, c, n)
  {
    if c.CreateCall? {
      CreateIsAuthorized(s, c, n);
    } else if c.TransferCall? || c.DeleteCall? || c.RevokeCall? {
      OwnerCallIsAuthorized(s, c, n);
    } else if c.LookCall? || c.LookUpCall? || c.RegisterParentCall? {
      PurgeIsAuthorized(s, c, n);
    } else {
      assert Outcome(s, c).value.records == s.records;
    }
  }

  // ----- whose word counts for a parent -----

  /** Everything `create` asks for except who is asking. */
  predicate Vacant(s: State, live: Live, lbl: Str, parent: Str) {
    && parent in s.parents && ActiveParent(s, live, parent)
    && (lbl == [] || Depth(lbl) <= s.maxDepth)
    && |Fqdn(lbl, parent)| <= BUFFER_SIZE && Fqdn(lbl, parent) !in s.records
  }

  predicate Creates(s: State, live: Live, lbl: Str, parent: Str, who: Address) {
    Create(s, {who}, live, lbl, parent, who, who, 0).Ok?
  }

  lemma CreatesIff(s: State, live: Live, lbl: Str, parent: Str, who: Address)
    requires Vacant(s, live, lbl, parent)
    ensures Creates(s, live, lbl, parent, who) <==> Controls(s.parents[parent], who)
  {
  }

  /** It is the owner on file here, not the registry's: somebody who is neither the registry's
      owner nor a controller can create under an active parent iff the registry names another
      owner than the file, who is not a controller himself; and the registry's owner can create
      iff the file agrees or lists him as a controller. */
  lemma RecordedOwnerDecides(s: State, live: Live, lbl: Str, parent: Str)
    requires s.registry.Some? && parent in live && Vacant(s, live, lbl, parent)
    ensures var p := s.parents[parent];
            && ((exists who :: Creates(s, live, lbl, parent, who) && who != live[parent] && who !in p.controllers) <==>
                live[parent] != p.owner && p.owner !in p.controllers)
            && (Creates(s, live, lbl, parent, live[parent]) <==>
                live[parent] == p.owner || live[parent] in p.controllers)
  {
    forall who ensures Creates(s, live, lbl, parent, who) <==> Controls(s.parents[parent], who) {
      CreatesIff(s, live, lbl, parent, who);
    }
  }

  /** The registry's owner takes over by registering the parent again: from then on he alone
      counts, in an empty namespace. */
  lemma TakeoverHandsOver(
    s: State, auth: set<Address>, live: Live, parent: Str, owner: Address, later: Live, lbl: Str, who: Address)
    requires Inv(s) && parent in s.parents && RegisterParent(s, auth, live, parent, owner).Ok?
    ensures var t := RegisterParent(s, auth, live, parent, owner).value;
            && Index.Get(t.byParent, parent) == []
            && (Vacant(t, later, lbl, parent) ==> (Creates(t, later, lbl, parent, who) <==> who == owner))
  {
    var t := RegisterParent(s, auth, live, parent, owner).value;
    if Vacant(t, later, lbl, parent) {
      CreatesIff(t, later, lbl, parent, who);
    }
  }

  /** Until then: Alice registers her parent, the registry passes it to Bob, and it is Alice who
      can create under it, not Bob. */
  lemma FormerOwnerStillCreates(
    admin: Address, registry: Address, parent: Str, lbl: Str, alice: Address, bob: Address)
    requires IsFqdn(parent) && ValidateBaseName(parent).Ok? && alice != bob
    requires Depth(lbl) <= 3 && |Fqdn(lbl, parent)| <= BUFFER_SIZE
    ensures var s := Run(Fresh, [InitCall(admin), SetRegistryCall({admin}, registry),
                                 RegisterParentCall({alice}, map[parent := alice], parent, alice)]);
            && Creates(s, map[parent := bob], lbl, parent, alice)
            && !Creates(s, map[parent := bob], lbl, parent, bob)
  {
    var a, b := InitCall(admin), SetRegistryCall({admin}, registry);
    var c := RegisterParentCall({alice}, map[parent := alice], parent, alice);
    assert [a, b, c][..2] == [a, b] && [a, b][..1] == [a] && [a][..0] == [];
    assert Run(Fresh, []) == Fresh;
    assert Run(Fresh, [a]) == Fresh.(admin := Some(admin));
    var before := Fresh.(admin := Some(admin), registry := Some(registry));
    assert Run(Fresh, [a, b]) == before;
    var s := Run(Fresh, [a, b, c]);
    assert s == before.(parents := map[parent := Parent(alice, [])]);
    CreatesIff(s, map[parent := bob], lbl, parent, alice);
    CreatesIff(s, map[parent := bob], lbl, parent, bob);
  }

  // ----- over whole runs -----

  /** The call at `i` is where the record of `n` is first changed or lost, in one of those ways. */
  ghost predicate LostAt(s: State, calls: seq<Call>, n: Str, i: nat)
    requires n in s.records && i < |calls|
  {
    && Kept(s, Run(s, calls[..i]), n) && !Kept(s, Run(s, calls[..i + 1]), n)
    && MayLose(Run(s, calls[..i]), calls[i], n)
  }

  lemma StepLoses(s: State, before: State, c: Call, n: Str)
    requires n in s.records && Kept(s, before, n) && !Kept(s, Commit(before, Outcome(before, c)), n)
    ensures MayLose(before, c, n)
  {
    StepIsAuthorized(before, c, n);
  }

  lemma LastStepLoses(s: State, calls: seq<Call>, n: Str)
    requires n in s.records && calls != []
    requires Kept(s, Run(s, calls[..|calls| - 1]), n) && !Kept(s, Run(s, calls), n)
    ensures LostAt(s, calls, n, |calls| - 1)
  {
    StepLoses(s, Run(s, calls[..|calls| - 1]), calls[|calls| - 1], n);
    assert calls[..|calls| - 1 + 1] == calls;
  }

  lemma LostAtExtends(s: State, calls: seq<Call>, n: Str, i: nat)
    requires n in s.records && i + 1 < |calls| && LostAt(s, calls[..|calls| - 1], n, i)
    ensures LostAt(s, calls, n, i)
  {
    var front := calls[..|calls| - 1];
    assert front[..i] == calls[..i] && front[..i + 1] == calls[..i + 1] && front[i] == calls[i];
  }

  /** Over any run from any state: the step that changed or removed a record was a transfer or
      deletion by its owner, a deletion by a governor of its parent, or a purge because the
      parent had expired or was taken over by its new registry owner. */
  lemma {:induction false} RecordSafety(s: State, calls: seq<Call>, n: Str)
    requires n in s.records && !Kept(s, Run(s, calls), n)
    ensures exists i :: 0 <= i < |calls| && LostAt(s, calls, n, i)
  {
    var front := calls[..|calls| - 1];
    if Kept(s, Run(s, front), n) {
      LastStepLoses(s, calls, n);
    } else {
      RecordSafety(s, front, n);
      var i :| 0 <= i < |front| && LostAt(s, front, n, i);
      LostAtExtends(s, calls, n, i);
    }
  }

  /** The depth the byte loop counts is the number of labels between dots. */
  lemma {:induction false} DepthCountsLabels(s: Str)
    ensures 1 + CountDots(s) == |Split(s, DOT)|
    decreases |s|
  {
    var d := FirstSep(s, DOT);
    if d < |s| {
      DepthCountsLabels(s[d + 1..]);
      assert s == s[..d] + [DOT] + s[d + 1..];
      CountDotsAppend(s[..d] + [DOT], s[d + 1..]);
      CountDotsAppend(s[..d], [DOT]);
      NoDots(s[..d]);
      assert CountDots([DOT]) == CountDots([]) + 1;
    } else {
      NoDots(s);
    }
  }

  lemma {:induction false} CountDotsAppend(a: Str, b: Str)
    ensures CountDots(a + b) == CountDots(a) + CountDots(b)
  {
    if b == [] {
      assert a + b == a;
    } else {
      CountDotsAppend(a, b[..|b| - 1]);
      assert (a + b)[..|a + b| - 1] == a + b[..|b| - 1];
    }
  }

  lemma {:induction false} NoDots(s: Str)
    requires DOT !in s
    ensures CountDots(s) == 0
  {
    if s != [] {
      NoDots(s[..|s| - 1]);
    }
  }
}
