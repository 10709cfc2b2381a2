/**
 What each call of the subdomain contract promises: exactly when it succeeds, and what records,
 lists and parents are afterwards.
 */
module SubdomainLaws {
  import opened Common
  import opened Names
  import opened Subdomain
  import Index

  // ----- records and lists -----

  predicate SameRecord(s: State, t: State, n: Str) {
    (n in t.records <==> n in s.records) && (n in s.records ==> t.records[n] == s.records[n])
  }

  ghost predicate SameLists(s: State, t: State, n: Str) {
    && (forall who :: n in Index.Get(t.byOwner, who) <==> n in Index.Get(s.byOwner, who))
    && (forall parent :: n in Index.Get(t.byParent, parent) <==> n in Index.Get(s.byParent, parent))
  }

  /** Every other name has the same record and is in the same lists. */
  ghost predicate OthersKept(s: State, t: State, fqdn: Str) {
    forall n :: n != fqdn ==> SameRecord(s, t, n) && SameLists(s, t, n)
  }

  /** Listed by its parent and its owner, and by nobody else. */
  ghost predicate Listed(s: State, fqdn: Str)
    requires fqdn in s.records
  {
    && (forall who :: fqdn in Index.Get(s.byOwner, who) <==> who == s.records[fqdn].owner)
    && (forall parent :: fqdn in Index.Get(s.byParent, parent) <==> parent == s.records[fqdn].parent)
  }

  ghost predicate Unknown(s: State, fqdn: Str) {
    && fqdn !in s.records
    && (forall who :: fqdn !in Index.Get(s.byOwner, who))
    && (forall parent :: fqdn !in Index.Get(s.byParent, parent))
  }

  lemma OwnerListsIff(s: State, n: Str, who: Address)
    requires Inv(s)
    ensures n in Index.Get(s.byOwner, who) <==> n in s.records && s.records[n].owner == who
  {
    assert n in Index.Get(s.byOwner, who) <==> n in OwnerOf(s.records) && OwnerOf(s.records)[n] == who;
  }

  lemma ParentListsIff(s: State, n: Str, parent: Str)
    requires Inv(s)
    ensures n in Index.Get(s.byParent, parent) <==> n in s.records && s.records[n].parent == parent
  {
    assert n in Index.Get(s.byParent, parent) <==> n in ParentOf(s.records) && ParentOf(s.records)[n] == parent;
  }

  lemma SameRecordSameLists(s: State, t: State, n: Str)
    requires Inv(s) && Inv(t) && SameRecord(s, t, n)
    ensures SameLists(s, t, n)
  {
    forall who ensures n in Index.Get(t.byOwner, who) <==> n in Index.Get(s.byOwner, who) {
      OwnerListsIff(s, n, who);
      OwnerListsIff(t, n, who);
    }
    forall parent ensures n in Index.Get(t.byParent, parent) <==> n in Index.Get(s.byParent, parent) {
      ParentListsIff(s, n, parent);
      ParentListsIff(t, n, parent);
    }
  }

  lemma ListedOrUnknown(t: State, fqdn: Str)
    requires Inv(t)
    ensures if fqdn in t.records then Listed(t, fqdn) else Unknown(t, fqdn)
  {
    forall who ensures fqdn in Index.Get(t.byOwner, who) <==> fqdn in t.records && t.records[fqdn].owner == who {
      OwnerListsIff(t, fqdn, who);
    }
    forall p ensures fqdn in Index.Get(t.byParent, p) <==> fqdn in t.records && t.records[fqdn].parent == p {
      ParentListsIff(t, fqdn, p);
    }
  }

  /** With the invariant before and after, the lists follow the records. */
  lemma ListsFollow(s: State, t: State, fqdn: Str)
    requires Inv(s) && Inv(t) && forall n :: n != fqdn ==> SameRecord(s, t, n)
    ensures OthersKept(s, t, fqdn)
    ensures if fqdn in t.records then Listed(t, fqdn) else Unknown(t, fqdn)
  {
    forall n | n != fqdn ensures SameRecord(s, t, n) && SameLists(s, t, n) {
      SameRecordSameLists(s, t, n);
    }
    ListedOrUnknown(t, fqdn);
  }

  // ----- creating -----

  lemma CreateSucceedsIff(s: State, c: Call)
    requires c.CreateCall?
    ensures Outcome(s, c).Ok? <==>
            c.caller in c.auth && Vacant(s, c.live, c.lbl, c.parent) && Controls(s.parents[c.parent], c.caller)
  {
  }

  /** The record carries the given parent, owner and time and is listed by both; nothing else
      changes. */
  lemma CreateGives(s: State, c: Call)
    requires Inv(s) && c.CreateCall? && Outcome(s, c).Ok?
    ensures var t, fqdn := Outcome(s, c).value, c.lbl + [DOT] + c.parent;
            && fqdn !in s.records && fqdn in t.records && t.records[fqdn] == Record(c.parent, c.owner, c.now)
            && Listed(t, fqdn) && OthersKept(s, t, fqdn)
            && t == s.(records := t.records, byParent := t.byParent, byOwner := t.byOwner)
  {
    OutcomeKeepsInv(s, c);
    CreateFiles(s, c);
    ListsFollow(s, Outcome(s, c).value, Fqdn(c.lbl, c.parent));
  }

  // ----- transferring -----

  lemma TransferSucceedsIff(s: State, auth: set<Address>, live: Live, fqdn: Str, caller: Address, to: Address)
    ensures Transfer(s, auth, live, fqdn, caller, to).Ok? <==>
            && caller in auth && fqdn in s.records && s.records[fqdn].owner == caller
            && ActiveParent(s, live, s.records[fqdn].parent)
  {
  }

  /** The new owner has the record and alone lists it; parent, time, every other record, every
      parent list and every parent are unchanged. */
  lemma TransferHandsOver(s: State, c: Call)
    requires Inv(s) && c.TransferCall? && Outcome(s, c).Ok?
    ensures var t := Outcome(s, c).value;
            && c.fqdn in s.records && c.fqdn in t.records
            && t.records[c.fqdn] == Record(s.records[c.fqdn].parent, c.to, s.records[c.fqdn].createdAt)
            && Listed(t, c.fqdn) && OthersKept(s, t, c.fqdn)
            && t == s.(records := t.records, byOwner := t.byOwner)
  {
    OutcomeKeepsInv(s, c);
    ListsFollow(s, Outcome(s, c).value, c.fqdn);
  }

  /** The next transfer can only be the new owner's. */
  lemma OnlyNewOwnerMovesOn(s: State, c: Call, auth: set<Address>, live: Live, who: Address, to: Address)
    requires c.TransferCall? && Outcome(s, c).Ok?
    requires who in auth && ActiveParent(s, live, s.records[c.fqdn].parent)
    ensures Transfer(Outcome(s, c).value, auth, live, c.fqdn, who, to).Ok? <==> who == c.to
  {
    TransferSucceedsIff(Outcome(s, c).value, auth, live, c.fqdn, who, to);
  }

  // ----- deleting -----

  lemma DeleteSucceedsIff(s: State, auth: set<Address>, live: Live, fqdn: Str, caller: Address)
    ensures Delete(s, auth, live, fqdn, caller).Ok? <==>
            && caller in auth && fqdn in s.records && ActiveParent(s, live, s.records[fqdn].parent)
            && (s.records[fqdn].owner == caller || Governs(s, s.records[fqdn].parent, caller))
    ensures Revoke(s, auth, live, fqdn, caller).Ok? <==> Delete(s, auth, live, fqdn, caller).Ok?
  {
  }

  lemma DeleteLeavesNothing(s: State, c: Call)
    requires Inv(s) && (c.DeleteCall? || c.RevokeCall?) && Outcome(s, c).Ok?
    ensures var t := Outcome(s, c).value;
            && Unknown(t, c.fqdn) && OthersKept(s, t, c.fqdn)
            && t == s.(records := t.records, byParent := t.byParent, byOwner := t.byOwner)
  {
    OutcomeKeepsInv(s, c);
    DeleteDrops(s, c);
    ListsFollow(s, Outcome(s, c).value, c.fqdn);
  }

  lemma DeleteDrops(s: State, c: Call)
    requires (c.DeleteCall? || c.RevokeCall?) && Outcome(s, c).Ok?
    ensures var t := Outcome(s, c).value;
            && c.fqdn in s.records && t.records == s.records - {c.fqdn}
            && t == s.(records := t.records, byParent := t.byParent, byOwner := t.byOwner)
  {
  }

  // ----- parents -----

  lemma RegisterParentSucceedsIff(s: State, auth: set<Address>, live: Live, parent: Str, owner: Address)
    ensures RegisterParent(s, auth, live, parent, owner).Ok? <==>
            && owner in auth && IsFqdn(parent) && ValidateBaseName(parent).Ok?
            && if s.registry.None? then parent !in s.parents
               else
                 && parent in live && live[parent] == owner
                 && (parent in s.parents ==> s.parents[parent].owner != owner)
  {
  }

  /** A registered parent belongs to its owner, without controllers; every other parent is
      unchanged, and so are all records outside its namespace, which is empty after a takeover. */
  lemma RegisterParentGives(s: State, c: Call, n: Str)
    requires Inv(s) && c.RegisterParentCall? && Outcome(s, c).Ok?
    ensures var t := Outcome(s, c).value;
            && c.parent in t.parents && t.parents[c.parent] == Parent(c.owner, [])
            && t.parents.Keys == s.parents.Keys + {c.parent}
            && (forall p :: p in s.parents && p != c.parent ==> t.parents[p] == s.parents[p])
            && (n in t.records <==> n in s.records && s.records[n].parent != c.parent)
            && (n in t.records ==> t.records[n] == s.records[n])
            && (c.parent !in s.parents ==> t == s.(parents := t.parents))
            && t.admin == s.admin && t.registry == s.registry && t.maxDepth == s.maxDepth
  {
    assert n in s.records ==> s.records[n].parent in s.parents;
  }

  /** The parent a query looks at, if any. */
  function LookedAt(s: State, c: Call): Option<Str>
    requires c.LookCall? || c.LookUpCall?
  {
    if c.LookCall? then Some(c.parent)
    else if c.fqdn in s.records then Some(s.records[c.fqdn].parent)
    else None
  }

  /** A query clears the namespace of the parent it looks at iff that parent is not active: then
      its records, lists and entry are gone. Otherwise nothing changes. */
  lemma QueriesPurgeIff(s: State, c: Call, n: Str)
    requires Inv(s) && (c.LookCall? || c.LookUpCall?)
    ensures Outcome(s, c).Ok?
    ensures var t, p := Outcome(s, c).value, LookedAt(s, c);
            if p.Some? && s.registry.Some? && p.value !in c.live then
              && p.value !in t.parents && Index.Get(t.byParent, p.value) == []
              && (n in t.records <==> n in s.records && s.records[n].parent != p.value)
              && (n in t.records ==> t.records[n] == s.records[n])
            else t == s
  {
    if LookedAt(s, c).Some? {
      PurgeIsExact(s, LookedAt(s, c).value, n, [], Address([]));
    }
  }

  lemma ControllersSucceedIff(s: State, auth: set<Address>, live: Live, parent: Str, caller: Address, a: Address)
    ensures AddController(s, auth, live, parent, caller, a).Ok? <==>
            caller in auth && ActiveParent(s, live, parent) && parent in s.parents && s.parents[parent].owner == caller
    ensures RemoveController(s, auth, live, parent, caller, a).Ok? <==>
            caller in auth && ActiveParent(s, live, parent) && parent in s.parents && s.parents[parent].owner == caller
  {
  }

  /** No parent lists a controller twice. */
  ghost predicate ControllersDistinct(s: State) {
    forall p :: p in s.parents ==> Distinct(s.parents[p].controllers)
  }

  /** The controllers once `a` is added or removed. */
  ghost predicate Enlists(list: seq<Address>, after: seq<Address>, a: Address, added: bool) {
    && Distinct(after)
    && (forall x :: x in after <==> if x == a then added else x in list)
  }

  lemma AddingEnlists(list: seq<Address>, a: Address)
    requires Distinct(list)
    ensures Enlists(list, if a in list then list else list + [a], a, true)
  {
  }

  lemma RemovingDelists(list: seq<Address>, a: Address)
    requires Distinct(list)
    ensures Enlists(list, if a in list then WithoutFirst(list, a) else list, a, false)
  {
    WithoutFirstIsWithout(list, a);
    FilterMembers(list, Not(a));
    FilterDistinct(list, Not(a));
  }

  /** Adding makes the address a controller, removing makes it none; the other controllers, the
      owner, the other parents and everything else stay. */
  lemma ControllersChange(s: State, c: Call)
    requires ControllersDistinct(s) && (c.AddControllerCall? || c.RemoveControllerCall?) && Outcome(s, c).Ok?
    ensures var t := Outcome(s, c).value;
            && c.parent in s.parents && t.parents.Keys == s.parents.Keys && t == s.(parents := t.parents)
            && t.parents[c.parent].owner == s.parents[c.parent].owner
            && Enlists(s.parents[c.parent].controllers, t.parents[c.parent].controllers, c.controller,
                       c.AddControllerCall?)
            && (forall p :: p in s.parents && p != c.parent ==> t.parents[p] == s.parents[p])
  {
    AddingEnlists(s.parents[c.parent].controllers, c.controller);
    RemovingDelists(s.parents[c.parent].controllers, c.controller);
  }

  lemma OutcomeKeepsControllersDistinct(s: State, c: Call)
    requires ControllersDistinct(s) && Outcome(s, c).Ok?
    ensures ControllersDistinct(Outcome(s, c).value)
  {
    if c.AddControllerCall? || c.RemoveControllerCall? {
      ControllersChange(s, c);
    }
  }

  lemma {:induction false} RunKeepsControllersDistinct(calls: seq<Call>)
    ensures ControllersDistinct(Run(Fresh, calls))
  {
    if calls != [] {
      RunKeepsControllersDistinct(calls[..|calls| - 1]);
      var before, last := Run(Fresh, calls[..|calls| - 1]), calls[|calls| - 1];
      if Outcome(before, last).Ok? {
        OutcomeKeepsControllersDistinct(before, last);
      }
    }
  }

  // ----- configuration -----

  lemma ConfigurationSucceedsIff(s: State, auth: set<Address>, who: Address, depth: U32)
    ensures Initialize(s, who).Ok? <==> s.admin == None
    ensures Initialize(s, who).Ok? ==> Initialize(s, who).value == s.(admin := Some(who), maxDepth := 3)
    ensures SetRegistry(s, auth, who).Ok? <==> s.admin.Some? && s.admin.value in auth
    ensures SetRegistry(s, auth, who).Ok? ==> SetRegistry(s, auth, who).value == s.(registry := Some(who))
    ensures SetMaxDepth(s, auth, depth).Ok? <==> s.admin.Some? && s.admin.value in auth
    ensures SetMaxDepth(s, auth, depth).Ok? ==> SetMaxDepth(s, auth, depth).value == s.(maxDepth := depth)
  {
  }

  // ----- errors -----

  /** The parent's record cannot be had: the parent is inactive or not registered. */
  predicate NoParent(s: State, live: Live, parent: Str) {
    !ActiveParent(s, live, parent) || parent !in s.parents
  }

  predicate MissingAuthorization(s: State, c: Call) {
    match c
    case InitCall(_) => false
    case SetRegistryCall(auth, _) => s.admin.Some? && s.admin.value !in auth
    case SetMaxDepthCall(auth, _) => s.admin.Some? && s.admin.value !in auth
    case RegisterParentCall(auth, _, _, owner) => owner !in auth
    case LookUpCall(_, _) => false
    case LookCall(_, _) => false
    case _ => c.caller !in c.auth
  }

  /** The caller is authorized but not entitled. */
  predicate NotEntitled(s: State, c: Call) {
    match c
    case SetRegistryCall(_, _) => s.admin.None?
    case SetMaxDepthCall(_, _) => s.admin.None?
    case RegisterParentCall(_, live, parent, owner) => s.registry.Some? && parent in live && live[parent] != owner
    case AddControllerCall(_, _, parent, caller, _) => parent in s.parents && s.parents[parent].owner != caller
    case RemoveControllerCall(_, _, parent, caller, _) => parent in s.parents && s.parents[parent].owner != caller
    case CreateCall(_, _, _, parent, caller, _, _) => !Governs(s, parent, caller)
    case TransferCall(_, _, fqdn, caller, _) => fqdn in s.records && s.records[fqdn].owner != caller
    case DeleteCall(_, _, fqdn, caller) =>
      fqdn in s.records && s.records[fqdn].owner != caller && !Governs(s, s.records[fqdn].parent, caller)
    case RevokeCall(_, _, fqdn, caller) =>
      fqdn in s.records && s.records[fqdn].owner != caller && !Governs(s, s.records[fqdn].parent, caller)
    case _ => false
  }

  /** The reasons an error stands for. */
  predicate Reason(s: State, c: Call, e: Error) {
    match e
    case Validation => c.RegisterParentCall? && (!IsFqdn(c.parent) || ValidateBaseName(c.parent).Err?)
    case ParentNotFound =>
      (match c
       case RegisterParentCall(_, live, parent, _) => s.registry.Some? && parent !in live
       case AddControllerCall(_, live, parent, _, _) => NoParent(s, live, parent)
       case RemoveControllerCall(_, live, parent, _, _) => NoParent(s, live, parent)
       case CreateCall(_, live, _, parent, _, _, _) => NoParent(s, live, parent)
       case TransferCall(_, live, fqdn, _, _) => fqdn in s.records && !ActiveParent(s, live, s.records[fqdn].parent)
       case DeleteCall(_, live, fqdn, _) => fqdn in s.records && NoParent(s, live, s.records[fqdn].parent)
       case RevokeCall(_, live, fqdn, _) => fqdn in s.records && !ActiveParent(s, live, s.records[fqdn].parent)
       case _ => false)
    case AlreadyExists =>
      || (c.InitCall? && s.admin.Some?) || (c.RegisterParentCall? && c.parent in s.parents)
      || (c.CreateCall? && Fqdn(c.lbl, c.parent) in s.records)
    case NotFound => (c.TransferCall? || c.DeleteCall? || c.RevokeCall?) && c.fqdn !in s.records
    case Unauthorized => NotEntitled(s, c)
    case DepthLimitExceeded =>
      c.CreateCall? && s.maxDepth < 1 + CountDots(c.lbl) && |c.lbl| <= BUFFER_SIZE && |c.parent| <= BUFFER_SIZE
    case Trap => MissingAuthorization(s, c) || (c.CreateCall? && |Fqdn(c.lbl, c.parent)| > BUFFER_SIZE)
  }

  lemma RecordErrors(s: State, c: Call)
    requires (c.TransferCall? || c.DeleteCall? || c.RevokeCall?) && Outcome(s, c).Err?
    ensures Reason(s, c, Outcome(s, c).error)
  {
  }

  lemma CreateErrors(s: State, c: Call)
    requires c.CreateCall? && Outcome(s, c).Err?
    ensures Reason(s, c, Outcome(s, c).error)
  {
  }

  lemma OtherErrors(s: State, c: Call)
    requires !c.CreateCall? && !c.TransferCall? && !c.DeleteCall? && !c.RevokeCall? && Outcome(s, c).Err?
    ensures Reason(s, c, Outcome(s, c).error)
  {
  }

  /** An error is only ever given for its reason. */
  lemma ErrorsAreTrue(s: State, c: Call)
    requires Outcome(s, c).Err?
    ensures Reason(s, c, Outcome(s, c).error)
  {
    if c.TransferCall? || c.DeleteCall? || c.RevokeCall? {
      RecordErrors(s, c);
    } else if c.CreateCall? {
      CreateErrors(s, c);
    } else {
      OtherErrors(s, c);
    }
  }
}
