/**
 The subdomain contract as it runs. The purge walks a parent's list while it removes the
 listed names from that very list, from the owners' lists and from the records.
 */
module SubdomainContract {
  import opened Common
  import opened Names
  import opened Subdomain
  import Index

  // ----- the purge loop, one step at a time -----

  /** Storage after the loop has purged the first `i` names of the parent's list. */
  ghost function Purging(s: State, parent: Str, i: nat): State
    requires i <= |Index.Get(s.byParent, parent)|
  {
    var list := Index.Get(s.byParent, parent);
    s.(records := s.records - Elements(list[..i]),
       byParent := if i == 0 then s.byParent else s.byParent[parent := list[i..]],
       byOwner := FilterEach(s.byOwner, Unlisted(list[..i])))
  }

  lemma ListedIsRecord(s: State, parent: Str, i: nat)
    requires Inv(s) && i < |Index.Get(s.byParent, parent)|
    ensures var n := Index.Get(s.byParent, parent)[i];
            && n in s.records && s.records[n].parent == parent
            && n in Index.Get(s.byOwner, s.records[n].owner)
            && n !in Index.Get(s.byParent, parent)[..i]
            && n in Purging(s, parent, i).records
  {
    var list := Index.Get(s.byParent, parent);
    var n := list[i];
    assert n in list;
    assert n in ParentOf(s.records) && ParentOf(s.records)[n] == parent;
    assert n in OwnerOf(s.records);
    assert Distinct(list);
    assert n !in Elements(list[..i]);
  }

  lemma FilterEachStep(lists: Index.Lists<Address, Str>, keyOf: map<Str, Address>, dead: seq<Str>, n: Str,
                       owner: Address)
    requires Index.Views(lists, keyOf) && n in keyOf && keyOf[n] == owner && n !in dead
    ensures Index.RemoveFirst(FilterEach(lists, Unlisted(dead)), owner, n) == FilterEach(lists, Unlisted(dead + [n]))
  {
    var before, after := FilterEach(lists, Unlisted(dead)), FilterEach(lists, Unlisted(dead + [n]));
    var list := Index.Get(lists, owner);
    assert n in list && Distinct(list);
    FilterMembers(list, Unlisted(dead));
    FilterDistinct(list, Unlisted(dead));
    WithoutFirstIsWithout(before[owner], n);
    FilterFilter(list, Unlisted(dead), Not(n));
    FilterAgree(list, Both(Unlisted(dead), Not(n)), Unlisted(dead + [n]));
    assert Index.RemoveFirst(before, owner, n) == before[owner := after[owner]];
    forall k | k in lists && k != owner ensures before[k] == after[k] {
      assert n in Index.Get(lists, k) <==> n in keyOf && keyOf[n] == k;
      FilterAgree(lists[k], Unlisted(dead), Unlisted(dead + [n]));
    }
  }

  /** Purging the `i`-th name, read from the list as it was before the loop, is one step. */
  ghost predicate Steps(s: State, parent: Str, i: nat)
    requires i < |Index.Get(s.byParent, parent)|
  {
    var n := Index.Get(s.byParent, parent)[i];
    n in Purging(s, parent, i).records && Dropped(Purging(s, parent, i), n) == Purging(s, parent, i + 1)
  }

  ghost predicate Walkable(s: State, parent: Str) {
    forall i: nat :: i < |Index.Get(s.byParent, parent)| ==> Steps(s, parent, i)
  }

  lemma RecordsStep(records: map<Str, Record>, list: seq<Str>, i: nat)
    requires i < |list|
    ensures records - Elements(list[..i]) - {list[i]} == records - Elements(list[..i + 1])
  {
    assert list[..i + 1] == list[..i] + [list[i]];
  }

  /** The name is the first one left on the parent's own list. */
  lemma ParentListStep(s: State, parent: Str, i: nat)
    requires i < |Index.Get(s.byParent, parent)|
    ensures Index.RemoveFirst(Purging(s, parent, i).byParent, parent, Index.Get(s.byParent, parent)[i])
         == Purging(s, parent, i + 1).byParent
  {
    var list := Index.Get(s.byParent, parent);
    assert Index.Get(Purging(s, parent, i).byParent, parent) == list[i..];
    assert list[i..] == [list[i]] + list[i + 1..];
  }

  lemma OwnerListStep(s: State, parent: Str, i: nat)
    requires Inv(s) && i < |Index.Get(s.byParent, parent)|
    requires Index.Get(s.byParent, parent)[i] in s.records
    ensures var n := Index.Get(s.byParent, parent)[i];
            Index.RemoveFirst(Purging(s, parent, i).byOwner, s.records[n].owner, n) == Purging(s, parent, i + 1).byOwner
  {
    var list := Index.Get(s.byParent, parent);
    ListedIsRecord(s, parent, i);
    FilterEachStep(s.byOwner, OwnerOf(s.records), list[..i], list[i], s.records[list[i]].owner);
    assert list[..i + 1] == list[..i] + [list[i]];
  }

  lemma PurgingStep(s: State, parent: Str, i: nat)
    requires Inv(s) && i < |Index.Get(s.byParent, parent)|
    ensures Steps(s, parent, i)
  {
    ListedIsRecord(s, parent, i);
    RecordsStep(s.records, Index.Get(s.byParent, parent), i);
    ParentListStep(s, parent, i);
    OwnerListStep(s, parent, i);
  }

  lemma InvIsWalkable(s: State, parent: Str)
    requires Inv(s)
    ensures Walkable(s, parent)
  {
    forall i: nat | i < |Index.Get(s.byParent, parent)| ensures Steps(s, parent, i) {
      PurgingStep(s, parent, i);
    }
  }

  lemma PurgedRecords(s: State, parent: Str)
    requires Index.Views(s.byParent, ParentOf(s.records))
    ensures s.records - Elements(Index.Get(s.byParent, parent)) == Purge(s, parent).records
  {
    var list := Index.Get(s.byParent, parent);
    forall n | n in s.records ensures n in list <==> s.records[n].parent == parent {
      assert n in list <==> n in ParentOf(s.records) && ParentOf(s.records)[n] == parent;
    }
  }

  lemma ListedIffInside(s: State, parent: Str, x: Str)
    requires Index.Views(s.byParent, ParentOf(s.records))
    ensures Unlisted(Index.Get(s.byParent, parent))(x) == Outside(s.records, parent)(x)
  {
    assert x in Index.Get(s.byParent, parent) <==> x in ParentOf(s.records) && ParentOf(s.records)[x] == parent;
  }

  lemma PurgedOwners(s: State, parent: Str)
    requires Index.Views(s.byParent, ParentOf(s.records))
    ensures FilterEach(s.byOwner, Unlisted(Index.Get(s.byParent, parent))) == Purge(s, parent).byOwner
  {
    var p, q := Unlisted(Index.Get(s.byParent, parent)), Outside(s.records, parent);
    forall x ensures p(x) == q(x) {
      ListedIffInside(s, parent, x);
    }
    forall k | k in s.byOwner ensures Filter(s.byOwner[k], p) == Filter(s.byOwner[k], q) {
      FilterAgree(s.byOwner[k], p, q);
    }
  }

  /** What the whole loop leaves, once the list and the parent entry are removed too, is the
      purge of the namespace. */
  lemma PurgingEnds(s: State, parent: Str)
    requires Inv(s)
    ensures var list := Index.Get(s.byParent, parent);
            var t := Purging(s, parent, |list|);
            t.(byParent := t.byParent - {parent}, parents := t.parents - {parent}) == Purge(s, parent)
  {
    var list := Index.Get(s.byParent, parent);
    assert list[..|list|] == list;
    PurgedRecords(s, parent);
    PurgedOwners(s, parent);
    assert Purging(s, parent, |list|).byParent - {parent} == s.byParent - {parent};
  }

  lemma NothingPurgedYet(s: State, parent: Str)
    ensures Purging(s, parent, 0) == s
  {
    var list := Index.Get(s.byParent, parent);
    assert Elements(list[..0]) == {};
    forall k | k in s.byOwner ensures Filter(s.byOwner[k], Unlisted(list[..0])) == s.byOwner[k] {
      FilterAll(s.byOwner[k], Unlisted(list[..0]));
    }
    assert FilterEach(s.byOwner, Unlisted(list[..0])) == s.byOwner;
  }

  class Contract {
    var admin: Option<Address>
    var registry: Option<Address>
    var maxDepth: U32
    var parents: map<Str, Parent>
    var records: map<Str, Record>
    var byParent: Index.Lists<Str, Str>
    var byOwner: Index.Lists<Address, Str>

    ghost function Storage(): State
      reads this
    {
      State(admin, registry, maxDepth, parents, records, byParent, byOwner)
    }

    ghost predicate Valid()
      reads this
    {
      Inv(Storage())
    }

    constructor ()
      ensures Storage() == Fresh && Valid()
    {
      admin, registry, maxDepth, parents, records, byParent, byOwner := None, None, 3, map[], map[], map[], map[];
      new;
      RunKeepsInv([]);
    }

    // ----- configuration -----

    method Initialize(admin: Address) returns (r: Result<(), Error>)
      requires Valid()
      modifies this
      ensures Did(old(Storage()), Storage(), Subdomain.Initialize(old(Storage()), admin), r) && Valid()
    {
      if this.admin.Some? {
        return Err(AlreadyExists);
      }
      this.admin, maxDepth := Some(admin), 3;
      ParentsOnlyKeepInv(old(Storage()), Storage());
      return Ok(());
    }

    method SetRegistry(auth: set<Address>, registry: Address) returns (r: Result<(), Error>)
      requires Valid()
      modifies this
      ensures Did(old(Storage()), Storage(), Subdomain.SetRegistry(old(Storage()), auth, registry), r) && Valid()
    {
      if admin.None? {
        return Err(Unauthorized);
      }
      if admin.value !in auth {
        return Err(Trap);
      }
      this.registry := Some(registry);
      ParentsOnlyKeepInv(old(Storage()), Storage());
      return Ok(());
    }

    method SetMaxDepth(auth: set<Address>, depth: U32) returns (r: Result<(), Error>)
      requires Valid()
      modifies this
      ensures Did(old(Storage()), Storage(), Subdomain.SetMaxDepth(old(Storage()), auth, depth), r) && Valid()
    {
      if admin.None? {
        return Err(Unauthorized);
      }
      if admin.value !in auth {
        return Err(Trap);
      }
      maxDepth := depth;
      ParentsOnlyKeepInv(old(Storage()), Storage());
      return Ok(());
    }

    // ----- index helpers -----

    method RemoveParentSubdomain(parent: Str, fqdn: Str)
      modifies `byParent
      ensures byParent == Index.RemoveFirst(old(byParent), parent, fqdn)
    {
      var list := Index.Get(byParent, parent);
      if fqdn in list {
        byParent := byParent[parent := WithoutFirst(list, fqdn)];
      }
    }

    method RemoveOwnerSubdomain(owner: Address, fqdn: Str)
      modifies `byOwner
      ensures byOwner == Index.RemoveFirst(old(byOwner), owner, fqdn)
    {
      var list := Index.Get(byOwner, owner);
      if fqdn in list {
        byOwner := byOwner[owner := WithoutFirst(list, fqdn)];
      }
    }

    method AddOwnerSubdomain(owner: Address, fqdn: Str)
      modifies `byOwner
      ensures byOwner == Index.Add(old(byOwner), owner, fqdn)
    {
      var list := Index.Get(byOwner, owner);
      if fqdn !in list {
        byOwner := byOwner[owner := list + [fqdn]];
      }
    }

    method PurgeSubdomainRecord(fqdn: Str, record: Record)
      modifies `records, `byParent, `byOwner
      ensures fqdn in old(records) && record == old(records)[fqdn] ==> Storage() == Dropped(old(Storage()), fqdn)
      ensures (&& fqdn !in old(records) && fqdn !in Index.Get(old(byParent), record.parent)
               && fqdn !in Index.Get(old(byOwner), record.owner)) ==> Storage() == old(Storage())
    {
      RemoveParentSubdomain(record.parent, fqdn);
      RemoveOwnerSubdomain(record.owner, fqdn);
      records := records - {fqdn};
      assert fqdn !in old(records) ==> records == old(records);
    }

    /** The walk over the parent's list, as it was when the walk began. */
    method PurgeListed(parent: Str)
      requires Walkable(Storage(), parent)
      modifies `records, `byParent, `byOwner
      ensures Storage() == Purging(old(Storage()), parent, |Index.Get(old(byParent), parent)|)
    {
      ghost var start := Storage();
      NothingPurgedYet(start, parent);
      var subdomains := Index.Get(byParent, parent);
      var i := 0;
      while i < |subdomains|
        invariant 0 <= i <= |subdomains|
        invariant Storage() == Purging(start, parent, i)
      {
        assert Steps(start, parent, i);
        var fqdn := subdomains[i];
        if fqdn in records {
          PurgeSubdomainRecord(fqdn, records[fqdn]);
        }
        i := i + 1;
      }
    }

    method PurgeParentNamespace(parent: Str)
      requires Valid()
      modifies this
      ensures Storage() == Purge(old(Storage()), parent)
      ensures Valid()
    {
      ghost var start := Storage();
      InvIsWalkable(start, parent);
      PurgeListed(parent);
      byParent := byParent - {parent};
      parents := parents - {parent};
      PurgingEnds(start, parent);
      PurgeKeepsInv(start, parent);
    }

    /** Answers whether the parent is active, purging it when it is not. */
    method EnsureParentIsActive(live: Live, parent: Str) returns (active: bool)
      requires Valid()
      modifies this
      ensures active <==> ActiveParent(old(Storage()), live, parent)
      ensures Storage() == Look(old(Storage()), live, parent) && Valid()
    {
      active := registry.None? || parent in live;
      if !active {
        PurgeParentNamespace(parent);
      }
    }

    /** Undoes the purge of a call that ends in an error. */
    method Rollback(p: map<Str, Parent>, r: map<Str, Record>, bp: Index.Lists<Str, Str>, bo: Index.Lists<Address, Str>)
      modifies this
      ensures Storage() == old(Storage()).(parents := p, records := r, byParent := bp, byOwner := bo)
    {
      parents, records, byParent, byOwner := p, r, bp, bo;
    }

    // ----- queries that may purge -----

    method ParentDomain(live: Live, parent: Str) returns (r: Option<Parent>)
      requires Valid()
      modifies this
      ensures Storage() == Look(old(Storage()), live, parent) && Valid()
      ensures r == if ActiveParent(old(Storage()), live, parent) && parent in old(parents)
                   then Some(old(parents)[parent]) else None
    {
      var active := EnsureParentIsActive(live, parent);
      if active && parent in parents {
        return Some(parents[parent]);
      }
      return None;
    }

    /** After the namespace purge the record is purged once more, to no effect. */
    method RecordOf(live: Live, fqdn: Str) returns (r: Option<Record>)
      requires Valid()
      modifies this
      ensures Storage() == LookUp(old(Storage()), live, fqdn) && Valid()
      ensures r.Some? <==> fqdn in old(records) && ActiveParent(old(Storage()), live, old(records)[fqdn].parent)
      ensures r.Some? ==> r.value == records[fqdn]
    {
      if fqdn !in records {
        return None;
      }
      var record := records[fqdn];
      var active := EnsureParentIsActive(live, record.parent);
      if active {
        return Some(record);
      }
      assert fqdn !in records;
      assert fqdn !in Index.Get(byParent, record.parent) && fqdn !in Index.Get(byOwner, record.owner) by {
        assert fqdn !in ParentOf(records) && fqdn !in OwnerOf(records);
      }
      PurgeSubdomainRecord(fqdn, record);
      return None;
    }

    method SubdomainsForParent(live: Live, parent: Str) returns (names: seq<Str>)
      requires Valid()
      modifies this
      ensures Storage() == Look(old(Storage()), live, parent) && Valid()
      ensures Distinct(names)
      ensures forall n :: n in names <==>
                n in records && records[n].parent == parent && ActiveParent(old(Storage()), live, parent)
    {
      var active := EnsureParentIsActive(live, parent);
      if !active {
        return [];
      }
      names := Index.Get(byParent, parent);
      assert forall n :: n in names <==> n in ParentOf(records) && ParentOf(records)[n] == parent;
    }

    // ----- mutators -----

    method RegisterParent(auth: set<Address>, live: Live, parent: Str, owner: Address) returns (r: Result<(), Error>)
      requires Valid()
      modifies this
      ensures Did(old(Storage()), Storage(), Subdomain.RegisterParent(old(Storage()), auth, live, parent, owner), r)
      ensures Valid()
    {
      if owner !in auth {
        return Err(Trap);
      }
      var valid := CheckFqdn(parent);
      if valid.Err? || ValidateBaseName(parent).Err? {
        return Err(Validation);
      }
      ghost var start := Storage();
      if registry.Some? {
        if parent !in live {
          var p, rs, bp, bo := parents, records, byParent, byOwner;
          if parent in parents {
            PurgeParentNamespace(parent);
          }
          Rollback(p, rs, bp, bo);
          return Err(ParentNotFound);
        }
        if live[parent] != owner {
          return Err(Unauthorized);
        }
        if parent in parents {
          if parents[parent].owner == owner {
            return Err(AlreadyExists);
          }
          PurgeParentNamespace(parent);
        }
      } else if parent in parents {
        return Err(AlreadyExists);
      }
      parents := parents[parent := Parent(owner, [])];
      RegisterParentKeepsInv(start, auth, live, parent, owner);
      return Ok(());
    }

    /** The parent record, with the purge of an inactive parent left to be rolled back. */
    method GetParentOrUndo(live: Live, parent: Str) returns (r: Result<Parent, Error>)
      requires Valid()
      modifies this
      ensures Storage() == old(Storage())
      ensures r == GetParent(Storage(), live, parent)
    {
      var p, rs, bp, bo := parents, records, byParent, byOwner;
      var active := EnsureParentIsActive(live, parent);
      if !active {
        Rollback(p, rs, bp, bo);
        return Err(ParentNotFound);
      }
      return if parent in parents then Ok(parents[parent]) else Err(ParentNotFound);
    }

    method AddController(auth: set<Address>, live: Live, parent: Str, caller: Address, controller: Address)
      returns (r: Result<(), Error>)
      requires Valid()
      modifies this
      ensures Did(old(Storage()), Storage(),
                  Subdomain.AddController(old(Storage()), auth, live, parent, caller, controller), r)
      ensures Valid()
    {
      if caller !in auth {
        return Err(Trap);
      }
      var got := GetParentOrUndo(live, parent);
      if got.Err? {
        return Err(got.error);
      }
      if got.value.owner != caller {
        return Err(Unauthorized);
      }
      if controller !in got.value.controllers {
        parents := parents[parent := got.value.(controllers := got.value.controllers + [controller])];
      }
      return Ok(());
    }

    method RemoveController(auth: set<Address>, live: Live, parent: Str, caller: Address, controller: Address)
      returns (r: Result<(), Error>)
      requires Valid()
      modifies this
      ensures Did(old(Storage()), Storage(),
                  Subdomain.RemoveController(old(Storage()), auth, live, parent, caller, controller), r)
      ensures Valid()
    {
      if caller !in auth {
        return Err(Trap);
      }
      var got := GetParentOrUndo(live, parent);
      if got.Err? {
        return Err(got.error);
      }
      if got.value.owner != caller {
        return Err(Unauthorized);
      }
      if controller in got.value.controllers {
        parents := parents[parent := got.value.(controllers := WithoutFirst(got.value.controllers, controller))];
      }
      return Ok(());
    }

    /** Counts the dots of the label byte by byte. */
    method LabelDepth(lbl: Str) returns (depth: nat)
      ensures depth == |Split(lbl, DOT)|
    {
      depth := 1;
      var i := 0;
      while i < |lbl|
        invariant 0 <= i <= |lbl|
        invariant depth == 1 + CountDots(lbl[..i])
      {
        assert lbl[..i + 1][..i] == lbl[..i];
        if lbl[i] == DOT {
          depth := depth + 1;
        }
        i := i + 1;
      }
      assert lbl[..i] == lbl;
      DepthCountsLabels(lbl);
    }

    method Create(auth: set<Address>, live: Live, lbl: Str, parent: Str, caller: Address, owner: Address, now: U64)
      returns (r: Result<Str, Error>)
      requires Valid()
      modifies this
      ensures var o := Subdomain.Create(old(Storage()), auth, live, lbl, parent, caller, owner, now);
              && Storage() == Commit(old(Storage()), o)
              && r == (if o.Ok? then Ok(Fqdn(lbl, parent)) else Err(o.error))
      ensures Valid()
    {
      ghost var start := Storage();
      if caller !in auth {
        return Err(Trap);
      }
      var got := GetParentOrUndo(live, parent);
      if got.Err? {
        return Err(got.error);
      }
      if !Controls(got.value, caller) {
        return Err(Unauthorized);
      }
      if |lbl| > BUFFER_SIZE || |parent| > BUFFER_SIZE {
        return Err(Trap);
      }
      if |lbl| > 0 {
        var depth := LabelDepth(lbl);
        DepthCountsLabels(lbl);
        if depth > maxDepth {
          return Err(DepthLimitExceeded);
        }
      }
      if |lbl| + 1 + |parent| > BUFFER_SIZE {
        return Err(Trap);
      }
      var fqdn := AssembleFqdn(lbl, parent);
      if fqdn in records {
        return Err(AlreadyExists);
      }
      File(fqdn, Record(parent, owner, now));
      FqdnUnder(lbl, parent);
      FiledKeepsInv(start, fqdn, Record(parent, owner, now));
      return Ok(fqdn);
    }

    /** Label, dot and parent copied into one fixed buffer. */
    method AssembleFqdn(lbl: Str, parent: Str) returns (fqdn: Str)
      requires |lbl| + 1 + |parent| <= BUFFER_SIZE
      ensures fqdn == Fqdn(lbl, parent)
    {
      var buffer := new Byte[BUFFER_SIZE](_ => 0);
      forall i | 0 <= i < |lbl| {
        buffer[i] := lbl[i];
      }
      buffer[|lbl|] := DOT;
      forall i | 0 <= i < |parent| {
        buffer[|lbl| + 1 + i] := parent[i];
      }
      fqdn := buffer[..|lbl| + 1 + |parent|];
    }

    method File(fqdn: Str, record: Record)
      modifies `records, `byParent, `byOwner
      ensures Storage() == Filed(old(Storage()), fqdn, record)
    {
      records := records[fqdn := record];
      var list := Index.Get(byParent, record.parent);
      if fqdn !in list {
        byParent := byParent[record.parent := list + [fqdn]];
      }
      AddOwnerSubdomain(record.owner, fqdn);
    }

    method Transfer(auth: set<Address>, live: Live, fqdn: Str, caller: Address, to: Address)
      returns (r: Result<(), Error>)
      requires Valid()
      modifies this
      ensures Did(old(Storage()), Storage(), Subdomain.Transfer(old(Storage()), auth, live, fqdn, caller, to), r)
      ensures Valid()
    {
      ghost var start := Storage();
      if caller !in auth {
        return Err(Trap);
      }
      if fqdn !in records {
        return Err(NotFound);
      }
      var record := records[fqdn];
      var p, rs, bp, bo := parents, records, byParent, byOwner;
      var active := EnsureParentIsActive(live, record.parent);
      if !active {
        Rollback(p, rs, bp, bo);
        return Err(ParentNotFound);
      }
      if record.owner != caller {
        return Err(Unauthorized);
      }
      records := records[fqdn := record.(owner := to)];
      RemoveOwnerSubdomain(record.owner, fqdn);
      AddOwnerSubdomain(to, fqdn);
      TransferKeepsInv(start, Storage(), fqdn, to);
      return Ok(());
    }

    method Delete(auth: set<Address>, live: Live, fqdn: Str, caller: Address) returns (r: Result<(), Error>)
      requires Valid()
      modifies this
      ensures Did(old(Storage()), Storage(), Subdomain.Delete(old(Storage()), auth, live, fqdn, caller), r)
      ensures Valid()
    {
      ghost var start := Storage();
      if caller !in auth {
        return Err(Trap);
      }
      if fqdn !in records {
        return Err(NotFound);
      }
      var record := records[fqdn];
      var p, rs, bp, bo := parents, records, byParent, byOwner;
      var active := EnsureParentIsActive(live, record.parent);
      if !active {
        Rollback(p, rs, bp, bo);
        return Err(ParentNotFound);
      }
      if record.owner != caller {
        var parent := GetParentOrUndo(live, record.parent);
        if parent.Err? {
          return Err(ParentNotFound);
        }
        if !Controls(parent.value, caller) {
          return Err(Unauthorized);
        }
      }
      PurgeSubdomainRecord(fqdn, record);
      DroppedKeepsInv(start, fqdn);
      return Ok(());
    }

    method Revoke(auth: set<Address>, live: Live, fqdn: Str, caller: Address) returns (r: Result<(), Error>)
      requires Valid()
      modifies this
      ensures Did(old(Storage()), Storage(), Subdomain.Revoke(old(Storage()), auth, live, fqdn, caller), r)
      ensures Valid()
    {
      ghost var start := Storage();
      if caller !in auth {
        return Err(Trap);
      }
      if fqdn !in records {
        return Err(NotFound);
      }
      var record := records[fqdn];
      var p, rs, bp, bo := parents, records, byParent, byOwner;
      var active := EnsureParentIsActive(live, record.parent);
      if !active {
        Rollback(p, rs, bp, bo);
        return Err(ParentNotFound);
      }
      var isAuthorized := false;
      if record.owner == caller {
        isAuthorized := true;
      } else {
        var parent := GetParentOrUndo(live, record.parent);
        if parent.Ok? && Controls(parent.value, caller) {
          isAuthorized := true;
        }
      }
      if !isAuthorized {
        return Err(Unauthorized);
      }
      PurgeSubdomainRecord(fqdn, record);
      DroppedKeepsInv(start, fqdn);
      return Ok(());
    }
  }
}
