/**
 What each call of the NFT contract promises: exactly when it succeeds, what it does to token
 and lists, how a token can leave its owner over a run, and where a standing approval comes from.
 */
module NftLaws {
  import opened Common
  import opened Nft
  import Index

  /** The administrator's authorization is attached. */
  predicate AdminActs(s: State, auth: set<Address>) {
    s.admin.Some? && s.admin.value in auth
  }

  /** No registry is set, or the call to it returned. */
  predicate Notified(s: State, answers: bool) {
    s.registry == None || answers
  }

  // ----- when calls succeed -----

  lemma TransferSucceedsIff(s: State, id: Str, caller: Address, to: Address, answers: bool)
    ensures Transfer(s, id, caller, to, answers).Ok? <==>
            && id in s.tokens && (s.tokens[id].owner == caller || s.tokens[id].approved == Some(caller))
            && Notified(s, answers)
  {
  }

  lemma TransferFromSucceedsIff(s: State, spender: Address, owner: Address, to: Address, id: Str, answers: bool)
    ensures TransferFrom(s, spender, owner, to, id, answers).Ok? <==>
            && id in s.tokens && s.tokens[id].owner == owner && s.tokens[id].approved == Some(spender)
            && Notified(s, answers)
  {
  }

  lemma ApproveSucceedsIff(s: State, id: Str, caller: Address, approved: Option<Address>)
    ensures Approve(s, id, caller, approved).Ok? <==> id in s.tokens && s.tokens[id].owner == caller
  {
  }

  lemma MintSucceedsIff(s: State, auth: set<Address>, id: Str, owner: Address, uri: Option<Str>, expiresAt: U64,
                        answers: bool)
    ensures Mint(s, auth, id, owner, uri, expiresAt, answers).Ok? <==>
            AdminActs(s, auth) && id !in s.tokens && Notified(s, answers)
  {
  }

  lemma AdministratorSucceedsIff(s: State, auth: set<Address>, id: Str, to: Address, expiresAt: U64)
    ensures Burn(s, auth, id).Ok? <==> AdminActs(s, auth) && id in s.tokens
    ensures SyncOwner(s, auth, id, to).Ok? <==> AdminActs(s, auth) && id in s.tokens
    ensures SyncExpiry(s, auth, id, expiresAt).Ok? <==> AdminActs(s, auth) && id in s.tokens
  {
  }

  lemma ConfigurationSucceedsIff(s: State, auth: set<Address>, admin: Address, registry: Address)
    ensures Initialize(s, admin).Ok? <==> s.admin == None
    ensures Initialize(s, admin).Ok? ==> Initialize(s, admin).value == s.(admin := Some(admin))
    ensures SetRegistry(s, auth, admin, registry).Ok? <==> s.admin == Some(admin) && admin in auth
    ensures SetRegistry(s, auth, admin, registry).Ok? ==>
              SetRegistry(s, auth, admin, registry).value == s.(registry := Some(registry))
  {
  }

  // ----- what they do -----

  ghost predicate OthersKept(s: State, t: State, id: Str) {
    forall n :: n != id ==>
      && (n in t.tokens <==> n in s.tokens) && (n in s.tokens ==> t.tokens[n] == s.tokens[n])
      && (forall who :: n in Index.Get(t.owned, who) <==> n in Index.Get(s.owned, who))
  }

  ghost predicate ListedBy(s: State, id: Str, who: Address) {
    forall a :: id in Index.Get(s.owned, a) <==> a == who
  }

  lemma ListedIff(s: State, id: Str, who: Address)
    requires Enumerated(s)
    ensures id in Index.Get(s.owned, who) <==> id in s.tokens && s.tokens[id].owner == who
  {
    assert id in Index.Get(s.owned, who) <==> id in OwnerOf(s.tokens) && OwnerOf(s.tokens)[id] == who;
  }

  /** With the enumeration right before and after, lists follow tokens. */
  lemma ListsFollow(s: State, t: State, id: Str)
    requires Enumerated(s) && Enumerated(t)
    requires forall n :: n != id ==>
               (n in t.tokens <==> n in s.tokens) && (n in s.tokens ==> t.tokens[n] == s.tokens[n])
    ensures OthersKept(s, t, id)
    ensures id in t.tokens ==> ListedBy(t, id, t.tokens[id].owner)
    ensures id !in t.tokens ==> forall a :: id !in Index.Get(t.owned, a)
  {
    forall n, who | n != id ensures n in Index.Get(t.owned, who) <==> n in Index.Get(s.owned, who) {
      ListedIff(s, n, who);
      ListedIff(t, n, who);
    }
    forall who ensures id in Index.Get(t.owned, who) <==> id in t.tokens && t.tokens[id].owner == who {
      ListedIff(t, id, who);
    }
  }

  /** Both transfers deliver: the new owner has the token and alone lists it, no approval is left,
      and nothing else changes. */
  lemma TransferDelivers(s: State, c: Call)
    requires Enumerated(s) && (c.TransferCall? || c.TransferFromCall?) && Outcome(s, c).Ok?
    ensures var t := Outcome(s, c).value;
            && c.id in s.tokens && c.id in t.tokens
            && t.tokens[c.id] == s.tokens[c.id].(owner := c.to, approved := None)
            && ListedBy(t, c.id, c.to) && OthersKept(s, t, c.id)
            && t == s.(tokens := t.tokens, owned := t.owned)
  {
    OutcomeEnumerates(s, c);
    ListsFollow(s, Outcome(s, c).value, c.id);
  }

  /** The administrator's synchronisation does the same but leaves the approval standing, so
      whoever the former owner approved can take the token from the new one. */
  lemma SyncKeepsApproval(s: State, c: Call, spender: Address, to: Address)
    requires Enumerated(s) && c.SyncOwnerCall? && Outcome(s, c).Ok?
    ensures var t := Outcome(s, c).value;
            && c.id in s.tokens && c.id in t.tokens
            && t.tokens[c.id] == s.tokens[c.id].(owner := c.to)
            && ListedBy(t, c.id, c.to) && OthersKept(s, t, c.id)
            && t == s.(tokens := t.tokens, owned := t.owned)
            && (TransferFrom(t, spender, c.to, to, c.id, true).Ok? <==> s.tokens[c.id].approved == Some(spender))
  {
    OutcomeEnumerates(s, c);
    ListsFollow(s, Outcome(s, c).value, c.id);
  }

  lemma MintGives(s: State, c: Call)
    requires Enumerated(s) && c.MintCall? && Outcome(s, c).Ok?
    ensures var t := Outcome(s, c).value;
            && c.id in t.tokens && t.tokens[c.id] == Token(c.owner, None, c.uri, c.expiresAt)
            && t.ids == s.ids + [c.id] && ListedBy(t, c.id, c.owner) && OthersKept(s, t, c.id)
            && t.admin == s.admin && t.registry == s.registry
  {
    OutcomeEnumerates(s, c);
    ListsFollow(s, Outcome(s, c).value, c.id);
  }

  /** A burned token is in no list; the others keep their order. */
  lemma BurnLeavesNothing(s: State, c: Call)
    requires Enumerated(s) && c.BurnCall? && Outcome(s, c).Ok?
    ensures var t := Outcome(s, c).value;
            && c.id !in t.tokens && t.ids == Without(s.ids, c.id) && (forall a :: c.id !in Index.Get(t.owned, a))
            && OthersKept(s, t, c.id) && t.admin == s.admin && t.registry == s.registry
  {
    OutcomeEnumerates(s, c);
    WithoutFirstIsWithout(s.ids, c.id);
    ListsFollow(s, Outcome(s, c).value, c.id);
  }

  /** Approving and synchronising the expiry each write their one field of their one token. */
  lemma RecordCallsWriteOneField(s: State, c: Call)
    requires (c.ApproveCall? || c.SyncExpiryCall?) && Outcome(s, c).Ok?
    ensures var t := Outcome(s, c).value;
            && c.id in s.tokens && t.tokens.Keys == s.tokens.Keys && t == s.(tokens := t.tokens)
            && (forall n :: n in s.tokens && n != c.id ==> t.tokens[n] == s.tokens[n])
            && (c.ApproveCall? ==> t.tokens[c.id] == s.tokens[c.id].(approved := c.approved))
            && (c.SyncExpiryCall? ==> t.tokens[c.id] == s.tokens[c.id].(expiresAt := c.expiresAt))
  {
  }

  // ----- how a token leaves its owner -----

  function Step(s: State, c: Call): State {
    Commit(s, Outcome(s, c))
  }

  predicate Keeps(s: State, t: State, id: Str) {
    id in s.tokens ==> id in t.tokens && t.tokens[id].owner == s.tokens[id].owner
  }

  /** The only ways a token leaves its owner. */
  predicate MayLeave(s: State, c: Call, id: Str)
    requires id in s.tokens
  {
    var k := s.tokens[id];
    || (c.TransferCall? && c.id == id && (c.caller == k.owner || k.approved == Some(c.caller))
        && Notified(s, c.answers))
    || (c.TransferFromCall? && c.id == id && c.owner == k.owner && k.approved == Some(c.spender)
        && Notified(s, c.answers))
    || ((c.SyncOwnerCall? || c.BurnCall?) && c.id == id && AdminActs(s, c.auth))
  }

  lemma StepLeaves(s: State, before: State, c: Call, id: Str)
    requires id in s.tokens && Keeps(s, before, id) && !Keeps(s, Step(before, c), id)
    ensures MayLeave(before, c, id)
  {
  }

  /** The call at `i` is where the token first leaves the owner it had, in one of those ways. */
  ghost predicate LeavesAt(s: State, calls: seq<Call>, id: Str, i: nat)
    requires id in s.tokens && i < |calls|
  {
    && Keeps(s, Run(s, calls[..i]), id) && !Keeps(s, Run(s, calls[..i + 1]), id)
    && MayLeave(Run(s, calls[..i]), calls[i], id)
  }

  lemma LastStepLeaves(s: State, calls: seq<Call>, id: Str)
    requires id in s.tokens && calls != []
    requires Keeps(s, Run(s, calls[..|calls| - 1]), id) && !Keeps(s, Run(s, calls), id)
    ensures LeavesAt(s, calls, id, |calls| - 1)
  {
    StepLeaves(s, Run(s, calls[..|calls| - 1]), calls[|calls| - 1], id);
    assert calls[..|calls| - 1 + 1] == calls;
  }

  lemma LeavesAtExtends(s: State, calls: seq<Call>, id: Str, i: nat)
    requires id in s.tokens && i + 1 < |calls| && LeavesAt(s, calls[..|calls| - 1], id, i)
    ensures LeavesAt(s, calls, id, i)
  {
    var front := calls[..|calls| - 1];
    assert front[..i] == calls[..i] && front[..i + 1] == calls[..i + 1] && front[i] == calls[i];
  }

  /** Over any run from any state: if a token's owner has changed or the token is gone, the step
      that took it was a transfer naming the owner or the approved address, a transfer_from
      naming both, or the administrator's synchronisation or burn. */
  lemma {:induction false} OwnershipSafety(s: State, calls: seq<Call>, id: Str)
    requires id in s.tokens && !Keeps(s, Run(s, calls), id)
    ensures exists i :: 0 <= i < |calls| && LeavesAt(s, calls, id, i)
  {
    var front := calls[..|calls| - 1];
    if Keeps(s, Run(s, front), id) {
      LastStepLeaves(s, calls, id);
    } else {
      OwnershipSafety(s, front, id);
      var i :| 0 <= i < |front| && LeavesAt(s, front, id, i);
      LeavesAtExtends(s, calls, id, i);
    }
  }

  // ----- where an approval comes from -----

  function ApprovalOf(s: State, id: Str): Option<Address> {
    if id in s.tokens then s.tokens[id].approved else None
  }

  lemma StepApproves(s: State, c: Call, id: Str)
    requires ApprovalOf(Step(s, c), id).Some? && ApprovalOf(Step(s, c), id) != ApprovalOf(s, id)
    ensures id in s.tokens && c == ApproveCall(id, s.tokens[id].owner, ApprovalOf(Step(s, c), id))
  {
  }

  /** The call at `i` was the approval of `who` by the owner of the time, and it has stood since. */
  ghost predicate GrantedAt(calls: seq<Call>, id: Str, who: Address, i: nat)
    requires i < |calls|
  {
    && id in Run(Fresh, calls[..i]).tokens
    && calls[i] == ApproveCall(id, Run(Fresh, calls[..i]).tokens[id].owner, Some(who))
    && forall k: nat :: i < k <= |calls| ==> ApprovalOf(Run(Fresh, calls[..k]), id) == Some(who)
  }

  lemma GrantedAtExtends(calls: seq<Call>, id: Str, who: Address, i: nat)
    requires i + 1 < |calls| && GrantedAt(calls[..|calls| - 1], id, who, i)
    requires ApprovalOf(Run(Fresh, calls), id) == Some(who)
    ensures GrantedAt(calls, id, who, i)
  {
    var front := calls[..|calls| - 1];
    assert front[..i] == calls[..i] && front[i] == calls[i];
    forall k: nat | i < k <= |calls| ensures ApprovalOf(Run(Fresh, calls[..k]), id) == Some(who) {
      if k < |calls| {
        assert front[..k] == calls[..k];
      } else {
        assert calls[..k] == calls;
      }
    }
  }

  /** A standing approval is the one the owner of the time last gave. */
  lemma {:induction false} ApprovalWasGranted(calls: seq<Call>, id: Str, who: Address)
    requires ApprovalOf(Run(Fresh, calls), id) == Some(who)
    ensures exists i :: 0 <= i < |calls| && GrantedAt(calls, id, who, i)
  {
    var front, last := calls[..|calls| - 1], calls[|calls| - 1];
    if ApprovalOf(Run(Fresh, front), id) == Some(who) {
      ApprovalWasGranted(front, id, who);
      var i :| 0 <= i < |front| && GrantedAt(front, id, who, i);
      GrantedAtExtends(calls, id, who, i);
    } else {
      StepApproves(Run(Fresh, front), last, id);
      assert calls[..|calls|] == calls;
      assert GrantedAt(calls, id, who, |calls| - 1);
    }
  }

  // ----- errors -----

  /** The reasons an error stands for. */
  predicate Reason(s: State, c: Call, e: Error) {
    match e
    case AlreadyMinted => (c.InitCall? && s.admin.Some?) || (c.MintCall? && c.id in s.tokens)
    case NotFound => !c.InitCall? && !c.SetRegistryCall? && !c.MintCall? && c.id !in s.tokens
    case NotInitialized => c.SetRegistryCall? && s.admin.None?
    case Unauthorized =>
      (match c
       case SetRegistryCall(_, admin, _) => s.admin != Some(admin)
       case ApproveCall(id, caller, _) => id in s.tokens && s.tokens[id].owner != caller
       case TransferCall(id, caller, _, _) =>
         id in s.tokens && s.tokens[id].owner != caller && s.tokens[id].approved != Some(caller)
       case TransferFromCall(spender, owner, _, id, _) =>
         id in s.tokens && (s.tokens[id].owner != owner || s.tokens[id].approved != Some(spender))
       case InitCall(_) => false
       case _ => s.admin.None?)
    case Trap =>
      (match c
       case SetRegistryCall(auth, admin, _) => admin !in auth
       case MintCall(auth, _, _, _, _, answers) => !AdminActs(s, auth) || !Notified(s, answers)
       case TransferCall(_, _, _, answers) => !Notified(s, answers)
       case TransferFromCall(_, _, _, _, answers) => !Notified(s, answers)
       case BurnCall(auth, _) => !AdminActs(s, auth)
       case SyncExpiryCall(auth, _, _) => !AdminActs(s, auth)
       case SyncOwnerCall(auth, _, _) => !AdminActs(s, auth)
       case _ => false)
  }

  /** An error is only ever given for its reason. */
  lemma ErrorsAreTrue(s: State, c: Call)
    requires Outcome(s, c).Err?
    ensures Reason(s, c, Outcome(s, c).error)
  {
  }
}
