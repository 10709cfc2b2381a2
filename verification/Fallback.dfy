/**
 Wildcard resolution: a name without a forward record is answered from its nearest
 ancestor that has one.
 */
module Fallback {
  import opened Common
  import opened Names
  import opened Resolver

  const MAX_NAME_LEN := 256

  /** `name` without its leftmost label. */
  function ParentName(name: Str): Option<Str> {
    var d := FirstSep(name, DOT);
    if name == [] || |name| > MAX_NAME_LEN || d == |name| || name[d + 1..] == [] then None
    else Some(name[d + 1..])
  }

  predicate WildcardEnabled(s: State, name: Str) {
    name in s.wildcard ==> s.wildcard[name]
  }

  /** The name left after dropping `k` leading labels. */
  function Ancestor(name: Str, k: nat): Str
    requires k < |Split(name, DOT)|
  {
    Join(Split(name, DOT)[k..], DOT)
  }

  /** The `k`-th ancestor is the nearest one with a forward record, within `maxHops` steps. */
  ghost predicate IsNearest(s: State, name: Str, maxHops: nat, k: nat) {
    && k < |Split(name, DOT)| && k <= maxHops
    && Ancestor(name, k) in s.forward
    && forall j :: 0 <= j < k ==> Ancestor(name, j) !in s.forward
  }

  /** The answer: record and wildcard flag. */
  datatype Resolution = Resolution(record: Record, isWildcard: bool)

  ghost predicate Answers(s: State, name: Str, maxHops: nat, r: Resolution) {
    exists k: nat ::
      && IsNearest(s, name, maxHops, k)
      && (k > 0 ==> WildcardEnabled(s, Ancestor(name, k)))
      && r == Resolution(s.forward[Ancestor(name, k)], k > 0)
  }

  // ----- walking up the labels -----

  lemma SplitFacts(name: Str, k: nat)
    requires k < |Split(name, DOT)|
    ensures SepFree(Split(name, DOT)[k..], DOT)
    ensures Split(Ancestor(name, k), DOT) == Split(name, DOT)[k..]
  {
    JoinSplit(name, DOT);
    SplitJoin(Split(name, DOT)[k..], DOT);
  }

  lemma AncestorZero(name: Str)
    ensures Ancestor(name, 0) == name
  {
    JoinSplit(name, DOT);
    assert Split(name, DOT)[0..] == Split(name, DOT);
  }

  /** Dropping one more label shortens the name, and it is what `parent_name` computes: for
      every name, there is no parent at the last label, beyond the buffer, or when nothing
      follows the first dot. */
  lemma ParentIsNextAncestor(name: Str, k: nat)
    requires k < |Split(name, DOT)|
    ensures ParentName(Ancestor(name, k)) ==
            if k + 1 < |Split(name, DOT)| && |Ancestor(name, k)| <= MAX_NAME_LEN && Ancestor(name, k + 1) != []
            then Some(Ancestor(name, k + 1)) else None
    ensures k + 1 < |Split(name, DOT)| ==> |Ancestor(name, k + 1)| < |Ancestor(name, k)|
  {
    var parts := Split(name, DOT)[k..];
    SplitFacts(name, k);
    assert DOT !in parts[0];
    if |parts| > 1 {
      var rest := Join(parts[1..], DOT);
      assert Split(name, DOT)[k + 1..] == parts[1..];
      FirstSepAppend(parts[0], rest, DOT);
      assert (parts[0] + [DOT] + rest)[|parts[0]| + 1..] == rest;
    }
  }

  lemma AncestorShrinks(name: Str, k: nat)
    requires IsFqdn(name) && k < |Split(name, DOT)|
    ensures Ancestor(name, k) != [] && |Ancestor(name, k)| <= |name| <= MAX_NAME_LEN
    ensures k > 0 ==> |Ancestor(name, k)| < |name|
  {
    FqdnLanguage(name);
    var labels :| Spells(labels, name);
    FqdnParts(labels, name);
    var parts := Split(name, DOT);
    LastPartKept(parts, k);
    assert parts[|parts| - 1] == XLM;
    ShorterSuffix(parts, k);
    AncestorZero(name);
  }

  lemma LastPartKept(parts: seq<Str>, k: nat)
    requires k < |parts| && parts[|parts| - 1] != []
    ensures Join(parts[k..], DOT) != []
  {
  }

  lemma {:induction false} ShorterSuffix(parts: seq<Str>, k: nat)
    requires k < |parts|
    ensures |Join(parts[k..], DOT)| + k <= |Join(parts, DOT)|
  {
    if k == 0 {
      assert parts[0..] == parts;
    } else {
      ShorterSuffix(parts, k - 1);
      assert parts[k - 1..][1..] == parts[k..];
    }
  }

  /** The walk has met a record after `k` steps: this decides the answer. */
  lemma Found(s: State, name: Str, maxHops: nat, k: nat)
    requires IsFqdn(name) && IsNearest(s, name, maxHops, k)
    ensures Ancestor(name, k) == name <==> k == 0
    ensures k == 0 || WildcardEnabled(s, Ancestor(name, k)) ==>
              Answers(s, name, maxHops, Resolution(s.forward[Ancestor(name, k)], k > 0))
    ensures k > 0 && !WildcardEnabled(s, Ancestor(name, k)) ==> forall a :: !Answers(s, name, maxHops, a)
  {
    AncestorZero(name);
    AncestorShrinks(name, k);
    NearestUnique(s, name, maxHops, k);
  }

  /** The walk has ended at the hop limit or at the last label without meeting a record. */
  lemma NotFound(s: State, name: Str, maxHops: nat, k: nat)
    requires k < |Split(name, DOT)| && (k == maxHops || k + 1 == |Split(name, DOT)|)
    requires forall j :: 0 <= j <= k ==> Ancestor(name, j) !in s.forward
    ensures forall a :: !Answers(s, name, maxHops, a)
  {
  }

  /** The loop of `resolve_with_fallback`: look up, then drop one label, at most `maxHops` times. */
  method ResolveWithFallback(s: State, name: Str, maxHops: nat) returns (r: Option<Resolution>)
    ensures r.Some? ==> IsFqdn(name) && Answers(s, name, maxHops, r.value)
    ensures r.None? ==> !IsFqdn(name) || forall a :: !Answers(s, name, maxHops, a)
  {
    var valid := CheckFqdn(name);
    if valid.Err? {
      return None;
    }
    var current := name;
    var hops := 0;
    ghost var parts := Split(name, DOT);
    AncestorZero(name);
    while true
      invariant 0 <= hops < |parts| && hops <= maxHops
      invariant current == Ancestor(name, hops)
      invariant forall j :: 0 <= j < hops ==> Ancestor(name, j) !in s.forward
      decreases |current|
    {
      if current in s.forward {
        Found(s, name, maxHops, hops);
        if current == name {
          return Some(Resolution(s.forward[current], false));
        }
        if WildcardEnabled(s, current) {
          return Some(Resolution(s.forward[current], true));
        }
        return None;
      }
      if hops >= maxHops {
        NotFound(s, name, maxHops, hops);
        return None;
      }
      AncestorShrinks(name, hops);
      if hops + 1 < |parts| {
        AncestorShrinks(name, hops + 1);
      }
      ParentIsNextAncestor(name, hops);
      var parent := ParentName(current);
      if parent.None? {
        NotFound(s, name, maxHops, hops);
        return None;
      }
      current := parent.value;
      hops := hops + 1;
    }
  }

  lemma NearestUnique(s: State, name: Str, maxHops: nat, k: nat)
    requires IsNearest(s, name, maxHops, k)
    ensures forall j: nat :: IsNearest(s, name, maxHops, j) ==> j == k
  {
  }

  /** There is at most one answer. */
  lemma AnswerUnique(s: State, name: Str, maxHops: nat, a: Resolution, b: Resolution)
    requires Answers(s, name, maxHops, a) && Answers(s, name, maxHops, b)
    ensures a == b
  {
  }

  /** In every reachable state the bare TLD has no record, so no name is ever answered from it. */
  lemma NeverFromTld(calls: seq<Call>, name: Str, maxHops: nat, k: nat)
    requires IsFqdn(name) && IsNearest(Run(Fresh, calls), name, maxHops, k)
    ensures k + 1 < |Split(name, DOT)|
  {
    RunKeepsBoundsAndNames(calls);
    assert IsFqdn(Ancestor(name, k));
    FqdnLanguage(Ancestor(name, k));
    var labels :| Spells(labels, Ancestor(name, k));
    FqdnParts(labels, Ancestor(name, k));
    SplitFacts(name, k);
  }
}
