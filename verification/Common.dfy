/**
 Shared vocabulary: outcomes, bounded integers with the saturating operators the
 contracts use, host strings, and the list operations behind every hand-kept index.
 */
module Common {

  datatype Option<+T> = None | Some(value: T)

  datatype Result<+T, +E> = Ok(value: T) | Err(error: E)
  {
    predicate IsFailure() { Err? }

    function PropagateFailure<U>(): Result<U, E>
      requires Err?
    {
      Err(error)
    }

    function Extract(): T
      requires Ok?
    {
      value
    }
  }

  function Check<E>(condition: bool, error: E): Result<(), E> {
    if condition then Ok(()) else Err(error)
  }

  /** The host discards every write of an entry point that returns an error or traps. */
  function Commit<S, E>(before: S, outcome: Result<S, E>): S {
    match outcome
    case Ok(after) => after
    case Err(_) => before
  }

  type Byte = x: int | 0 <= x < 256

  /** A host string: an arbitrary sequence of bytes. */
  type Str = seq<Byte>

  datatype Address = Address(key: Str)

  const U64_MAX: int := 0xFFFF_FFFF_FFFF_FFFF
  const U32_MAX: int := 0xFFFF_FFFF

  type U64 = x: int | 0 <= x <= U64_MAX
  type U32 = x: int | 0 <= x <= U32_MAX

  function SatAdd(a: U64, b: U64): U64 {
    if a + b <= U64_MAX then a + b else U64_MAX
  }

  function SatSub(a: U64, b: U64): U64 {
    if b <= a then a - b else 0
  }

  function SatMul(a: U64, b: U64): U64 {
    if 0 <= a * b <= U64_MAX then a * b else U64_MAX
  }

  function SatInc(a: U32): U32 {
    if a < U32_MAX then a + 1 else U32_MAX
  }

  function Min(a: int, b: int): int {
    if a <= b then a else b
  }

  function Max(a: int, b: int): int {
    if a >= b then a else b
  }

  function Not<T(==)>(x: T): T -> bool {
    y => y != x
  }

  /** What a call leaves behind and answers: the outcome's state, or on an error nothing. */
  predicate Did<S(==), E(==)>(before: S, after: S, outcome: Result<S, E>, answer: Result<(), E>) {
    && after == Commit(before, outcome)
    && answer == (if outcome.Ok? then Ok(()) else Err(outcome.error))
  }

  // ----- lists -----

  ghost predicate Distinct<T>(s: seq<T>) {
    forall i, j :: 0 <= i < j < |s| ==> s[i] != s[j]
  }

  /** The elements satisfying `keep`, in order. */
  function Filter<T>(s: seq<T>, keep: T -> bool): seq<T> {
    if s == [] then []
    else
      var front := Filter(s[..|s| - 1], keep);
      if keep(s[|s| - 1]) then front + [s[|s| - 1]] else front
  }

  lemma FilterStep<T>(s: seq<T>, keep: T -> bool, i: nat)
    requires i < |s|
    ensures Filter(s[..i + 1], keep) == Filter(s[..i], keep) + (if keep(s[i]) then [s[i]] else [])
  {
    assert s[..i + 1][..i] == s[..i];
  }

  lemma {:induction false} FilterMembers<T>(s: seq<T>, keep: T -> bool)
    ensures forall x :: x in Filter(s, keep) <==> x in s && keep(x)
  {
    if s != [] {
      FilterMembers(s[..|s| - 1], keep);
      assert s == s[..|s| - 1] + [s[|s| - 1]];
    }
  }

  lemma {:induction false} FilterDistinct<T>(s: seq<T>, keep: T -> bool)
    requires Distinct(s)
    ensures Distinct(Filter(s, keep))
  {
    if s != [] {
      FilterDistinct(s[..|s| - 1], keep);
      FilterMembers(s[..|s| - 1], keep);
    }
  }

  lemma {:induction false} FilterAppend<T>(a: seq<T>, b: seq<T>, keep: T -> bool)
    ensures Filter(a + b, keep) == Filter(a, keep) + Filter(b, keep)
  {
    if b == [] {
      assert a + b == a;
    } else {
      FilterAppend(a, b[..|b| - 1], keep);
      assert (a + b)[..|a + b| - 1] == a + b[..|b| - 1];
    }
  }

  lemma {:induction false} FilterAll<T>(s: seq<T>, keep: T -> bool)
    requires forall x :: x in s ==> keep(x)
    ensures Filter(s, keep) == s
  {
    if s != [] {
      FilterAll(s[..|s| - 1], keep);
    }
  }

  lemma {:induction false} FilterNone<T>(s: seq<T>, keep: T -> bool)
    requires forall x :: x in s ==> !keep(x)
    ensures Filter(s, keep) == []
  {
    if s != [] {
      FilterNone(s[..|s| - 1], keep);
    }
  }

  lemma {:induction false} FilterAgree<T>(s: seq<T>, p: T -> bool, q: T -> bool)
    requires forall x :: x in s ==> p(x) == q(x)
    ensures Filter(s, p) == Filter(s, q)
  {
    if s != [] {
      FilterAgree(s[..|s| - 1], p, q);
    }
  }

  function Both<T>(p: T -> bool, q: T -> bool): T -> bool {
    x => p(x) && q(x)
  }

  lemma {:induction false} FilterFilter<T>(s: seq<T>, p: T -> bool, q: T -> bool)
    ensures Filter(Filter(s, p), q) == Filter(s, Both(p, q))
  {
    if s != [] {
      var front := s[..|s| - 1];
      FilterFilter(front, p, q);
      if p(s[|s| - 1]) {
        FilterAppend(Filter(front, p), [s[|s| - 1]], q);
        assert Filter([s[|s| - 1]], q) == if q(s[|s| - 1]) then [s[|s| - 1]] else [];
      }
    }
  }

  /** Every occurrence of `x` dropped. */
  function Without<T(==)>(s: seq<T>, x: T): seq<T> {
    Filter(s, Not(x))
  }

  /** The first occurrence of `x` dropped. */
  function WithoutFirst<T(==)>(s: seq<T>, x: T): seq<T> {
    if s == [] then []
    else if s[0] == x then s[1..]
    else [s[0]] + WithoutFirst(s[1..], x)
  }

  /** On a duplicate-free list dropping the first occurrence drops them all. */
  lemma {:induction false} WithoutFirstIsWithout<T>(s: seq<T>, x: T)
    requires Distinct(s)
    ensures WithoutFirst(s, x) == Without(s, x)
  {
    if s != [] {
      FilterAppend([s[0]], s[1..], Not(x));
      assert [s[0]] + s[1..] == s;
      assert Filter([s[0]], Not(x)) == if s[0] != x then [s[0]] else [];
      if s[0] == x {
        FilterAll(s[1..], Not(x));
      } else {
        WithoutFirstIsWithout(s[1..], x);
      }
    }
  }

  ghost function Elements<T>(s: seq<T>): set<T> {
    set x | x in s
  }

  lemma {:induction false} DistinctCardinality<T>(s: seq<T>)
    requires Distinct(s)
    ensures |Elements(s)| == |s|
  {
    if s != [] {
      var front := s[..|s| - 1];
      DistinctCardinality(front);
      assert s == front + [s[|s| - 1]];
      assert s[|s| - 1] !in Elements(front);
      assert Elements(s) == Elements(front) + {s[|s| - 1]};
    }
  }
}
