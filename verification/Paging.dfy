/**
 The bounded windows through which the auction index is read.
 */
module Paging {
  import opened Common

  const MAX_PAGE_SIZE: U32 := 100

  /** At most `min(limit, 100)` elements after the first `offset`. */
  function Page<T>(index: seq<T>, offset: nat, limit: nat): seq<T> {
    var start := Min(offset, |index|);
    index[start..Min(start + Min(limit, MAX_PAGE_SIZE), |index|)]
  }

  /** A page has as many elements as asked for, as allowed and as there are, in order. */
  lemma PageIs<T>(index: seq<T>, offset: nat, limit: nat, j: nat)
    ensures |Page(index, offset, limit)| == Max(0, Min(Min(limit, 100), |index| - offset))
    ensures j < |Page(index, offset, limit)| ==> Page(index, offset, limit)[j] == index[offset + j]
  {
  }

  /** The copying loop of `slice_index`. */
  method SliceIndex<T>(index: seq<T>, offset: U32, limit: U32) returns (out: seq<T>)
    ensures out == Page(index, offset, limit)
  {
    out := [];
    if offset >= |index| {
      return;
    }
    var capped := if limit > MAX_PAGE_SIZE then MAX_PAGE_SIZE else limit;
    var i: nat := offset;
    while i < |index| && i - offset < capped
      invariant offset <= i <= |index| && i <= offset + capped
      invariant |out| == i - offset && forall j :: 0 <= j < |out| ==> out[j] == index[offset + j]
    {
      out := out + [index[i]];
      i := i + 1;
    }
    assert out == index[offset..i];
  }

  /** The loop of `filter_index`, which stops as soon as the window is full. */
  method FilterIndex<T>(index: seq<T>, offset: U32, limit: U32, keep: T -> bool) returns (emitted: seq<T>)
    ensures emitted == Page(Filter(index, keep), offset, limit)
  {
    var capped := if limit > MAX_PAGE_SIZE then MAX_PAGE_SIZE else limit;
    var matched: nat := 0;
    emitted := [];
    var i := 0;
    while i < |index|
      invariant 0 <= i <= |index|
      invariant matched == |Filter(index[..i], keep)|
      invariant emitted == Page(Filter(index[..i], keep), offset, limit)
    {
      FilterStep(index, keep, i);
      if keep(index[i]) {
        PageGrows(Filter(index[..i], keep), index[i], offset, limit);
        if matched >= offset && |emitted| < capped {
          emitted := emitted + [index[i]];
        }
        matched := matched + 1;
        if |emitted| >= capped {
          FullPageStays(index, keep, i + 1, offset, limit);
          return;
        }
      }
      i := i + 1;
    }
    assert index[..i] == index;
  }

  lemma PageGrows<T>(seen: seq<T>, x: T, offset: nat, limit: nat)
    ensures Page(seen + [x], offset, limit) ==
            if |seen| >= offset && |Page(seen, offset, limit)| < Min(limit, MAX_PAGE_SIZE)
            then Page(seen, offset, limit) + [x] else Page(seen, offset, limit)
  {
    if |seen| < offset {
      assert Page(seen, offset, limit) == [] == Page(seen + [x], offset, limit);
    } else if |seen| - offset < Min(limit, MAX_PAGE_SIZE) {
      assert Page(seen, offset, limit) == seen[offset..];
      assert Page(seen + [x], offset, limit) == seen[offset..] + [x];
    } else {
      assert Page(seen + [x], offset, limit) == seen[offset..offset + Min(limit, MAX_PAGE_SIZE)];
    }
  }

  /** A full window does not change however much of the index is still to come. */
  lemma FullPageStays<T>(index: seq<T>, keep: T -> bool, i: nat, offset: nat, limit: nat)
    requires i <= |index| && |Page(Filter(index[..i], keep), offset, limit)| >= Min(limit, MAX_PAGE_SIZE)
    ensures Page(Filter(index, keep), offset, limit) == Page(Filter(index[..i], keep), offset, limit)
  {
    assert index == index[..i] + index[i..];
    FilterAppend(index[..i], index[i..], keep);
    FullPrefix(Filter(index[..i], keep), Filter(index[i..], keep), offset, limit);
  }

  lemma FullPrefix<T>(seen: seq<T>, more: seq<T>, offset: nat, limit: nat)
    requires |Page(seen, offset, limit)| >= Min(limit, MAX_PAGE_SIZE)
    ensures Page(seen + more, offset, limit) == Page(seen, offset, limit)
  {
  }

  /** The pages 0, 1, ..., `count` - 1 of a given size, one after the other. */
  function Pages<T>(index: seq<T>, size: nat, count: nat): seq<T> {
    if count == 0 then [] else Pages(index, size, count - 1) + Page(index, (count - 1) * size, size)
  }

  lemma NextPage<T>(index: seq<T>, start: nat, size: nat)
    requires size <= MAX_PAGE_SIZE
    ensures index[..Min(start, |index|)] + Page(index, start, size) == index[..Min(start + size, |index|)]
  {
  }

  /** Successive pages of any admissible size tile the index, each element once, in order. */
  lemma {:induction false} PagesTile<T>(index: seq<T>, size: nat, count: nat)
    requires 1 <= size <= MAX_PAGE_SIZE
    ensures Pages(index, size, count) == index[..Min(count * size, |index|)]
  {
    if count > 0 {
      var start: nat := (count - 1) * size;
      PagesTile(index, size, count - 1);
      NextPage(index, start, size);
      assert start + size == count * size;
    }
  }

  /** Hence enough of them give back the whole index. */
  lemma PagesCover<T>(index: seq<T>, size: nat, count: nat)
    requires 1 <= size <= MAX_PAGE_SIZE && count * size >= |index|
    ensures Pages(index, size, count) == index
  {
    PagesTile(index, size, count);
  }
}
