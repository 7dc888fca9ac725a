/** Paged reads of a stored list, shared by the registry, the tracker and the marketplace. */
module Paging {
  import opened Common

  /** What a paged read returns: at most `limit` elements from `offset` on. */
  function Page<T>(list: seq<T>, offset: u32, limit: u32): seq<T> {
    if offset >= |list| then [] else list[offset..Min(SaturatingAdd(offset, limit), |list|)]
  }

  /** A client walking through consecutive pages until it is past the end of the list. */
  function Walk<T>(list: seq<T>, offset: nat, limit: u32): seq<T>
    requires 1 <= limit && |list| <= U32_MAX
    decreases |list| - offset
  {
    if offset >= |list| then []
    else Page(list, offset, limit) + Walk(list, offset + limit, limit)
  }

  lemma PageThenRest<T>(list: seq<T>, offset: nat, limit: u32)
    requires offset < |list| <= U32_MAX
    ensures Page(list, offset, limit)
            + (if offset + limit <= |list| then list[offset + limit..] else []) == list[offset..]
  {
  }

  /** Consecutive pages, put together, are the whole list: nothing skipped or repeated.
      The list is no longer than a u32 can count, as for every Soroban vector. */
  lemma {:induction false} PagesCoverList<T>(list: seq<T>, offset: nat, limit: u32)
    requires 1 <= limit && |list| <= U32_MAX
    ensures Walk(list, offset, limit) == if offset <= |list| then list[offset..] else []
    decreases |list| - offset
  {
    if offset < |list| {
      PagesCoverList(list, offset + limit, limit);
      assert Walk(list, offset, limit) == Page(list, offset, limit) + Walk(list, offset + limit, limit);
      PageThenRest(list, offset, limit);
    }
  }
}
