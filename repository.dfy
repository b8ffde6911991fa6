/** What the JPA repositories' `save` does with an entity's id: an id naming a
    stored row overwrites that row (a merge); a missing id, or one the store
    does not hold, adds a new row under a freshly generated id. Rows are kept
    in insertion order and row `k` carries id `k + 1`. */
module Repository {
  import opened Wrappers

  /** The position `save` writes an entity with the given id to, in a store
      of `n` rows; `n` means a new row at the end. */
  function SaveSlot(n: nat, id: Option<int>): (k: nat)
    ensures k <= n
    ensures k < n <==> id.Some? && 1 <= id.value <= n
    ensures k < n ==> id == Some(k + 1)
    ensures id.None? ==> k == n
  {
    if id.Some? && 1 <= id.value <= n then id.value - 1 else n
  }
}
