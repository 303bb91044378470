/** What the node-format and B+tree-format attribute forks share: their leaf
blocks, linked left to right by `forw`, and the bookkeeping of the memoised
total size.

The leaf blocks themselves (`AttrLeafblock`) are decoded and queried by code
that is not part of this model; a traversal sees a leaf only through its
forward link, the hashes of its entries, and the leaf operations that the
environment of each fork supplies.
 */
module Attr {
  import opened Bytes
  import opened Wrappers

  /** An attribute leaf block: the fork block of its right sibling (`0` for
      the last leaf), the hash of each entry in order, and the rest of the
      block, which only the leaf operations interpret. */
  datatype Leaf = Leaf(forw: u32, hashes: seq<u32>, body: seq<byte>)

  /** The hash of the last entry of a leaf, if it has any. */
  function LastHash(leaf: Leaf): (h: Option<u32>)
    ensures h.None? <==> |leaf.hashes| == 0
    ensures h.Some? ==> h.value == leaf.hashes[|leaf.hashes| - 1]
  {
    if |leaf.hashes| == 0 then None else Some(leaf.hashes[|leaf.hashes| - 1])
  }

  /** The sentinel `total_size == -1`: not yet computed. */
  const UNKNOWN_TOTAL: int := -1

  const U32_LIMIT: nat := 0x1_0000_0000

  /** Returning the stored `i64` total as `u32` (`try_into().unwrap()`). */
  function StoredTotal(stored: int): (r: Outcome<u32>)
    ensures r.Returns? <==> 0 <= stored < U32_LIMIT
    ensures r.Returns? ==> r.result == stored
  {
    if 0 <= stored < U32_LIMIT then Returns(stored) else Panics
  }

  /** A total accumulated in a `u32`: the addition that overflows panics
      (overflow checks on), so only a sum below `2^32` is returned. */
  function AccumulatedTotal(sum: nat): (r: Outcome<u32>)
    ensures r.Returns? <==> sum < U32_LIMIT
    ensures r.Returns? ==> r.result == sum
  {
    if sum < U32_LIMIT then Returns(sum) else Panics
  }
}
