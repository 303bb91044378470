/** Node-format attribute forks (`AttrNode`): the attribute fork is a list of
extents; a directory-style B+tree node (`XfsDa3Intnode`) indexes leaf blocks
by hash, and the leaves are chained left to right by `forw`.

Leaf blocks are read through a cache keyed by fork block (`dablk`), and the
total size of the names is computed once and memoised. The node's
`first_block` and `lookup`, the decoding of a leaf block at a file-system
block, `hashname`, and the leaf operations are not part of this model: they
are fields of `NodeEnv`.
 */
module NodeAttr {
  import opened Bytes
  import opened Wrappers
  import opened Bmbt
  import opened Attr

  /** The collaborators of a node-format fork, fixed for one inode. */
  datatype NodeEnv = NodeEnv(
    /** The leaf decoded at `fsb_to_offset` of a file-system block. */
    leafAt: nat -> Leaf,
    /** `first_block` of the root node: the fork block of the leftmost leaf. */
    firstBlock: nat,
    /** `lookup` in the root node: the fork block of the leaf holding a hash. */
    lookup: u32 -> Result<nat>,
    hashname: seq<byte> -> u32,
    /** The leaf operations `get_total_size`, `list` and `get`. */
    leafTotal: Leaf -> u32,
    leafList: Leaf -> seq<byte>,
    leafGet: (Leaf, u32) -> Result<seq<byte>>)

  /** The state of `AttrNode`: the fork's extents, the memoised total (`-1`
      until computed) and the cache of leaves by fork block. */
  datatype AttrNode = AttrNode(bmx: seq<BmbtRec>, totalSize: int, leaves: map<nat, Leaf>)

  /** `new`: nothing computed, nothing cached. */
  function New(bmx: seq<BmbtRec>): (a: AttrNode)
    ensures a.bmx == bmx && a.totalSize == UNKNOWN_TOTAL && a.leaves == map[]
  {
    AttrNode(bmx, UNKNOWN_TOTAL, map[])
  }

  /** The extents are ordered by fork offset and do not overlap, as XFS keeps them. */
  ghost predicate Sorted(bmx: seq<BmbtRec>)
  {
    forall i, j :: 0 <= i < j < |bmx| ==> bmx[i].startoff + bmx[i].blockcount <= bmx[j].startoff
  }

  predicate Covers(rec: BmbtRec, d: nat)
  {
    rec.startoff <= d < rec.startoff + rec.blockcount
  }

  ghost predicate Covered(bmx: seq<BmbtRec>, d: nat)
  {
    exists k :: 0 <= k < |bmx| && Covers(bmx[k], d)
  }

  /** The first extent that covers `d`. */
  function CoverIndex(bmx: seq<BmbtRec>, d: nat): (k: nat)
    requires Covered(bmx, d)
    ensures k < |bmx| && Covers(bmx[k], d)
    decreases |bmx|
  {
    if Covers(bmx[0], d) then 0
    else
      assert Covered(bmx[1..], d) by {
        var k :| 0 <= k < |bmx| && Covers(bmx[k], d);
        assert bmx[1..][k - 1] == bmx[k];
      }
      1 + CoverIndex(bmx[1..], d)
  }

  /** The file-system block that holds fork block `d`. */
  function Mapped(bmx: seq<BmbtRec>, d: nat): (fsb: nat)
    requires Covered(bmx, d)
    ensures var rec := bmx[CoverIndex(bmx, d)];
      rec.startblock <= fsb < rec.startblock + rec.blockcount && fsb - rec.startblock == d - rec.startoff
  {
    var rec := bmx[CoverIndex(bmx, d)];
    rec.startblock + (d - rec.startoff)
  }

  /** Among non-overlapping extents, at most one covers a block. */
  lemma CoverUnique(bmx: seq<BmbtRec>, d: nat, k: nat)
    requires Sorted(bmx) && k < |bmx| && Covers(bmx[k], d)
    ensures Covered(bmx, d) && CoverIndex(bmx, d) == k
  {
    forall j | 0 <= j < |bmx| && j != k ensures !Covers(bmx[j], d) {
      if j < k {
        assert bmx[j].startoff + bmx[j].blockcount <= bmx[k].startoff;
      } else {
        assert bmx[k].startoff + bmx[k].blockcount <= bmx[j].startoff;
      }
    }
  }

  /** `partition_point(|rec| rec.br_startoff <= dblock)` by binary search: the
      number of extents that start at or before `dblock`. */
  method PartitionPoint(bmx: seq<BmbtRec>, dblock: nat) returns (i: nat)
    requires Sorted(bmx)
    ensures i <= |bmx|
    ensures forall k :: 0 <= k < i ==> bmx[k].startoff <= dblock
    ensures forall k :: i <= k < |bmx| ==> bmx[k].startoff > dblock
  {
    var lo, hi := 0, |bmx|;
    while lo < hi
      invariant 0 <= lo <= hi <= |bmx|
      invariant forall k :: 0 <= k < lo ==> bmx[k].startoff <= dblock
      invariant forall k :: hi <= k < |bmx| ==> bmx[k].startoff > dblock
      decreases hi - lo
    {
      var mid := lo + (hi - lo) / 2;
      if bmx[mid].startoff <= dblock {
        forall k | 0 <= k <= mid ensures bmx[k].startoff <= dblock {
          if k < mid {
            assert bmx[k].startoff + bmx[k].blockcount <= bmx[mid].startoff;
          }
        }
        lo := mid + 1;
      } else {
        forall k | mid <= k < |bmx| ensures bmx[k].startoff > dblock {
          if k > mid {
            assert bmx[mid].startoff + bmx[mid].blockcount <= bmx[k].startoff;
          }
        }
        hi := mid;
      }
    }
    i := lo;
  }

  /** `map_dblock`: the last extent starting at or before `dblock` must cover
      it, and the block is found at the same distance into the extent on
      disk. Otherwise the source panics (index `i - 1` below zero, or the
      "dblock not found" assertion). */
  method MapDblock(bmx: seq<BmbtRec>, dblock: nat) returns (r: Outcome<nat>)
    requires Sorted(bmx)
    ensures r.Returns? <==> Covered(bmx, dblock)
    ensures r.Returns? ==> r.result == Mapped(bmx, dblock)
  {
    var i := PartitionPoint(bmx, dblock);
    if i == 0 {
      assert forall k :: 0 <= k < |bmx| ==> !Covers(bmx[k], dblock);
      return Panics;
    }
    var entry := bmx[i - 1];
    if !(entry.startoff <= dblock && entry.startoff + entry.blockcount > dblock) {
      forall k | 0 <= k < |bmx| ensures !Covers(bmx[k], dblock) {
        if k < i - 1 {
          assert bmx[k].startoff + bmx[k].blockcount <= entry.startoff;
        }
      }
      return Panics;
    }
    CoverUnique(bmx, dblock, i - 1);
    return Returns(entry.startblock + (dblock - entry.startoff));
  }

  /** The leaf stored at fork block `d`, as on disk. */
  function LeafOf(bmx: seq<BmbtRec>, env: NodeEnv, d: nat): Leaf
    requires Covered(bmx, d)
  {
    env.leafAt(Mapped(bmx, d))
  }

  /** The cache holds only leaves as they are on disk. */
  ghost predicate Coherent(a: AttrNode, env: NodeEnv)
  {
    && Sorted(a.bmx)
    && forall d :: d in a.leaves ==> Covered(a.bmx, d) && a.leaves[d] == LeafOf(a.bmx, env, d)
  }

  /** `read_leaf`: a cached leaf is returned without reading; otherwise the
      fork block is mapped, which panics for a block no extent covers, and the
      leaf is read from disk and cached, and no other entry changes. The cache
      stays coherent, so the caller always sees the leaf on disk. */
  method ReadLeaf(a: AttrNode, env: NodeEnv, dblock: nat) returns (a': AttrNode, r: Outcome<Leaf>)
    requires Coherent(a, env)
    ensures r.Returns? <==> Covered(a.bmx, dblock)
    ensures r.Returns? ==> r.result == LeafOf(a.bmx, env, dblock) && a'.leaves == a.leaves[dblock := r.result]
    ensures dblock in a.leaves || r.Panics? ==> a' == a
    ensures Coherent(a', env) && a'.bmx == a.bmx && a'.totalSize == a.totalSize
  {
    if dblock in a.leaves {
      var leaf := a.leaves[dblock];
      assert a.leaves[dblock := leaf] == a.leaves;
      return a, Returns(leaf);
    }
    var fsblock := MapDblock(a.bmx, dblock);
    if fsblock.Panics? {
      return a, Panics;
    }
    var leaf := env.leafAt(fsblock.result);
    a' := a.(leaves := a.leaves[dblock := leaf]);
    CacheInsert(a, env, dblock, leaf);
    r := Returns(leaf);
  }

  /** Caching the leaf as on disk keeps the cache coherent. */
  lemma CacheInsert(a: AttrNode, env: NodeEnv, dblock: nat, leaf: Leaf)
    requires Coherent(a, env) && Covered(a.bmx, dblock) && leaf == LeafOf(a.bmx, env, dblock)
    ensures Coherent(a.(leaves := a.leaves[dblock := leaf]), env)
  {
    var a' := a.(leaves := a.leaves[dblock := leaf]);
    forall d | d in a'.leaves ensures Covered(a.bmx, d) && a'.leaves[d] == LeafOf(a.bmx, env, d) {
      if d != dblock {
        assert d in a.leaves;
      }
    }
  }

  /** `chain` is the leaf chain from fork block `dablk` along `forw` to the
      leaf whose `forw` is `0`; it is empty when `dablk` is `0`. Every block
      on it is mapped by an extent. */
  ghost predicate ChainFrom(bmx: seq<BmbtRec>, env: NodeEnv, dablk: nat, chain: seq<nat>)
    decreases |chain|
  {
    if dablk == 0 then chain == []
    else
      && chain != [] && chain[0] == dablk && Covered(bmx, dablk)
      && ChainFrom(bmx, env, LeafOf(bmx, env, dablk).forw, chain[1..])
  }

  /** The sum of the leaf totals along a chain. */
  function ChainTotal(bmx: seq<BmbtRec>, env: NodeEnv, dablk: nat, chain: seq<nat>): nat
    requires ChainFrom(bmx, env, dablk, chain)
    decreases |chain|
  {
    if dablk == 0 then 0
    else
      var leaf := LeafOf(bmx, env, dablk);
      env.leafTotal(leaf) + ChainTotal(bmx, env, leaf.forw, chain[1..])
  }

  /** The concatenated listings along a chain. */
  function ChainListing(bmx: seq<BmbtRec>, env: NodeEnv, dablk: nat, chain: seq<nat>): seq<byte>
    requires ChainFrom(bmx, env, dablk, chain)
    decreases |chain|
  {
    if dablk == 0 then []
    else
      var leaf := LeafOf(bmx, env, dablk);
      env.leafList(leaf) + ChainListing(bmx, env, leaf.forw, chain[1..])
  }

  /** What `get_total_size` returns: the memoised value if there is one,
      otherwise the sum of the leaf totals along the chain from `first_block`. */
  ghost function TotalOutcome(a: AttrNode, env: NodeEnv, chain: seq<nat>): Outcome<u32>
    requires a.totalSize == UNKNOWN_TOTAL ==> ChainFrom(a.bmx, env, env.firstBlock, chain)
  {
    if a.totalSize != UNKNOWN_TOTAL then StoredTotal(a.totalSize)
    else AccumulatedTotal(ChainTotal(a.bmx, env, env.firstBlock, chain))
  }

  /** One pass of a chain walk: read the leaf at `dablk` through the cache. */
  method ChainStep(a: AttrNode, env: NodeEnv, dablk: nat, ghost rest: seq<nat>) returns (a': AttrNode, leaf: Leaf)
    requires ChainFrom(a.bmx, env, dablk, rest) && dablk != 0
    requires Coherent(a, env)
    ensures Covered(a.bmx, dablk) && leaf == LeafOf(a.bmx, env, dablk)
    ensures rest != [] && ChainFrom(a.bmx, env, leaf.forw, rest[1..])
    ensures Coherent(a', env) && a'.bmx == a.bmx && a'.totalSize == a.totalSize
  {
    var r;
    a', r := ReadLeaf(a, env, dablk);
    leaf := r.result;
  }

  /** The walk of `get_total_size`: the leaf totals summed in a `u32`; an
      addition that overflows panics. */
  method SumChain(a: AttrNode, env: NodeEnv, ghost chain: seq<nat>) returns (a': AttrNode, r: Outcome<u32>)
    requires Coherent(a, env)
    requires ChainFrom(a.bmx, env, env.firstBlock, chain)
    ensures r == AccumulatedTotal(ChainTotal(a.bmx, env, env.firstBlock, chain))
    ensures Coherent(a', env) && a'.bmx == a.bmx && a'.totalSize == a.totalSize
  {
    ghost var whole := ChainTotal(a.bmx, env, env.firstBlock, chain);
    var total: nat := 0;
    var dablk: nat := env.firstBlock;
    ghost var rest := chain;
    a' := a;
    while dablk != 0
      invariant Coherent(a', env) && a'.bmx == a.bmx && a'.totalSize == a.totalSize
      invariant ChainFrom(a.bmx, env, dablk, rest)
      invariant total + ChainTotal(a.bmx, env, dablk, rest) == whole && total < U32_LIMIT
      decreases |rest|
    {
      var leaf;
      a', leaf := ChainStep(a', env, dablk, rest);
      if total + env.leafTotal(leaf) >= U32_LIMIT {
        return a', Panics;
      }
      total := total + env.leafTotal(leaf);
      dablk, rest := leaf.forw, rest[1..];
    }
    r := Returns(total);
  }

  /** `get_total_size`: computed only while `total_size` is `-1`, then stored;
      a stored value is returned without walking. */
  method GetTotalSize(a: AttrNode, env: NodeEnv, ghost chain: seq<nat>) returns (a': AttrNode, r: Outcome<u32>)
    requires Coherent(a, env)
    requires a.totalSize == UNKNOWN_TOTAL ==> ChainFrom(a.bmx, env, env.firstBlock, chain)
    ensures r == TotalOutcome(a, env, chain)
    ensures a.totalSize != UNKNOWN_TOTAL ==> a' == a
    ensures a.totalSize == UNKNOWN_TOTAL && r.Returns? ==> a'.totalSize == r.result
    ensures Coherent(a', env) && a'.bmx == a.bmx
  {
    if a.totalSize != UNKNOWN_TOTAL {
      return a, StoredTotal(a.totalSize);
    }
    a', r := SumChain(a, env, chain);
    if r.Returns? {
      a' := a'.(totalSize := r.result);
    }
  }

  /** The walk of `list`: the listings of the leaves appended in chain order. */
  method ListChain(a: AttrNode, env: NodeEnv, ghost chain: seq<nat>) returns (a': AttrNode, list: seq<byte>)
    requires Coherent(a, env)
    requires ChainFrom(a.bmx, env, env.firstBlock, chain)
    ensures list == ChainListing(a.bmx, env, env.firstBlock, chain)
    ensures Coherent(a', env) && a'.bmx == a.bmx && a'.totalSize == a.totalSize
  {
    ghost var whole := ChainListing(a.bmx, env, env.firstBlock, chain);
    list := [];
    var dablk: nat := env.firstBlock;
    ghost var rest := chain;
    a' := a;
    while dablk != 0
      invariant Coherent(a', env) && a'.bmx == a.bmx && a'.totalSize == a.totalSize
      invariant ChainFrom(a.bmx, env, dablk, rest)
      invariant list + ChainListing(a.bmx, env, dablk, rest) == whole
      decreases |rest|
    {
      var leaf;
      a', leaf := ChainStep(a', env, dablk, rest);
      ConcatAssoc(list, env.leafList(leaf), ChainListing(a.bmx, env, leaf.forw, rest[1..]));
      list := list + env.leafList(leaf);
      dablk, rest := leaf.forw, rest[1..];
    }
  }

  /** `list`: the total size is computed first (it only sizes the buffer),
      then the listings of the leaves are concatenated in chain order. */
  method List(a: AttrNode, env: NodeEnv, ghost chain: seq<nat>) returns (a': AttrNode, r: Outcome<seq<byte>>)
    requires Coherent(a, env)
    requires ChainFrom(a.bmx, env, env.firstBlock, chain)
    ensures r.Panics? <==> TotalOutcome(a, env, chain).Panics?
    ensures r.Returns? ==> r.result == ChainListing(a.bmx, env, env.firstBlock, chain)
    ensures Coherent(a', env) && a'.bmx == a.bmx
    ensures a.totalSize != UNKNOWN_TOTAL ==> a'.totalSize == a.totalSize
    ensures a.totalSize == UNKNOWN_TOTAL && r.Returns? ==> a'.totalSize == TotalOutcome(a, env, chain).result
  {
    var total;
    a', total := GetTotalSize(a, env, chain);
    if total.Panics? {
      return a', Panics;
    }
    var list;
    a', list := ListChain(a', env, chain);
    r := Returns(list);
  }

  /** When each leaf's total is the length of its listing, the computed total
      is exactly the length of the list. */
  lemma {:induction false} ListLengthIsTotal(bmx: seq<BmbtRec>, env: NodeEnv, dablk: nat, chain: seq<nat>)
    requires ChainFrom(bmx, env, dablk, chain)
    requires forall d :: Covered(bmx, d) ==> env.leafTotal(LeafOf(bmx, env, d)) == |env.leafList(LeafOf(bmx, env, d))|
    ensures |ChainListing(bmx, env, dablk, chain)| == ChainTotal(bmx, env, dablk, chain)
    decreases |chain|
  {
    if dablk != 0 {
      ListLengthIsTotal(bmx, env, LeafOf(bmx, env, dablk).forw, chain[1..]);
    }
  }

  /** `get`: look the name's hash up in the root node, reporting a missing
      leaf as `ENOATTR` and any other error unchanged, then ask the leaf. A
      fork block that no extent covers makes `map_dblock` panic. */
  method Get(a: AttrNode, env: NodeEnv, name: seq<byte>) returns (a': AttrNode, r: Outcome<Result<seq<byte>>>)
    requires Coherent(a, env)
    ensures var hash := env.hashname(name);
      match env.lookup(hash)
      case Err(e) => r == Returns(Err(if e == ENOENT then ENOATTR else e)) && a' == a
      case Ok(dablk) =>
        && (r.Returns? <==> Covered(a.bmx, dablk))
        && (r.Returns? ==> && r.result == env.leafGet(LeafOf(a.bmx, env, dablk), hash)
                           && a'.leaves == a.leaves[dablk := LeafOf(a.bmx, env, dablk)])
    ensures Coherent(a', env) && a'.bmx == a.bmx && a'.totalSize == a.totalSize
  {
    var hash := env.hashname(name);
    var found := TranslateErrno(env.lookup(hash), ENOENT, ENOATTR);
    if found.Err? {
      return a, Returns(Err(found.errno));
    }
    var leaf;
    a', leaf := ReadLeaf(a, env, found.value);
    if leaf.Panics? {
      return a', Panics;
    }
    r := Returns(env.leafGet(leaf.result, hash));
  }
}
