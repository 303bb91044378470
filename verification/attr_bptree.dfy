/** B+tree-format attribute forks (`AttrBtree`): the attribute fork is mapped
by a block-map B+tree (`BtreeRoot`), logical block 0 of the fork holds the
root node (`XfsDa3Intnode`), and the leaves are chained left to right by
`forw`. Leaf blocks are read at `fsblock * blocksize`.

Every operation starts from logical block 0 of the fork; lookups are keyed by
`hashname(name)`. `map_block`, the node's `first_block` and `lookup`, the
leaf decoder, `hashname` and the leaf operations are not part of this model:
they are fields of `BtreeEnv`.
 */
module BtreeAttr {
  import opened Bytes
  import opened Wrappers
  import opened Attr

  /** The collaborators of a B+tree-format fork, fixed for one inode. */
  datatype BtreeEnv = BtreeEnv(
    blocksize: nat,
    /** `BtreeRoot::map_block`: the file-system block of a fork block. */
    mapBlock: nat -> Result<nat>,
    /** `first_block` of the node at a file-system block: the leftmost leaf's file-system block. */
    firstLeaf: nat -> nat,
    /** `lookup` in the node at a file-system block: the file-system block of the leaf for a hash. */
    lookup: (nat, u32) -> Result<nat>,
    /** `AttrLeafblock::from` at a byte offset. */
    leafAt: nat -> Leaf,
    hashname: seq<byte> -> u32,
    /** The leaf operations, each given the byte offset it is told the leaf sits at. */
    leafTotal: (Leaf, nat) -> u32,
    leafList: (Leaf, nat) -> seq<byte>,
    leafGetSize: (Leaf, u32, nat) -> Result<u32>,
    leafGet: (Leaf, u32, nat) -> seq<byte>)

  /** The state of `AttrBtree` beyond its root: the memoised total, `-1` until computed. */
  datatype AttrBtree = AttrBtree(totalSize: int)

  /** The byte offset of the leftmost leaf, once the root node is mapped. */
  function FirstLeafOffset(env: BtreeEnv): nat
    requires env.mapBlock(0).Ok?
  {
    env.firstLeaf(env.mapBlock(0).value) * env.blocksize
  }

  /** `chain` lists the byte offsets of the leaves from the one at `off`
      along `forw` to the leaf whose `forw` is `0`; every `forw` on the way
      is mapped. */
  ghost predicate ChainFrom(env: BtreeEnv, off: nat, chain: seq<nat>)
    decreases |chain|
  {
    && chain != [] && chain[0] == off
    && var forw := env.leafAt(off).forw;
       if forw == 0 then |chain| == 1
       else env.mapBlock(forw).Ok? && ChainFrom(env, env.mapBlock(forw).value * env.blocksize, chain[1..])
  }

  /** The offset of the leaf after the one at `off`. */
  function NextOffset(env: BtreeEnv, off: nat): nat
    requires env.mapBlock(env.leafAt(off).forw).Ok?
  {
    env.mapBlock(env.leafAt(off).forw).value * env.blocksize
  }

  /** The sum of the leaf totals of the leaves after the one at `off`. */
  function RestTotal(env: BtreeEnv, off: nat, chain: seq<nat>): nat
    requires ChainFrom(env, off, chain)
    decreases |chain|, 0
  {
    if env.leafAt(off).forw == 0 then 0
    else ChainTotal(env, NextOffset(env, off), chain[1..])
  }

  /** The sum of the leaf totals along a chain. */
  function ChainTotal(env: BtreeEnv, off: nat, chain: seq<nat>): nat
    requires ChainFrom(env, off, chain)
    decreases |chain|, 1
  {
    env.leafTotal(env.leafAt(off), off) + RestTotal(env, off, chain)
  }

  /** The listings of the leaves after the one at `off`. */
  function RestListing(env: BtreeEnv, off: nat, chain: seq<nat>): seq<byte>
    requires ChainFrom(env, off, chain)
    decreases |chain|, 0
  {
    if env.leafAt(off).forw == 0 then []
    else ChainListing(env, NextOffset(env, off), chain[1..])
  }

  /** The concatenated listings along a chain. */
  function ChainListing(env: BtreeEnv, off: nat, chain: seq<nat>): seq<byte>
    requires ChainFrom(env, off, chain)
    decreases |chain|, 1
  {
    env.leafList(env.leafAt(off), off) + RestListing(env, off, chain)
  }

  /** What `get_total_size` returns: the memoised value if there is one;
      otherwise a panic if the root cannot be mapped, else the sum of the
      leaf totals from the first leaf along the chain. */
  ghost function TotalOutcome(a: AttrBtree, env: BtreeEnv, chain: seq<nat>): Outcome<u32>
    requires a.totalSize == UNKNOWN_TOTAL && env.mapBlock(0).Ok? ==> ChainFrom(env, FirstLeafOffset(env), chain)
  {
    if a.totalSize != UNKNOWN_TOTAL then StoredTotal(a.totalSize)
    else if env.mapBlock(0).Err? then Panics
    else AccumulatedTotal(ChainTotal(env, FirstLeafOffset(env), chain))
  }

  /** One pass of a chain walk: map `forw` and read the next leaf. */
  method NextLeaf(env: BtreeEnv, off: nat, ghost rest: seq<nat>) returns (off': nat, leaf: Leaf)
    requires ChainFrom(env, off, rest) && env.leafAt(off).forw != 0
    ensures env.mapBlock(env.leafAt(off).forw).Ok? && off' == NextOffset(env, off)
    ensures leaf == env.leafAt(off') && ChainFrom(env, off', rest[1..])
  {
    var lfblk := env.mapBlock(env.leafAt(off).forw);
    off' := lfblk.value * env.blocksize;
    leaf := env.leafAt(off');
  }

  /** The walk of `get_total_size`: the first leaf always counts, then each
      leaf reached while `forw` is not `0`; the sum is kept in a `u32`, and an
      addition that overflows panics. */
  method SumChain(env: BtreeEnv, first: nat, ghost chain: seq<nat>) returns (r: Outcome<u32>)
    requires ChainFrom(env, first, chain)
    ensures r == AccumulatedTotal(ChainTotal(env, first, chain))
  {
    ghost var whole := ChainTotal(env, first, chain);
    var off := first;
    var leaf := env.leafAt(first);
    var total: nat := env.leafTotal(leaf, first);
    ghost var rest := chain;
    while leaf.forw != 0
      invariant ChainFrom(env, off, rest) && leaf == env.leafAt(off)
      invariant total + RestTotal(env, off, rest) == whole && total < U32_LIMIT
      decreases |rest|
    {
      off, leaf := NextLeaf(env, off, rest);
      rest := rest[1..];
      if total + env.leafTotal(leaf, off) >= U32_LIMIT {
        return Panics;
      }
      total := total + env.leafTotal(leaf, off);
    }
    r := Returns(total);
  }

  /** `get_total_size`: computed only while `total_size` is `-1`, starting at
      the root node in fork block 0 (an unmapped root panics), then stored; a
      stored value is returned without walking. */
  method GetTotalSize(a: AttrBtree, env: BtreeEnv, ghost chain: seq<nat>) returns (a': AttrBtree, r: Outcome<u32>)
    requires a.totalSize == UNKNOWN_TOTAL && env.mapBlock(0).Ok? ==> ChainFrom(env, FirstLeafOffset(env), chain)
    ensures r == TotalOutcome(a, env, chain)
    ensures a.totalSize != UNKNOWN_TOTAL ==> a' == a
    ensures a.totalSize == UNKNOWN_TOTAL && r.Returns? ==> a'.totalSize == r.result
  {
    if a.totalSize != UNKNOWN_TOTAL {
      return a, StoredTotal(a.totalSize);
    }
    var root := env.mapBlock(0);
    if root.Err? {
      return a, Panics;
    }
    var leafOffset := env.firstLeaf(root.value) * env.blocksize;
    r := SumChain(env, leafOffset, chain);
    a' := if r.Returns? then AttrBtree(r.result) else a;
  }

  /** The walk of `list`: the first leaf's listing, then each following one. */
  method ListChain(env: BtreeEnv, first: nat, ghost chain: seq<nat>) returns (list: seq<byte>)
    requires ChainFrom(env, first, chain)
    ensures list == ChainListing(env, first, chain)
  {
    ghost var whole := ChainListing(env, first, chain);
    var off := first;
    var leaf := env.leafAt(first);
    list := env.leafList(leaf, first);
    ghost var rest := chain;
    while leaf.forw != 0
      invariant ChainFrom(env, off, rest) && leaf == env.leafAt(off)
      invariant list + RestListing(env, off, rest) == whole
      decreases |rest|
    {
      off, leaf := NextLeaf(env, off, rest);
      rest := rest[1..];
      ConcatAssoc(list, env.leafList(leaf, off), RestListing(env, off, rest));
      list := list + env.leafList(leaf, off);
    }
  }

  /** `list`: the total size is computed first (it only sizes the buffer),
      then the listings of the leaves from the first one are concatenated in
      chain order. Either step panics if the root cannot be mapped. */
  method List(a: AttrBtree, env: BtreeEnv, ghost chain: seq<nat>) returns (a': AttrBtree, r: Outcome<seq<byte>>)
    requires env.mapBlock(0).Ok? ==> ChainFrom(env, FirstLeafOffset(env), chain)
    ensures r.Panics? <==> TotalOutcome(a, env, chain).Panics? || env.mapBlock(0).Err?
    ensures r.Returns? ==> r.result == ChainListing(env, FirstLeafOffset(env), chain)
    ensures a.totalSize != UNKNOWN_TOTAL ==> a'.totalSize == a.totalSize
    ensures a.totalSize == UNKNOWN_TOTAL && r.Returns? ==> a'.totalSize == TotalOutcome(a, env, chain).result
  {
    var total;
    a', total := GetTotalSize(a, env, chain);
    if total.Panics? {
      return a', Panics;
    }
    var root := env.mapBlock(0);
    if root.Err? {
      return a', Panics;
    }
    var list := ListChain(env, env.firstLeaf(root.value) * env.blocksize, chain);
    r := Returns(list);
  }

  /** When each leaf's total is the length of its listing, the computed total
      is exactly the length of the list. */
  lemma {:induction false} ListLengthIsTotal(env: BtreeEnv, off: nat, chain: seq<nat>)
    requires ChainFrom(env, off, chain)
    requires forall o :: env.leafTotal(env.leafAt(o), o) == |env.leafList(env.leafAt(o), o)|
    ensures |ChainListing(env, off, chain)| == ChainTotal(env, off, chain)
    decreases |chain|
  {
    if env.leafAt(off).forw != 0 {
      ListLengthIsTotal(env, NextOffset(env, off), chain[1..]);
    }
  }

  /** The leaf a lookup of `hash` starts at, as a byte offset: the root node
      is mapped from fork block 0 and asked for the hash; a hash the node
      does not know is reported as `ENOATTR`, every other error unchanged. */
  function StartLeaf(env: BtreeEnv, hash: u32): (r: Result<nat>)
    ensures env.mapBlock(0).Err? ==> r == Err(env.mapBlock(0).errno)
    ensures env.mapBlock(0).Ok? ==>
      r == match env.lookup(env.mapBlock(0).value, hash)
           case Err(e) => Err(if e == ENOENT then ENOATTR else e)
           case Ok(blk) => Ok(blk * env.blocksize)
  {
    match env.mapBlock(0)
    case Err(e) => Err(e)
    case Ok(root) =>
      match TranslateErrno(env.lookup(root, hash), ENOENT, ENOATTR)
      case Err(e) => Err(e)
      case Ok(blk) => Ok(blk * env.blocksize)
  }

  /** What one pass of the `get_size` loop does with the leaf it has read. */
  datatype Pass = Answer(r: Result<u32>) | Continue(next: nat)

  /** A pass of the loop as written: the leaf at `pos` is asked for the size
      as if it sat at `leafOffset`, the offset of the first leaf; on a miss
      whose hash continues past the leaf's last entry, `forw` is mapped and
      followed even when it is `0`. */
  function ProbeAsWritten(env: BtreeEnv, hash: u32, pos: nat, leafOffset: nat): (p: Pass)
    ensures var leaf := env.leafAt(pos);
      && (p.Continue? <==>
          env.leafGetSize(leaf, hash, leafOffset) == Err(ENOATTR) && LastHash(leaf) == Some(hash)
          && env.mapBlock(leaf.forw).Ok?)
      && (p.Continue? ==> p.next == env.mapBlock(leaf.forw).value * env.blocksize)
      && (env.leafGetSize(leaf, hash, leafOffset).Ok? ==> p == Answer(env.leafGetSize(leaf, hash, leafOffset)))
  {
    var leaf := env.leafAt(pos);
    match env.leafGetSize(leaf, hash, leafOffset)
    case Ok(l) => Answer(Ok(l))
    case Err(e) =>
      if e == ENOATTR && LastHash(leaf) == Some(hash) then
        match env.mapBlock(leaf.forw)
        case Err(e') => Answer(Err(e'))
        case Ok(b) => Continue(b * env.blocksize)
      else Answer(Err(e))
  }

  /** A pass of the loop as evidently intended: the leaf is asked at its own
      offset, and the last leaf of the chain ends the search. */
  function Probe(env: BtreeEnv, hash: u32, pos: nat): (p: Pass)
    ensures var leaf := env.leafAt(pos);
      && (p.Continue? <==>
          env.leafGetSize(leaf, hash, pos) == Err(ENOATTR) && LastHash(leaf) == Some(hash)
          && leaf.forw != 0 && env.mapBlock(leaf.forw).Ok?)
      && (p.Continue? ==> p.next == env.mapBlock(leaf.forw).value * env.blocksize)
      && (env.leafGetSize(leaf, hash, pos).Ok? ==> p == Answer(env.leafGetSize(leaf, hash, pos)))
      && (leaf.forw == 0 ==> p == Answer(env.leafGetSize(leaf, hash, pos)))
  {
    var leaf := env.leafAt(pos);
    match env.leafGetSize(leaf, hash, pos)
    case Ok(l) => Answer(Ok(l))
    case Err(e) =>
      if e == ENOATTR && LastHash(leaf) == Some(hash) && leaf.forw != 0 then
        match env.mapBlock(leaf.forw)
        case Err(e') => Answer(Err(e'))
        case Ok(b) => Continue(b * env.blocksize)
      else Answer(Err(e))
  }

  /** Which pass the loop runs. */
  datatype Variant = AsWritten(leafOffset: nat) | Corrected

  function ProbeBy(env: BtreeEnv, hash: u32, how: Variant, pos: nat): Pass
  {
    match how
    case AsWritten(leafOffset) => ProbeAsWritten(env, hash, pos, leafOffset)
    case Corrected => Probe(env, hash, pos)
  }

  /** The loop reaches an answer within `fuel` passes from `pos`. */
  ghost predicate Settles(env: BtreeEnv, hash: u32, how: Variant, pos: nat, fuel: nat)
    decreases fuel
  {
    fuel > 0 &&
    match ProbeBy(env, hash, how, pos)
    case Answer(_) => true
    case Continue(next) => Settles(env, hash, how, next, fuel - 1)
  }

  /** The answer the loop reaches. */
  function Settled(env: BtreeEnv, hash: u32, how: Variant, pos: nat, fuel: nat): Result<u32>
    requires Settles(env, hash, how, pos, fuel)
    decreases fuel
  {
    match ProbeBy(env, hash, how, pos)
    case Answer(r) => r
    case Continue(next) => Settled(env, hash, how, next, fuel - 1)
  }

  /** The loop of `get_size`, from the leaf at `pos`. */
  method RetryLoop(env: BtreeEnv, hash: u32, how: Variant, pos: nat, ghost fuel: nat) returns (r: Result<u32>)
    requires Settles(env, hash, how, pos, fuel)
    ensures r == Settled(env, hash, how, pos, fuel)
  {
    var cur := pos;
    ghost var left := fuel;
    while true
      invariant Settles(env, hash, how, cur, left)
      invariant Settled(env, hash, how, cur, left) == Settled(env, hash, how, pos, fuel)
      decreases left
    {
      var p := ProbeBy(env, hash, how, cur);
      match p
      case Answer(res) => return res;
      case Continue(next) => cur, left := next, left - 1;
    }
  }

  /** `get_size` as written: start at the leaf the root node names for the
      hash, and retry along `forw` passing the first leaf's offset. */
  method GetSizeAsWritten(env: BtreeEnv, name: seq<byte>, ghost fuel: nat) returns (r: Result<u32>)
    requires var start := StartLeaf(env, env.hashname(name));
      start.Ok? ==> Settles(env, env.hashname(name), AsWritten(start.value), start.value, fuel)
    ensures var start := StartLeaf(env, env.hashname(name));
      r == if start.Err? then Err(start.errno)
           else Settled(env, env.hashname(name), AsWritten(start.value), start.value, fuel)
  {
    var hash := env.hashname(name);
    var start := StartLeaf(env, hash);
    if start.Err? {
      return Err(start.errno);
    }
    r := RetryLoop(env, hash, AsWritten(start.value), start.value, fuel);
  }

  /** `get_size` as evidently intended: each leaf is asked at its own offset
      and the search ends at the last leaf. */
  method GetSize(env: BtreeEnv, name: seq<byte>, ghost fuel: nat) returns (r: Result<u32>)
    requires var start := StartLeaf(env, env.hashname(name));
      start.Ok? ==> Settles(env, env.hashname(name), Corrected, start.value, fuel)
    ensures var start := StartLeaf(env, env.hashname(name));
      r == if start.Err? then Err(start.errno)
           else Settled(env, env.hashname(name), Corrected, start.value, fuel)
  {
    var hash := env.hashname(name);
    var start := StartLeaf(env, hash);
    if start.Err? {
      return Err(start.errno);
    }
    r := RetryLoop(env, hash, Corrected, start.value, fuel);
  }

  /** On the first leaf both versions ask at the same offset, so they agree
      unless that leaf is the last one and its miss would be retried. */
  lemma FirstProbeAgrees(env: BtreeEnv, hash: u32, start: nat)
    requires env.leafAt(start).forw != 0
          || env.leafGetSize(env.leafAt(start), hash, start) != Err(ENOATTR)
          || LastHash(env.leafAt(start)) != Some(hash)
    ensures ProbeAsWritten(env, hash, start, start) == Probe(env, hash, start)
  {
  }

  /** `get`: the root node's lookup error is returned unchanged (no
      `ENOATTR` translation); otherwise the leaf it names is asked for the
      value at its own offset. */
  function Get(env: BtreeEnv, name: seq<byte>): (r: Result<seq<byte>>)
    ensures env.mapBlock(0).Err? ==> r == Err(env.mapBlock(0).errno)
    ensures env.mapBlock(0).Ok? ==>
      var hash := env.hashname(name);
      r == match env.lookup(env.mapBlock(0).value, hash)
           case Err(e) => Err(e)
           case Ok(blk) => Ok(env.leafGet(env.leafAt(blk * env.blocksize), hash, blk * env.blocksize))
  {
    var hash := env.hashname(name);
    match env.mapBlock(0)
    case Err(e) => Err(e)
    case Ok(root) =>
      match env.lookup(root, hash)
      case Err(e) => Err(e)
      case Ok(blk) =>
        var leafOffset := blk * env.blocksize;
        Ok(env.leafGet(env.leafAt(leafOffset), hash, leafOffset))
  }

  /** For a hash the root node does not know, `get` answers `ENOENT` while
      `get_size` answers `ENOATTR`. */
  lemma GetAndGetSizeDisagreeOnMiss(env: BtreeEnv, name: seq<byte>)
    requires env.mapBlock(0).Ok? && env.lookup(env.mapBlock(0).value, env.hashname(name)) == Err(ENOENT)
    ensures Get(env, name) == Err(ENOENT)
    ensures StartLeaf(env, env.hashname(name)) == Err(ENOATTR)
  {
  }

  /** An environment with two chained leaves at offsets 10 and 20 whose second
      leaf holds the attribute: its size is the offset the leaf is asked at. */
  function TwoLeafEnv(): BtreeEnv
  {
    BtreeEnv(
      1,
      b => Ok(b),
      _ => 10,
      (_, _) => Ok(10),
      off => if off == 10 then Leaf(20, [7], []) else Leaf(0, [7], []),
      _ => 7,
      (_, _) => 0,
      (_, _) => [],
      (leaf: Leaf, _, off) => if leaf.forw == 20 then Err(ENOATTR) else Ok(off % 0x100),
      (_, _, _) => [])
  }

  /** The stale offset: when the name is found in the second leaf, the source
      asks that leaf at the first leaf's offset (10); asked at its own offset
      (20), the leaf answers differently. */
  lemma StaleOffsetRetry()
    ensures StartLeaf(TwoLeafEnv(), 7) == Ok(10)
    ensures ProbeAsWritten(TwoLeafEnv(), 7, 10, 10) == Continue(20)
    ensures Settles(TwoLeafEnv(), 7, AsWritten(10), 10, 2) && Settled(TwoLeafEnv(), 7, AsWritten(10), 10, 2) == Ok(10)
    ensures Settles(TwoLeafEnv(), 7, Corrected, 10, 2) && Settled(TwoLeafEnv(), 7, Corrected, 10, 2) == Ok(20)
  {
    var env := TwoLeafEnv();
    assert env.leafAt(10) == Leaf(20, [7], []);
    assert env.leafAt(20) == Leaf(0, [7], []);
    assert ProbeAsWritten(env, 7, 20, 10) == Answer(Ok(10));
    assert Probe(env, 7, 10) == Continue(20);
    assert Probe(env, 7, 20) == Answer(Ok(20));
  }

  /** An environment whose only leaf (at offset 10, `forw == 0`) misses the
      name but ends with its hash; the root node sits at offset 5. */
  function OneLeafEnv(): BtreeEnv
  {
    BtreeEnv(
      1,
      b => if b == 0 then Ok(5) else Ok(b),
      _ => 10,
      (_, _) => Ok(10),
      off => if off == 10 then Leaf(0, [7], []) else Leaf(0, [], []),
      _ => 7,
      (_, _) => 0,
      (_, _) => [],
      (_, _, _) => Err(ENOATTR),
      (_, _, _) => [])
  }

  /** Following `forw == 0`: a miss in the last leaf whose last hash equals
      the target makes the source map fork block 0 and read the root node's
      block (offset 5) as a leaf; the search should end with `ENOATTR`. */
  lemma LastLeafRereadsRoot()
    ensures OneLeafEnv().leafAt(10).forw == 0
    ensures ProbeAsWritten(OneLeafEnv(), 7, 10, 10) == Continue(OneLeafEnv().mapBlock(0).value * OneLeafEnv().blocksize)
    ensures Probe(OneLeafEnv(), 7, 10) == Answer(Err(ENOATTR))
  {
    var env := OneLeafEnv();
    assert env.leafAt(10) == Leaf(0, [7], []);
  }
}
