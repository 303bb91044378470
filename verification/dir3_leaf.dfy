/** Leaf-format directories: the name entries live in several directory data
blocks, and one separate leaf block holds the sorted (hash, address) index
into them. Covers building the directory from its extent list, name lookup
through the hash index with collision retries, and `readdir`'s resumable
scan with its 64-bit cookies.
 */
module Dir3Leaf {
  import opened Bytes
  import opened Wrappers
  import opened Bmbt
  import opened Dir3
  import opened Utils
  import opened Arith

  /** The superblock fields the directory code reads. */
  datatype Geometry = Geometry(blocksize: nat, dirblklog: nat)

  predicate ValidGeometry(g: Geometry)
  {
    g.blocksize > 0
  }

  /** File-system blocks per directory block. */
  function BlockStep(g: Geometry): (step: nat)
    ensures step >= 1
  {
    Pow2(g.dirblklog)
  }

  /** Bytes per directory block: `blocksize << dirblklog`. */
  function DirBlockSize(g: Geometry): (dblksize: nat)
    requires ValidGeometry(g)
    ensures dblksize >= g.blocksize
  {
    g.blocksize * BlockStep(g)
  }

  const XFS_DIR3_LEAF1_MAGIC: u16 := 0x3df1

  // ---------------------------------------------------------------------------
  // Leaf addresses.

  /** A leaf address counts 8-byte units across the concatenated data blocks:
      it splits into a data-block index and a byte offset inside that block. */
  function SplitAddress(address: u32, dblksize: nat): (r: (nat, nat))
    requires dblksize > 0
    ensures r.0 * dblksize + r.1 == address * 8
    ensures r.1 < dblksize
  {
    var byteAddr := address * 8;
    (byteAddr / dblksize, byteAddr % dblksize)
  }

  /** The address of the 8-byte aligned offset `off` of data block `idx`. */
  function JoinAddress(idx: nat, off: nat, dblksize: nat): nat
  {
    (idx * dblksize + off) / 8
  }

  /** Splitting the address of an aligned position inside a block gives the
      block and the offset back. */
  lemma SplitJoin(idx: nat, off: nat, dblksize: nat)
    requires dblksize > 0 && dblksize % 8 == 0
    requires off < dblksize && off % 8 == 0
    requires JoinAddress(idx, off, dblksize) < 0x1_0000_0000
    ensures SplitAddress(JoinAddress(idx, off, dblksize) as u32, dblksize) == (idx, off)
  {
    JoinExact(idx, off, dblksize);
    SplitUnique(JoinAddress(idx, off, dblksize) * 8, dblksize, idx, off);
  }

  /** The byte position of an aligned offset is a whole number of 8-byte
      units, so the address loses nothing. */
  lemma JoinExact(idx: nat, off: nat, dblksize: nat)
    requires dblksize % 8 == 0 && off % 8 == 0
    ensures JoinAddress(idx, off, dblksize) * 8 == idx * dblksize + off
  {
    var d8, o8 := dblksize / 8, off / 8;
    var units := idx * d8 + o8;
    assert idx * dblksize + off == units * 8 by {
      assert dblksize == d8 * 8 && off == o8 * 8;
      assert idx * dblksize == (idx * d8) * 8;
    }
    SplitUnique(idx * dblksize + off, 8, units, 0);
  }

  /** Joining the two halves of a split gives the address back. */
  lemma JoinSplit(address: u32, dblksize: nat)
    requires dblksize > 0
    ensures JoinAddress(SplitAddress(address, dblksize).0, SplitAddress(address, dblksize).1, dblksize) == address
  {
  }

  // ---------------------------------------------------------------------------
  // Construction from the extent list.

  /** Byte offsets of the directory data blocks of one extent, from its
      logical block `lo` on: one per `BlockStep` file-system blocks. */
  function ExtentOffsets(rec: BmbtRec, g: Geometry, lo: nat): (offs: seq<nat>)
    decreases rec.blockcount - lo
  {
    if lo >= rec.blockcount then []
    else [(rec.startblock + lo) * g.blocksize] + ExtentOffsets(rec, g, lo + BlockStep(g))
  }

  /** The data-block offsets of a list of extents, in extent order. */
  function DataOffsets(recs: seq<BmbtRec>, g: Geometry): (offs: seq<nat>)
  {
    if |recs| == 0 then []
    else DataOffsets(recs[.. |recs| - 1], g) + ExtentOffsets(recs[|recs| - 1], g, 0)
  }

  /** Logical block `i` of the extent starts a data block when counting from
      logical block `lo`: it is a whole number of steps past `lo`. */
  predicate StartsDataBlock(rec: BmbtRec, g: Geometry, lo: nat, i: nat)
  {
    lo <= i < rec.blockcount && (i - lo) % BlockStep(g) == 0
  }

  /** An extent contributes a data block at exactly every `BlockStep`-th
      file-system block it holds, counting from its first. */
  lemma {:induction false} ExtentOffsetsMembers(rec: BmbtRec, g: Geometry, lo: nat, o: nat)
    ensures o in ExtentOffsets(rec, g, lo) <==>
              exists i: nat :: StartsDataBlock(rec, g, lo, i) && o == (rec.startblock + i) * g.blocksize
    decreases rec.blockcount - lo
  {
    var step := BlockStep(g);
    if lo < rec.blockcount {
      ExtentOffsetsMembers(rec, g, lo + step, o);
      if o in ExtentOffsets(rec, g, lo) {
        if o != (rec.startblock + lo) * g.blocksize {
          var i: nat :| StartsDataBlock(rec, g, lo + step, i) && o == (rec.startblock + i) * g.blocksize;
          ShiftMod(i - lo, step);
          assert StartsDataBlock(rec, g, lo, i);
        } else {
          assert StartsDataBlock(rec, g, lo, lo);
        }
      } else {
        forall i: nat | StartsDataBlock(rec, g, lo, i)
          ensures o != (rec.startblock + i) * g.blocksize
        {
          if i > lo {
            ModStepAtLeast(i - lo, step);
            ShiftMod(i - lo, step);
            assert StartsDataBlock(rec, g, lo + step, i);
          }
        }
      }
    }
  }

  /** An extent of `count` blocks yields ceil(count / step) data blocks. */
  lemma {:induction false} ExtentOffsetsCount(rec: BmbtRec, g: Geometry, lo: nat)
    requires lo <= rec.blockcount
    ensures |ExtentOffsets(rec, g, lo)| == (rec.blockcount - lo + BlockStep(g) - 1) / BlockStep(g)
    decreases rec.blockcount - lo
  {
    var step := BlockStep(g);
    var a := rec.blockcount - lo;
    if lo < rec.blockcount {
      if lo + step <= rec.blockcount {
        ExtentOffsetsCount(rec, g, lo + step);
        assert (a + step - 1) / step == 1 + (a - step + step - 1) / step by {
          DivShift(a - 1, step);
        }
      } else {
        assert ExtentOffsets(rec, g, lo + step) == [];
        assert (a + step - 1) / step == 1 by {
          SplitUnique(a + step - 1, step, 1, a - 1);
        }
      }
    }
  }

  /** `Dir2Leaf`: the byte offsets of the data blocks and the parsed leaf block. */
  datatype LeafDir = LeafDir(offsets: seq<nat>, leaf: LeafDisk)

  /** Every data-block header can be read from the image. */
  ghost predicate DataHeadersFit(offs: seq<nat>, img: seq<byte>)
  {
    forall i :: 0 <= i < |offs| ==> offs[i] + DATA_HDR_SIZE <= |img|
  }

  /** Where the leaf block of a directory lives and how large it is: the last
      extent, located through `fsbToOffset`. */
  function LeafRange(bmx: seq<BmbtRec>, g: Geometry, fsbToOffset: nat -> nat): (r: (nat, nat))
    requires |bmx| >= 1
  {
    var last := bmx[|bmx| - 1];
    (fsbToOffset(last.startblock), last.blockcount * g.blocksize)
  }

  /** `Dir2Leaf::from`: every extent but the last holds data blocks, read from
      `startblock * blocksize`; the last extent is the leaf block, which
      `Dir2LeafDisk::from` must be able to parse and which must carry the
      leaf magic, or the constructor panics. An empty extent list panics at
      `bmx.len() - 1`. The `unwrap`s on reads are preconditions. */
  method FromExtents(img: seq<byte>, g: Geometry, bmx: seq<BmbtRec>, fsbToOffset: nat -> nat)
    returns (r: Outcome<LeafDir>)
    requires ValidGeometry(g)
    requires |bmx| >= 1 ==> DataHeadersFit(DataOffsets(bmx[.. |bmx| - 1], g), img)
    requires |bmx| >= 1 ==> LeafRange(bmx, g, fsbToOffset).0 + LeafRange(bmx, g, fsbToOffset).1 <= |img|
    ensures |bmx| == 0 ==> r.Panics?
    ensures |bmx| >= 1 ==>
              var leaf := ParseLeafBlock(img[LeafRange(bmx, g, fsbToOffset).0 .. LeafRange(bmx, g, fsbToOffset).0 + LeafRange(bmx, g, fsbToOffset).1]);
              r.Returns? <==> leaf.Returns? && leaf.result.hdr.info.magic == XFS_DIR3_LEAF1_MAGIC
    ensures r.Returns? ==> |bmx| >= 1 && r.result.offsets == DataOffsets(bmx[.. |bmx| - 1], g)
    ensures r.Returns? ==> Returns(r.result.leaf) == ParseLeafBlock(img[LeafRange(bmx, g, fsbToOffset).0 .. LeafRange(bmx, g, fsbToOffset).0 + LeafRange(bmx, g, fsbToOffset).1])
  {
    if |bmx| == 0 {
      return Panics;
    }
    var entries := CollectOffsets(bmx[.. |bmx| - 1], g);
    var range := LeafRange(bmx, g, fsbToOffset);
    var leaf := ParseLeafBlock(img[range.0 .. range.0 + range.1]);
    if leaf.Panics? || leaf.result.hdr.info.magic != XFS_DIR3_LEAF1_MAGIC {
      return Panics;
    }
    r := Returns(LeafDir(entries, leaf.result));
  }

  /** The loop over every extent but the last, collecting data-block offsets. */
  method CollectOffsets(recs: seq<BmbtRec>, g: Geometry) returns (entries: seq<nat>)
    ensures entries == DataOffsets(recs, g)
  {
    entries := [];
    var k := 0;
    while k < |recs|
      invariant 0 <= k <= |recs|
      invariant entries == DataOffsets(recs[.. k], g)
    {
      entries := AppendExtent(entries, recs[k], g);
      assert recs[.. k + 1][.. k] == recs[.. k];
      k := k + 1;
    }
    assert recs[.. |recs|] == recs;
  }

  /** The inner loop: the offset of every `BlockStep`-th block of one extent. */
  method AppendExtent(entries: seq<nat>, rec: BmbtRec, g: Geometry) returns (entries': seq<nat>)
    ensures entries' == entries + ExtentOffsets(rec, g, 0)
  {
    var step := BlockStep(g);
    entries' := entries;
    var i := 0;
    while i < rec.blockcount
      invariant entries + ExtentOffsets(rec, g, 0) == entries' + ExtentOffsets(rec, g, i)
      decreases rec.blockcount - i
    {
      entries' := entries' + [(rec.startblock + i) * g.blocksize];
      i := i + step;
    }
  }

  /** Every data block of a directory lies inside the image. */
  ghost predicate BlocksInImage(dir: LeafDir, img: seq<byte>, g: Geometry)
    requires ValidGeometry(g)
  {
    forall i :: 0 <= i < |dir.offsets| ==> dir.offsets[i] + DirBlockSize(g) <= |img|
  }

  /** The bytes of each data block, in block order. */
  function DataBlocks(dir: LeafDir, img: seq<byte>, g: Geometry): (blocks: seq<seq<byte>>)
    requires ValidGeometry(g) && BlocksInImage(dir, img, g)
    ensures |blocks| == |dir.offsets|
    ensures forall i :: 0 <= i < |blocks| ==> |blocks[i]| == DirBlockSize(g)
  {
    seq(|dir.offsets|, i requires 0 <= i < |dir.offsets| => img[dir.offsets[i] .. dir.offsets[i] + DirBlockSize(g)])
  }

  /** The last block read by `lookup` or `next`, with its index. */
  type BlockCache = Option<(nat, seq<byte>)>

  /** A cached block is the block of the image it claims to be. */
  ghost predicate CacheCoherent(cache: BlockCache, dir: LeafDir, img: seq<byte>, g: Geometry)
    requires ValidGeometry(g) && BlocksInImage(dir, img, g)
  {
    cache.Some? ==> cache.value.0 < |dir.offsets| && cache.value.1 == DataBlocks(dir, img, g)[cache.value.0]
  }

  /** Block `idx`, from the cache when it holds that block and from the image
      otherwise; the cache then holds block `idx`. */
  method FetchBlock(dir: LeafDir, img: seq<byte>, g: Geometry, idx: nat, cache: BlockCache)
    returns (raw: seq<byte>, cache': BlockCache)
    requires ValidGeometry(g) && BlocksInImage(dir, img, g)
    requires idx < |dir.offsets|
    requires CacheCoherent(cache, dir, img, g)
    ensures raw == DataBlocks(dir, img, g)[idx]
    ensures cache' == Some((idx, raw))
    ensures cache.Some? && cache.value.0 == idx ==> cache' == cache
  {
    if cache.None? || cache.value.0 != idx {
      var off := dir.offsets[idx];
      raw := img[off .. off + DirBlockSize(g)];
      cache' := Some((idx, raw));
    } else {
      raw := cache.value.1;
      cache' := cache;
    }
  }

  // ---------------------------------------------------------------------------
  // Lookup.

  /** Every block has the directory block size. */
  ghost predicate UniformBlocks(blocks: seq<seq<byte>>, dblksize: nat)
  {
    forall i :: 0 <= i < |blocks| ==> |blocks[i]| == dblksize
  }

  /** The data entry a leaf address points at, when the address is inside the
      directory and an entry can be decoded there. */
  function EntryAt(blocks: seq<seq<byte>>, dblksize: nat, address: u32): (r: Decoded<DataEntry>)
    requires dblksize > 0 && UniformBlocks(blocks, dblksize)
    requires SplitAddress(address, dblksize).0 < |blocks|
  {
    var (idx, off) := SplitAddress(address, dblksize);
    DecodeEntry(blocks[idx][off..])
  }

  /** Reference lookup over the candidate addresses, in leaf order: the first
      probe that lands outside the directory gives `ENOENT`, one that cannot be
      decoded panics, one whose name matches gives its inode number, and a
      mismatch moves on to the next candidate. */
  function LookupSpec(cands: seq<LeafEntry>, blocks: seq<seq<byte>>, dblksize: nat, name: seq<byte>)
    : (r: Outcome<Result<u64>>)
    requires dblksize > 0 && UniformBlocks(blocks, dblksize)
    ensures r.Returns? && r.result.Err? ==> r.result.errno == ENOENT
    decreases |cands|
  {
    if |cands| == 0 then Returns(Err(ENOENT))
    else if SplitAddress(cands[0].address, dblksize).0 >= |blocks| then Returns(Err(ENOENT))
    else
      match EntryAt(blocks, dblksize, cands[0].address)
      case UnexpectedEnd => Panics
      case Done(e, _) =>
        if e.name == name then Returns(Ok(e.inumber))
        else LookupSpec(cands[1..], blocks, dblksize, name)
  }

  /** Probe `j` of the candidate list lands inside the directory on a
      decodable entry. */
  ghost predicate ProbeOk(cands: seq<LeafEntry>, blocks: seq<seq<byte>>, dblksize: nat, j: nat)
    requires dblksize > 0 && UniformBlocks(blocks, dblksize)
  {
    j < |cands| && SplitAddress(cands[j].address, dblksize).0 < |blocks| && EntryAt(blocks, dblksize, cands[j].address).Done?
  }

  /** Candidate `j` points at an entry named `name`. */
  ghost predicate NamesAt(cands: seq<LeafEntry>, blocks: seq<seq<byte>>, dblksize: nat, name: seq<byte>, j: nat)
    requires dblksize > 0 && UniformBlocks(blocks, dblksize)
  {
    && j < |cands|
    && SplitAddress(cands[j].address, dblksize).0 < |blocks|
    && EntryAt(blocks, dblksize, cands[j].address).Done?
    && EntryAt(blocks, dblksize, cands[j].address).value.name == name
  }

  /** Lookup only ever succeeds with an entry of the requested name, and
      reports the inode number stored in that entry. */
  lemma {:induction false} LookupSound(cands: seq<LeafEntry>, blocks: seq<seq<byte>>, dblksize: nat, name: seq<byte>, ino: u64)
    requires dblksize > 0 && UniformBlocks(blocks, dblksize)
    requires LookupSpec(cands, blocks, dblksize, name) == Returns(Ok(ino))
    ensures exists j: nat :: NamesAt(cands, blocks, dblksize, name, j) && EntryAt(blocks, dblksize, cands[j].address).value.inumber == ino
    decreases |cands|
  {
    var e := EntryAt(blocks, dblksize, cands[0].address).value;
    if e.name == name {
      assert NamesAt(cands, blocks, dblksize, name, 0);
    } else {
      var tail := cands[1..];
      LookupSound(tail, blocks, dblksize, name, ino);
      var j: nat :| NamesAt(tail, blocks, dblksize, name, j) && EntryAt(blocks, dblksize, tail[j].address).value.inumber == ino;
      assert tail[j] == cands[j + 1];
      assert NamesAt(cands, blocks, dblksize, name, j + 1);
    }
  }

  /** Lookup finds the first candidate carrying the name, provided every
      probe before it is well formed. */
  lemma LookupComplete(cands: seq<LeafEntry>, blocks: seq<seq<byte>>, dblksize: nat, name: seq<byte>, j: nat)
    requires dblksize > 0 && UniformBlocks(blocks, dblksize)
    requires NamesAt(cands, blocks, dblksize, name, j)
    requires forall i :: 0 <= i < j ==> ProbeOk(cands, blocks, dblksize, i) && !NamesAt(cands, blocks, dblksize, name, i)
    ensures LookupSpec(cands, blocks, dblksize, name) == Returns(Ok(EntryAt(blocks, dblksize, cands[j].address).value.inumber))
  {
    LookupCompleteFrom(cands, blocks, dblksize, name, j, 0);
  }

  lemma {:induction false} LookupCompleteFrom(cands: seq<LeafEntry>, blocks: seq<seq<byte>>, dblksize: nat, name: seq<byte>, j: nat, k: nat)
    requires dblksize > 0 && UniformBlocks(blocks, dblksize)
    requires k <= j && NamesAt(cands, blocks, dblksize, name, j)
    requires forall i :: k <= i < j ==> ProbeOk(cands, blocks, dblksize, i) && !NamesAt(cands, blocks, dblksize, name, i)
    ensures LookupSpec(cands[k..], blocks, dblksize, name) == Returns(Ok(EntryAt(blocks, dblksize, cands[j].address).value.inumber))
    decreases j - k
  {
    assert cands[k..][0] == cands[k];
    if k < j {
      assert ProbeOk(cands, blocks, dblksize, k) && !NamesAt(cands, blocks, dblksize, name, k);
      assert cands[k..][1..] == cands[k + 1..];
      LookupCompleteFrom(cands, blocks, dblksize, name, j, k + 1);
    }
  }

  /** When every probe is well formed and no candidate carries the name, the
      lookup ends with `ENOENT`. */
  lemma LookupMissing(cands: seq<LeafEntry>, blocks: seq<seq<byte>>, dblksize: nat, name: seq<byte>)
    requires dblksize > 0 && UniformBlocks(blocks, dblksize)
    requires forall i :: 0 <= i < |cands| ==> ProbeOk(cands, blocks, dblksize, i) && !NamesAt(cands, blocks, dblksize, name, i)
    ensures LookupSpec(cands, blocks, dblksize, name) == Returns(Err(ENOENT))
  {
    LookupMissingFrom(cands, blocks, dblksize, name, 0);
  }

  lemma {:induction false} LookupMissingFrom(cands: seq<LeafEntry>, blocks: seq<seq<byte>>, dblksize: nat, name: seq<byte>, k: nat)
    requires dblksize > 0 && UniformBlocks(blocks, dblksize)
    requires k <= |cands|
    requires forall i :: k <= i < |cands| ==> ProbeOk(cands, blocks, dblksize, i) && !NamesAt(cands, blocks, dblksize, name, i)
    ensures LookupSpec(cands[k..], blocks, dblksize, name) == Returns(Err(ENOENT))
    decreases |cands| - k
  {
    if k < |cands| {
      assert cands[k..][0] == cands[k];
      assert ProbeOk(cands, blocks, dblksize, k) && !NamesAt(cands, blocks, dblksize, name, k);
      assert cands[k..][1..] == cands[k + 1..];
      LookupMissingFrom(cands, blocks, dblksize, name, k + 1);
    }
  }

  /** `Dir2Leaf::lookup`, up to the inode number: hash the name, then probe
      the `k`-th leaf entry carrying that hash for k = 0, 1, ... until an entry
      of that name is found. The block cache is threaded through and stays
      coherent; the result is the reference lookup over the hash's entries. */
  method Lookup(dir: LeafDir, img: seq<byte>, g: Geometry, name: seq<byte>, hashname: seq<byte> -> u32, cache: BlockCache)
    returns (r: Outcome<Result<u64>>, cache': BlockCache)
    requires ValidGeometry(g) && BlocksInImage(dir, img, g)
    requires CacheCoherent(cache, dir, img, g)
    ensures r == LookupSpec(Matches(dir.leaf.ents, hashname(name)), DataBlocks(dir, img, g), DirBlockSize(g), name)
    ensures r.Returns? && r.result.Err? ==> r.result.errno == ENOENT
    ensures CacheCoherent(cache', dir, img, g)
  {
    var dblksize := DirBlockSize(g);
    var hash := hashname(name);
    ghost var cands := Matches(dir.leaf.ents, hash);
    ghost var blocks := DataBlocks(dir, img, g);
    cache' := cache;
    var k := 0;
    while true
      invariant k <= |cands|
      invariant LookupSpec(cands[k..], blocks, dblksize, name) == LookupSpec(cands, blocks, dblksize, name)
      invariant CacheCoherent(cache', dir, img, g)
      decreases |cands| - k
    {
      var probe := CollisionAddress(dir.leaf.ents, hash, k);
      if probe.Err? {
        return Returns(Err(probe.errno)), cache';
      }
      var (idx, off) := SplitAddress(probe.value, dblksize);
      if idx >= |dir.offsets| {
        return Returns(Err(ENOENT)), cache';
      }
      var raw;
      raw, cache' := FetchBlock(dir, img, g, idx, cache');
      var decoded := DecodeEntry(raw[off..]);
      if decoded.UnexpectedEnd? {
        return Panics, cache';
      }
      if decoded.value.name == name {
        return Returns(Ok(decoded.value.inumber)), cache';
      }
      assert cands[k..][1..] == cands[k + 1..];
      k := k + 1;
    }
  }

  // ---------------------------------------------------------------------------
  // readdir cookies.

  /** The weight of the block-index byte of a cookie: the index is shifted
      left by 64 - 8 bits. Below it sit 56 bits of in-block offset. */
  const COOKIE_BLOCK_UNIT: nat := 0x100_0000_0000_0000

  /** The cookie `next` hands out for the entry with tag `tag` in data block
      `idx`: the block index shifted into the top 8 bits of a 64-bit value
      and the tag or-ed in below. The tag is below 2^16, so the or is an
      addition; the shift keeps only the lowest 8 bits of the index. The
      cast to `i64` and back keeps the bit pattern, so the cookie is kept as
      the unsigned value throughout. */
  function MakeCookie(idx: nat, tag: u16): (c: u64)
    ensures c / COOKIE_BLOCK_UNIT == idx % 256
    ensures c % COOKIE_BLOCK_UNIT == tag
  {
    SplitUnique((idx % 256) * COOKIE_BLOCK_UNIT + tag, COOKIE_BLOCK_UNIT, idx % 256, tag);
    (idx % 256) * COOKIE_BLOCK_UNIT + tag
  }

  /** The block index a cookie names: its top 8 bits. */
  function CookieBlock(cookie: u64): (b: nat)
    ensures b < 256
  {
    cookie / COOKIE_BLOCK_UNIT
  }

  /** The in-block offset a cookie names: its low 56 bits. */
  function CookieOffset(cookie: u64): (off: nat)
    ensures off < COOKIE_BLOCK_UNIT
  {
    cookie % COOKIE_BLOCK_UNIT
  }

  /** A cookie gives back its tag and its block index modulo 256: the exact
      index for the first 256 blocks, a wrapped one beyond them. */
  lemma CookieRoundTrip(idx: nat, tag: u16)
    ensures CookieBlock(MakeCookie(idx, tag)) == idx % 256
    ensures CookieOffset(MakeCookie(idx, tag)) == tag
    ensures idx < 256 ==> CookieBlock(MakeCookie(idx, tag)) == idx
  {
    SplitUnique(MakeCookie(idx, tag), COOKIE_BLOCK_UNIT, idx % 256, tag);
  }

  // ---------------------------------------------------------------------------
  // readdir.

  /** One `next` result: inode number, the cookie to resume after this entry,
      file type and name. */
  datatype NextEntry = NextEntry(inumber: u64, cookie: u64, kind: FileType, name: seq<byte>)

  /** Where the scan of one block stopped: at the entry to return, at the end
      of the block (carrying the `next` flag on), or in a panic. */
  datatype Scan = Found(pos: nat) | Exhausted(next: bool) | Fault

  /** A free region starts at `p`. */
  predicate FreeAt(raw: seq<byte>, p: nat)
    requires p + 2 <= |raw|
  {
    BE16(raw[p..], 0) == XFS_DIR2_DATA_FREE_TAG
  }

  /** What the inner loop of `next` does with the record at `off`: stop with
      an answer, or move on to a later offset with an updated `next` flag. */
  datatype Stride = Stop(result: Scan) | Advance(to: nat, next: bool)

  /** How the inner loop of `next` steps over an entry it does not return:
      `AsWritten` by `get_length`, the helper the source calls, which leaves
      out the fixed fields of the entry and so falls short for some name
      lengths; `Corrected` by `get_ent_size`, the entry's on-disk size. */
  datatype Reading = AsWritten | Corrected

  /** The length the scan skips over the entry at the front of `rest`. */
  function EntrySkip(rest: seq<byte>, v: Reading): (n: nat)
    requires |rest| >= 9
    ensures n >= 16 && n % 8 == 0
    ensures v.Corrected? ==> n == GetEntSize(rest)
    ensures v.AsWritten? ==> n == GetLength(rest)
  {
    if v.AsWritten? then GetLength(rest) else GetEntSize(rest)
  }

  /** One pass of the inner loop of `next`: a free region is skipped by its
      length; with `next` set the entry at hand is the answer; otherwise it
      is skipped and `next` is set. A record that cannot be decoded, or a
      free length below 6, panics. */
  function ScanRecord(raw: seq<byte>, off: nat, next: bool, v: Reading): (st: Stride)
    ensures st.Advance? ==> off < st.to
    ensures st.Advance? && !st.next ==> !next
    ensures st == Stop(Exhausted(next)) <==> off >= |raw|
    ensures st.Stop? && st.result.Found? ==> st.result.pos == off && off + 2 <= |raw| && !FreeAt(raw, off) && next
    ensures st.Stop? && st.result.Exhausted? ==> st.result.next == next
  {
    if off >= |raw| then Stop(Exhausted(next))
    else
      var rest := raw[off..];
      if |rest| < 2 then Stop(Fault)
      else if BE16(rest, 0) == XFS_DIR2_DATA_FREE_TAG then
        match DecodeUnused(rest)
        case Panics => Stop(Fault)
        case Returns(UnexpectedEnd) => Stop(Fault)
        case Returns(Done(_, length)) => Advance(off + length, next)
      else if next then Stop(Found(off))
      else if |rest| < 9 then Stop(Fault)
      else Advance(off + EntrySkip(rest, v), true)
  }

  /** The inner loop of `next` over one data block from byte `off`. */
  function ScanBlock(raw: seq<byte>, off: nat, next: bool, v: Reading): (s: Scan)
    ensures s.Found? ==> off <= s.pos && s.pos + 2 <= |raw| && !FreeAt(raw, s.pos)
    ensures s.Found? && !next ==> off < s.pos
    ensures s.Exhausted? && !s.next ==> !next
    decreases |raw| - off
  {
    match ScanRecord(raw, off, next, v)
    case Stop(s) => s
    case Advance(to, next') => if to > |raw| then Exhausted(next') else ScanBlock(raw, to, next', v)
  }

  /** The answer for the entry found at `pos` of block `idx`: an entry of an
      unsupported type ends the call with `ENOENT`. */
  function EntryResult(raw: seq<byte>, pos: nat, idx: nat): (r: Outcome<Result<NextEntry>>)
    requires pos <= |raw|
    ensures r.Returns? && r.result.Err? ==> r.result.errno == ENOENT
  {
    match DecodeEntry(raw[pos..])
    case UnexpectedEnd => Panics
    case Done(e, _) =>
      match GetFileType(Type(e.ftype))
      case Err(errno) => Returns(Err(errno))
      case Ok(kind) => Returns(Ok(NextEntry(e.inumber, MakeCookie(idx, e.tag), kind, e.name)))
  }

  /** The outer loop of `next` from block `idx`: an in-block offset of 0 means
      just after the data header; running off the last block is `ENOENT`. */
  function NextFrom(blocks: seq<seq<byte>>, idx: nat, off: nat, next: bool, v: Reading): (r: Outcome<Result<NextEntry>>)
    requires idx < |blocks|
    ensures r.Returns? && r.result.Err? ==> r.result.errno == ENOENT
    decreases |blocks| - idx
  {
    var start := if off == 0 then DATA_HDR_SIZE else off;
    match ScanBlock(blocks[idx], start, next, v)
    case Fault => Panics
    case Found(pos) => EntryResult(blocks[idx], pos, idx)
    case Exhausted(n) =>
      if idx + 1 >= |blocks| then Returns(Err(ENOENT))
      else NextFrom(blocks, idx + 1, 0, n, v)
  }

  /** `Dir2Leaf::next` over the directory's data blocks. The cookie's top 8
      bits pick the block, its low 56 bits the in-block offset; offset 0 starts
      at the first entry, any other offset resumes after the entry there. The
      header size `mem::size_of::<Dir3DataHdr>()` is `DATA_HDR_SIZE`. The
      source is `Next(blocks, cookie, AsWritten)`; the rest of the model
      reads directories with `Corrected`. */
  function Next(blocks: seq<seq<byte>>, cookie: u64, v: Reading): (r: Outcome<Result<NextEntry>>)
    ensures r.Returns? && r.result.Err? ==> r.result.errno == ENOENT
  {
    var idx := CookieBlock(cookie);
    if idx >= |blocks| then Returns(Err(ENOENT))
    else
      var off := CookieOffset(cookie);
      NextFrom(blocks, idx, off, off == 0, v)
  }

  /** Where a `next` answer comes from: an entry that is not a free region,
      at or after the cookie's position, whose inode number and name are
      returned with the cookie of its own block and tag; or, for `ENOENT`, an
      out-of-range block index, the end of the last block, or an entry of an
      unsupported type. */
  lemma {:induction false} NextFromOutcomes(blocks: seq<seq<byte>>, idx: nat, off: nat, next: bool, v: Reading)
    requires idx < |blocks|
    ensures NextFrom(blocks, idx, off, next, v).Returns? ==>
              || NextFrom(blocks, idx, off, next, v) == Returns(Err(ENOENT))
              || exists i: nat, pos: nat :: idx <= i < |blocks| && FoundAnswer(blocks, i, pos, NextFrom(blocks, idx, off, next, v))
    ensures NextFrom(blocks, idx, off, next, v).Returns? && NextFrom(blocks, idx, off, next, v).result.Ok? ==>
              exists i: nat, pos: nat :: idx <= i < |blocks| && FoundAnswer(blocks, i, pos, NextFrom(blocks, idx, off, next, v))
    decreases |blocks| - idx
  {
    var start := if off == 0 then DATA_HDR_SIZE else off;
    match ScanBlock(blocks[idx], start, next, v)
    case Fault =>
    case Found(pos) =>
      var r := NextFrom(blocks, idx, off, next, v);
      if r.Returns? && r.result.Ok? {
        assert FoundAnswer(blocks, idx, pos, r);
      }
    case Exhausted(n) =>
      if idx + 1 < |blocks| {
        NextFromOutcomes(blocks, idx + 1, 0, n, v);
      }
  }

  /** `r` is the answer read from the live entry at `pos` of block `i`. */
  ghost predicate FoundAnswer(blocks: seq<seq<byte>>, i: nat, pos: nat, r: Outcome<Result<NextEntry>>)
  {
    && i < |blocks|
    && pos + 2 <= |blocks[i]|
    && !FreeAt(blocks[i], pos)
    && r == EntryResult(blocks[i], pos, i)
    && (r.Returns? && r.result.Ok? ==>
          && DecodeEntry(blocks[i][pos..]).Done?
          && r.result.value.inumber == DecodeEntry(blocks[i][pos..]).value.inumber
          && r.result.value.name == DecodeEntry(blocks[i][pos..]).value.name
          && r.result.value.cookie == MakeCookie(i, DecodeEntry(blocks[i][pos..]).value.tag))
  }

  // ---------------------------------------------------------------------------
  // readdir over well-formed blocks.

  /** Where the record starting at `p` ends, by the scan's reading: a free
      region spans its stored length, an entry its on-disk size. */
  function RecordEnd(raw: seq<byte>, p: nat): nat
    requires p + 4 <= |raw|
    requires !FreeAt(raw, p) ==> p + 9 <= |raw|
  {
    if FreeAt(raw, p) then p + BE16(raw[p..], 2) else p + GetEntSize(raw[p..])
  }

  /** The record at `p` is well formed: a free region of length at least 6,
      or an entry whose tag is its own offset in the block; either way it
      fits in the block. */
  ghost predicate RecordOk(raw: seq<byte>, p: nat)
  {
    && p + 4 <= |raw|
    && (if FreeAt(raw, p) then BE16(raw[p..], 2) >= 6
        else p + 9 <= |raw| && p + GetEntSize(raw[p..]) <= |raw| && DecodeEntry(raw[p..]).value.tag == p)
    && RecordEnd(raw, p) <= |raw|
  }

  /** The offsets of the entries along the chain of records from `p`, in
      block order; `None` unless every record is well formed, each ends after
      it starts, and the last ends exactly at the end of the block. */
  ghost function Chain(raw: seq<byte>, p: nat): Option<seq<nat>>
    decreases |raw| - p
  {
    if p >= |raw| then (if p == |raw| then Some([]) else None)
    else if !RecordOk(raw, p) || RecordEnd(raw, p) <= p then None
    else
      match Chain(raw, RecordEnd(raw, p))
      case None => None
      case Some(rest) => Some((if FreeAt(raw, p) then [] else [p]) + rest)
  }

  /** From `p` on, the block is a well-formed chain of records. */
  ghost predicate RecordsFrom(raw: seq<byte>, p: nat)
  {
    Chain(raw, p).Some?
  }

  /** The offsets of the entries along a well-formed chain. */
  ghost function LiveEntries(raw: seq<byte>, p: nat): (ps: seq<nat>)
    requires RecordsFrom(raw, p)
  {
    Chain(raw, p).value
  }

  /** One record of a chain: it is followed by the chain from its end, and it
      contributes its own offset exactly when it is an entry. */
  lemma LiveStep(raw: seq<byte>, p: nat)
    requires RecordsFrom(raw, p) && p < |raw|
    ensures RecordOk(raw, p) && p < RecordEnd(raw, p) && RecordsFrom(raw, RecordEnd(raw, p))
    ensures LiveEntries(raw, p)
            == (if FreeAt(raw, p) then [] else [p]) + LiveEntries(raw, RecordEnd(raw, p))
  {
  }

  /** The scan steps over a well-formed free region to the record after it. */
  lemma ScanOverFree(raw: seq<byte>, p: nat, next: bool, v: Reading)
    requires RecordOk(raw, p) && p < |raw| && FreeAt(raw, p)
    ensures ScanBlock(raw, p, next, v) == ScanBlock(raw, RecordEnd(raw, p), next, v)
  {
    var rest := raw[p..];
    var length := BE16(rest, 2);
    assert |rest| >= 4 && length >= 6 && p + length <= |raw|;
    var d := DecodeUnused(rest);
    assert d.Returns? && d.result.Done? && d.result.consumed == length;
    assert ScanRecord(raw, p, next, v) == Advance(RecordEnd(raw, p), next);
  }

  /** With `next` set, the scan stops at the first entry of the chain, and
      runs to the end of the block when the chain has none. */
  lemma {:induction false} ScanFindsFirst(raw: seq<byte>, p: nat, v: Reading)
    requires RecordsFrom(raw, p)
    ensures ScanBlock(raw, p, true, v) ==
              if |LiveEntries(raw, p)| > 0 then Found(LiveEntries(raw, p)[0]) else Exhausted(true)
    decreases |raw| - p
  {
    if p < |raw| {
      LiveStep(raw, p);
      if FreeAt(raw, p) {
        ScanOverFree(raw, p, true, v);
        ScanFindsFirst(raw, RecordEnd(raw, p), v);
      } else {
        assert LiveEntries(raw, p)[0] == p;
      }
    }
  }

  /** With `next` clear, the scan steps over the entry at `p` and then finds
      the following entry of the chain. */
  lemma ScanSkipsEntry(raw: seq<byte>, p: nat)
    requires RecordsFrom(raw, p) && p < |raw| && !FreeAt(raw, p)
    ensures ScanBlock(raw, p, false, Corrected) ==
              if |LiveEntries(raw, p)| > 1 then Found(LiveEntries(raw, p)[1]) else Exhausted(true)
  {
    var q := RecordEnd(raw, p);
    LiveStep(raw, p);
    assert EntrySkip(raw[p..], Corrected) == GetEntSize(raw[p..]);
    assert ScanRecord(raw, p, false, Corrected) == Advance(q, true);
    ScanFindsFirst(raw, q, Corrected);
    assert LiveEntries(raw, p) == [p] + LiveEntries(raw, q);
  }

  /** Every offset listed along a chain lies at or after the chain's start
      and holds a well-formed entry, and the chain from there lists the rest. */
  lemma {:induction false} LiveSuffix(raw: seq<byte>, p: nat, k: nat)
    requires RecordsFrom(raw, p) && k < |LiveEntries(raw, p)|
    ensures p <= LiveEntries(raw, p)[k] < |raw|
    ensures RecordOk(raw, LiveEntries(raw, p)[k]) && !FreeAt(raw, LiveEntries(raw, p)[k])
    ensures Chain(raw, LiveEntries(raw, p)[k]) == Some(LiveEntries(raw, p)[k..])
    decreases |raw| - p
  {
    assert p < |raw|;
    LiveStep(raw, p);
    var q := RecordEnd(raw, p);
    var ps, qs := LiveEntries(raw, p), LiveEntries(raw, q);
    if FreeAt(raw, p) {
      assert ps == qs;
      LiveSuffix(raw, q, k);
    } else if k > 0 {
      assert ps == [p] + qs;
      assert ps[k] == qs[k - 1] && ps[k..] == qs[k - 1..];
      LiveSuffix(raw, q, k - 1);
    } else {
      assert ps == [p] + qs;
      assert ps[0] == p && ps[0..] == ps;
    }
  }

  /** With `next` clear, the scan resumed at entry `k` of a chain finds entry
      `k + 1`, or runs to the end of the block after the last one. */
  lemma ScanSkipsAt(raw: seq<byte>, p: nat, k: nat)
    requires RecordsFrom(raw, p) && k < |LiveEntries(raw, p)|
    ensures ScanBlock(raw, LiveEntries(raw, p)[k], false, Corrected) ==
              if k + 1 < |LiveEntries(raw, p)| then Found(LiveEntries(raw, p)[k + 1]) else Exhausted(true)
  {
    var ps := LiveEntries(raw, p);
    LiveSuffix(raw, p, k);
    var qs := LiveEntries(raw, ps[k]);
    assert qs == ps[k..];
    ScanSkipsEntry(raw, ps[k]);
    assert k + 1 < |ps| ==> qs[1] == ps[k + 1];
  }

  /** Every data block is a well-formed chain after its header. */
  ghost predicate WellFormedBlocks(blocks: seq<seq<byte>>)
  {
    forall i :: 0 <= i < |blocks| ==> RecordsFrom(blocks[i], DATA_HDR_SIZE)
  }

  /** The entries of block `i`, tagged with the block index. */
  ghost function Located(i: nat, ps: seq<nat>): (es: seq<(nat, nat)>)
    ensures |es| == |ps|
    ensures forall t :: 0 <= t < |ps| ==> es[t] == (i, ps[t])
  {
    seq(|ps|, t requires 0 <= t < |ps| => (i, ps[t]))
  }

  /** Every entry of the directory from block `b` on, as (block, offset), in
      block order and offset order within a block. */
  ghost function DirEntriesFrom(blocks: seq<seq<byte>>, b: nat): seq<(nat, nat)>
    requires WellFormedBlocks(blocks)
    decreases |blocks| - b
  {
    if b >= |blocks| then []
    else Located(b, LiveEntries(blocks[b], DATA_HDR_SIZE)) + DirEntriesFrom(blocks, b + 1)
  }

  /** Every entry of the directory, in the order `readdir` lists them. */
  ghost function DirEntries(blocks: seq<seq<byte>>): seq<(nat, nat)>
    requires WellFormedBlocks(blocks)
  {
    DirEntriesFrom(blocks, 0)
  }

  /** The `next` answer for the first of the listed entries, `ENOENT` when
      none is left. */
  function FirstOf(blocks: seq<seq<byte>>, es: seq<(nat, nat)>): Outcome<Result<NextEntry>>
  {
    if |es| == 0 then Returns(Err(ENOENT))
    else if es[0].0 < |blocks| && es[0].1 <= |blocks[es[0].0]| then EntryResult(blocks[es[0].0], es[0].1, es[0].0)
    else Panics
  }

  /** Starting a block with offset 0 lists the first entry from that block on. */
  lemma {:induction false} NextFromStart(blocks: seq<seq<byte>>, b: nat, v: Reading)
    requires WellFormedBlocks(blocks) && b < |blocks|
    ensures NextFrom(blocks, b, 0, true, v) == FirstOf(blocks, DirEntriesFrom(blocks, b))
    decreases |blocks| - b
  {
    var raw := blocks[b];
    ScanFindsFirst(raw, DATA_HDR_SIZE, v);
    var ps := LiveEntries(raw, DATA_HDR_SIZE);
    if |ps| > 0 {
      LiveSuffix(raw, DATA_HDR_SIZE, 0);
      assert DirEntriesFrom(blocks, b)[0] == (b, ps[0]);
    } else {
      assert DirEntriesFrom(blocks, b) == DirEntriesFrom(blocks, b + 1);
      if b + 1 < |blocks| {
        NextFromStart(blocks, b + 1, v);
      }
    }
  }

  /** The entries listed after entry `k` of block `i`: the rest of that
      block, then the later blocks. */
  ghost function EntriesAfter(blocks: seq<seq<byte>>, i: nat, k: nat): seq<(nat, nat)>
    requires WellFormedBlocks(blocks) && i < |blocks| && k < |LiveEntries(blocks[i], DATA_HDR_SIZE)|
  {
    Located(i, LiveEntries(blocks[i], DATA_HDR_SIZE)[k + 1..]) + DirEntriesFrom(blocks, i + 1)
  }

  /** The `j`-th entry listed from block `b` on is entry `k` of block `i`, and
      what follows it is the rest of block `i` and then the later blocks. */
  lemma {:induction false} LocateEntry(blocks: seq<seq<byte>>, b: nat, j: nat) returns (i: nat, k: nat)
    requires WellFormedBlocks(blocks) && j < |DirEntriesFrom(blocks, b)|
    ensures b <= i < |blocks| && k < |LiveEntries(blocks[i], DATA_HDR_SIZE)|
    ensures DirEntriesFrom(blocks, b)[j] == (i, LiveEntries(blocks[i], DATA_HDR_SIZE)[k])
    ensures DirEntriesFrom(blocks, b)[j + 1..] == EntriesAfter(blocks, i, k)
    decreases |blocks| - b
  {
    var ps := LiveEntries(blocks[b], DATA_HDR_SIZE);
    var here := Located(b, ps);
    var later := DirEntriesFrom(blocks, b + 1);
    assert DirEntriesFrom(blocks, b) == here + later;
    if j < |here| {
      i, k := b, j;
      ConcatInFirst(here, later, j);
      LocatedSuffix(b, ps, j);
    } else {
      ConcatInSecond(here, later, j);
      i, k := LocateEntry(blocks, b + 1, j - |here|);
    }
  }

  lemma ConcatInFirst<T>(a: seq<T>, b: seq<T>, j: nat)
    requires j < |a|
    ensures (a + b)[j] == a[j] && (a + b)[j + 1..] == a[j + 1..] + b
  {
  }

  lemma ConcatInSecond<T>(a: seq<T>, b: seq<T>, j: nat)
    requires |a| <= j < |a| + |b|
    ensures (a + b)[j] == b[j - |a|] && (a + b)[j + 1..] == b[j - |a| + 1..]
  {
  }

  lemma LocatedSuffix(i: nat, ps: seq<nat>, j: nat)
    requires j < |ps|
    ensures Located(i, ps)[j + 1..] == Located(i, ps[j + 1..])
  {
  }

  /** `readdir` from cookie 0 lists the first entry of the directory, in
      either reading: a scan that starts with `next` set skips no entry. */
  lemma ReaddirStarts(blocks: seq<seq<byte>>, v: Reading)
    requires WellFormedBlocks(blocks)
    ensures Next(blocks, 0, v) == FirstOf(blocks, DirEntries(blocks))
  {
    assert CookieBlock(0) == 0 && CookieOffset(0) == 0;
    if |blocks| > 0 {
      NextFromStart(blocks, 0, v);
    }
  }

  /** `readdir` resumes where it stopped: the answer for an entry does not
      panic, and feeding its cookie back lists the entry after it, or ends
      with `ENOENT` after the last one. Cookies name a block in 8 bits, so the
      directory has at most 256 data blocks. */
  lemma ReaddirResumes(blocks: seq<seq<byte>>, j: nat)
    requires WellFormedBlocks(blocks) && |blocks| <= 256
    requires j < |DirEntries(blocks)|
    ensures FirstOf(blocks, DirEntries(blocks)[j..]).Returns?
    ensures FirstOf(blocks, DirEntries(blocks)[j..]).result.Ok? ==>
              Next(blocks, FirstOf(blocks, DirEntries(blocks)[j..]).result.value.cookie, Corrected) == FirstOf(blocks, DirEntries(blocks)[j + 1..])
  {
    var i, k := LocateEntry(blocks, 0, j);
    assert DirEntries(blocks)[j..][0] == DirEntries(blocks)[j];
    ResumeAfter(blocks, i, k);
  }

  /** Resuming after entry `k` of block `i`. */
  lemma ResumeAfter(blocks: seq<seq<byte>>, i: nat, k: nat)
    requires WellFormedBlocks(blocks) && |blocks| <= 256
    requires i < |blocks| && k < |LiveEntries(blocks[i], DATA_HDR_SIZE)|
    ensures LiveEntries(blocks[i], DATA_HDR_SIZE)[k] <= |blocks[i]|
    ensures EntryResult(blocks[i], LiveEntries(blocks[i], DATA_HDR_SIZE)[k], i).Returns?
    ensures EntryResult(blocks[i], LiveEntries(blocks[i], DATA_HDR_SIZE)[k], i).result.Ok? ==>
              Next(blocks, EntryResult(blocks[i], LiveEntries(blocks[i], DATA_HDR_SIZE)[k], i).result.value.cookie, Corrected)
                == FirstOf(blocks, EntriesAfter(blocks, i, k))
  {
    var raw := blocks[i];
    var ps := LiveEntries(raw, DATA_HDR_SIZE);
    var p := ps[k];
    LiveSuffix(raw, DATA_HDR_SIZE, k);
    var e := DecodeEntry(raw[p..]).value;
    assert e.tag == p;
    var r := EntryResult(raw, p, i);
    if r.result.Ok? {
      assert r.result.value.cookie == MakeCookie(i, e.tag);
      CookieRoundTrip(i, e.tag);
      assert Next(blocks, MakeCookie(i, e.tag), Corrected) == NextFrom(blocks, i, p, false, Corrected);
      ScanAfter(blocks, i, k);
    }
  }

  /** The scan that resumes at entry `k` of block `i` lists what follows it. */
  lemma ScanAfter(blocks: seq<seq<byte>>, i: nat, k: nat)
    requires WellFormedBlocks(blocks)
    requires i < |blocks| && k < |LiveEntries(blocks[i], DATA_HDR_SIZE)|
    ensures NextFrom(blocks, i, LiveEntries(blocks[i], DATA_HDR_SIZE)[k], false, Corrected) == FirstOf(blocks, EntriesAfter(blocks, i, k))
  {
    var raw := blocks[i];
    var ps := LiveEntries(raw, DATA_HDR_SIZE);
    var p := ps[k];
    LiveSuffix(raw, DATA_HDR_SIZE, k);
    ScanSkipsAt(raw, DATA_HDR_SIZE, k);
    if k + 1 < |ps| {
      LiveSuffix(raw, DATA_HDR_SIZE, k + 1);
      assert EntriesAfter(blocks, i, k)[0] == (i, ps[k + 1]);
    } else {
      assert EntriesAfter(blocks, i, k) == DirEntriesFrom(blocks, i + 1);
      if i + 1 < |blocks| {
        NextFromStart(blocks, i + 1, Corrected);
      }
    }
  }

  // ---------------------------------------------------------------------------
  // readdir as written.

  /** A one-block directory: the data header, then one entry with inode
      number 0, the 5-byte name `name`, file type `ftype` and tag 64, its
      own offset. */
  function FiveByteNameBlock(name: seq<byte>, ftype: u8): (raw: seq<byte>)
    requires |name| == 5
    ensures |raw| == 88
  {
    DataHdrSize();
    Zeros(DATA_HDR_SIZE) + EncodeEntry(DataEntry(0, name, ftype, 64))
  }

  /** The big-endian encoding of 0 is all zero bytes. */
  lemma {:induction false} ToBEZero(w: nat)
    ensures ToBE(0, w) == Zeros(w)
  {
    if w > 0 {
      ToBEZero(w - 1);
    }
  }

  /** Resuming after an entry with a 5-byte name. The block is well formed,
      and resuming with that entry's cookie should end the listing: the
      corrected scan steps over the 24-byte entry and answers `ENOENT`. The
      source's `get_length` steps over only 16 bytes, lands in the entry's
      zero padding, takes it for the next entry and panics decoding the 8
      bytes left. */
  lemma ResumeAfterFiveByteName(name: seq<byte>, ftype: u8)
    requires |name| == 5
    ensures WellFormedBlocks([FiveByteNameBlock(name, ftype)])
    ensures Next([FiveByteNameBlock(name, ftype)], MakeCookie(0, 64), Corrected) == Returns(Err(ENOENT))
    ensures Next([FiveByteNameBlock(name, ftype)], MakeCookie(0, 64), AsWritten) == Panics
  {
    DataHdrSize();
    var e := DataEntry(0, name, ftype, 64);
    var enc := EncodeEntry(e);
    var raw := FiveByteNameBlock(name, ftype);
    var blocks := [raw];
    assert raw[64..] == enc;
    EntryRoundTrip(e, []);
    assert enc + [] == enc;
    ToBEZero(8);
    assert enc[0] == 0 && enc[1] == 0;
    assert enc[16] == 0 && enc[17] == 0;
    assert !FreeAt(raw, 64);
    assert GetEntSize(enc) == 24 && GetLength(enc) == 16;

    assert RecordOk(raw, 64) && RecordEnd(raw, 64) == 88;
    assert Chain(raw, 88) == Some([]);
    assert RecordsFrom(blocks[0], DATA_HDR_SIZE);

    assert CookieBlock(MakeCookie(0, 64)) == 0 && CookieOffset(MakeCookie(0, 64)) == 64;
    assert ScanRecord(raw, 64, false, Corrected) == Advance(88, true);
    assert ScanBlock(raw, 88, true, Corrected) == Exhausted(true);
    assert ScanRecord(raw, 64, false, AsWritten) == Advance(80, true);
    assert raw[80..] == enc[16..];
    assert !FreeAt(raw, 80);
    assert ScanBlock(raw, 80, true, AsWritten) == Found(80);
    assert DecodeEntry(raw[80..]) == UnexpectedEnd;
  }
}
