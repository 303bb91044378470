/** Reading file data through the data fork: `File::read`.

A read starts at a block-aligned byte offset and is clamped to the end of the
file. It proceeds extent by extent: `get_extent` names, for a logical block,
the file-system block it is stored at (or a hole) and how many blocks the
extent runs on for. Mapped chunks are copied from the image; holes read as
zeros.
 */
module FileRead {
  import opened Bytes
  import opened Wrappers
  import opened Arith

  /** The superblock geometry, the image, and the mapping of file-system blocks
      to byte offsets in the image (`fsb_to_offset`). */
  datatype Volume = Volume(blocklog: nat, image: seq<byte>, fsbToOffset: nat -> nat)

  /** `sb_blocksize`, which is `1 << sb_blocklog`. */
  function BlockSize(v: Volume): (bs: nat)
    ensures bs >= 1
  {
    Pow2(v.blocklog)
  }

  /** `get_extent`: for a logical block, where its extent starts on disk
      (`None` for a hole) and how many blocks of the file the answer covers. */
  type ExtentMap = nat -> (Option<nat>, nat)

  /** Every answer of `get_extent` covers at least one block; otherwise the
      read loop would not advance. */
  ghost predicate ExtentsAdvance(getExtent: ExtentMap)
  {
    forall lb :: getExtent(lb).1 >= 1
  }

  /** Every mapped extent lies inside the image, so the whole-block reads of
      the loop never run past its end. */
  ghost predicate ExtentsInImage(v: Volume, getExtent: ExtentMap)
  {
    forall lb :: getExtent(lb).0.Some? ==>
      v.fsbToOffset(getExtent(lb).0.value) + getExtent(lb).1 * BlockSize(v) <= |v.image|
  }

  function Min(a: nat, b: nat): nat
  {
    if a <= b then a else b
  }

  /** How many bytes a read of `size` at `offset` returns: up to the end of the file. */
  function Budget(fileSize: nat, offset: nat, size: u32): (n: nat)
    requires offset <= fileSize
    ensures n <= size && n <= fileSize - offset
    ensures n == size || n == fileSize - offset
  {
    Min(size, fileSize - offset)
  }

  /** `z` rounded up to a whole number of blocks (`z_round_up`); the source
      computes the remainder with the mask `blocksize - 1`. */
  function RoundUp(z: nat, bs: nat): (r: nat)
    requires bs >= 1
    ensures z <= r < z + bs
    ensures z % bs == 0 ==> r == z
  {
    if z % bs > 0 then z + bs - z % bs else z
  }

  /** Rounding up gives a whole number of blocks. */
  lemma RoundUpAligned(z: nat, bs: nat)
    requires bs >= 1
    ensures RoundUp(z, bs) % bs == 0
  {
    if z % bs > 0 {
      assert RoundUp(z, bs) == (z / bs + 1) * bs;
      MultipleMod(z / bs + 1, bs);
    }
  }

  /** A length within `m` blocks still is after rounding up. */
  lemma RoundUpWithin(z: nat, bs: nat, m: nat)
    requires bs >= 1 && z <= m * bs
    ensures RoundUp(z, bs) <= m * bs
  {
    if z % bs > 0 {
      var q := z / bs;
      assert q * bs < z;
      if q >= m {
        MulMono(m, q, bs);
      }
      MulMono(q + 1, m, bs);
      assert RoundUp(z, bs) == (q + 1) * bs;
    }
  }

  /** The length of the chunk read from the extent at `lb` when `remaining`
      bytes are still wanted. */
  function ChunkLength(v: Volume, getExtent: ExtentMap, lb: nat, remaining: nat): (z: nat)
    requires ExtentsAdvance(getExtent)
    ensures z <= remaining && z <= getExtent(lb).1 * BlockSize(v)
    ensures remaining > 0 ==> z > 0
  {
    Min(remaining, getExtent(lb).1 * BlockSize(v))
  }

  /** The bytes of one chunk: `z` image bytes from the start of the mapped
      extent, or `z` zeros for a hole. */
  function Chunk(v: Volume, blk: Option<nat>, z: nat): (c: seq<byte>)
    requires blk.Some? ==> v.fsbToOffset(blk.value) + z <= |v.image|
    ensures |c| == z
  {
    match blk
    case None => Zeros(z)
    case Some(b) => v.image[v.fsbToOffset(b) .. v.fsbToOffset(b) + z]
  }

  /** The intended result from logical block `lb` on: the chunks of the
      successive extents, in ascending logical order, until `remaining` bytes
      are produced. */
  function ReadChunks(v: Volume, getExtent: ExtentMap, lb: nat, remaining: nat): (data: seq<byte>)
    requires ExtentsAdvance(getExtent) && ExtentsInImage(v, getExtent)
    decreases remaining
  {
    if remaining == 0 then []
    else
      var z := ChunkLength(v, getExtent, lb, remaining);
      Chunk(v, getExtent(lb).0, z) + ReadChunks(v, getExtent, lb + getExtent(lb).1, remaining - z)
  }

  /** The chunks as the source assembles them: a hole contributes its length
      rounded up to whole blocks. */
  function ReadChunksAsWritten(v: Volume, getExtent: ExtentMap, lb: nat, remaining: nat): (data: seq<byte>)
    requires ExtentsAdvance(getExtent) && ExtentsInImage(v, getExtent)
    decreases remaining
  {
    if remaining == 0 then []
    else
      var z := ChunkLength(v, getExtent, lb, remaining);
      ChunkAsWritten(v, getExtent(lb).0, z) + ReadChunksAsWritten(v, getExtent, lb + getExtent(lb).1, remaining - z)
  }

  /** A chunk as the source keeps it: a mapped chunk is cut to its length, a
      hole keeps its length rounded up to whole blocks. */
  function ChunkAsWritten(v: Volume, blk: Option<nat>, z: nat): (c: seq<byte>)
    requires blk.Some? ==> v.fsbToOffset(blk.value) + z <= |v.image|
    ensures blk.Some? ==> c == Chunk(v, blk, z)
    ensures blk.None? ==> c == Zeros(RoundUp(z, BlockSize(v)))
  {
    if blk.Some? then Chunk(v, blk, z) else Zeros(RoundUp(z, BlockSize(v)))
  }

  /** One step of the intended result: the chunk at `lb`, then the rest. */
  lemma ReadChunksUnfold(v: Volume, getExtent: ExtentMap, lb: nat, remaining: nat)
    requires ExtentsAdvance(getExtent) && ExtentsInImage(v, getExtent)
    requires remaining > 0
    ensures var z := ChunkLength(v, getExtent, lb, remaining);
      ReadChunks(v, getExtent, lb, remaining)
      == Chunk(v, getExtent(lb).0, z) + ReadChunks(v, getExtent, lb + getExtent(lb).1, remaining - z)
  {
  }

  /** One step of the source's result: the chunk at `lb` as kept, then the rest. */
  lemma AsWrittenUnfold(v: Volume, getExtent: ExtentMap, lb: nat, remaining: nat)
    requires ExtentsAdvance(getExtent) && ExtentsInImage(v, getExtent)
    requires remaining > 0
    ensures var z := ChunkLength(v, getExtent, lb, remaining);
      ReadChunksAsWritten(v, getExtent, lb, remaining)
      == ChunkAsWritten(v, getExtent(lb).0, z) + ReadChunksAsWritten(v, getExtent, lb + getExtent(lb).1, remaining - z)
  {
  }

  /** The intended result has exactly the requested number of bytes. */
  lemma {:induction false} ReadChunksLength(v: Volume, getExtent: ExtentMap, lb: nat, remaining: nat)
    requires ExtentsAdvance(getExtent) && ExtentsInImage(v, getExtent)
    ensures |ReadChunks(v, getExtent, lb, remaining)| == remaining
    decreases remaining
  {
    if remaining > 0 {
      var z := ChunkLength(v, getExtent, lb, remaining);
      ReadChunksLength(v, getExtent, lb + getExtent(lb).1, remaining - z);
    }
  }

  /** How many bytes the source returns beyond the intended ones. */
  function Excess(v: Volume, getExtent: ExtentMap, lb: nat, remaining: nat): (n: int)
    requires ExtentsAdvance(getExtent) && ExtentsInImage(v, getExtent)
  {
    |ReadChunksAsWritten(v, getExtent, lb, remaining)| - remaining
  }

  /** As written, a read is the intended bytes followed by fewer than a block
      of extra zeros; the extras come from a hole in the last chunk. */
  lemma {:induction false} AsWrittenExtends(v: Volume, getExtent: ExtentMap, lb: nat, remaining: nat)
    requires ExtentsAdvance(getExtent) && ExtentsInImage(v, getExtent)
    ensures 0 <= Excess(v, getExtent, lb, remaining) < BlockSize(v)
    ensures ReadChunksAsWritten(v, getExtent, lb, remaining)
            == ReadChunks(v, getExtent, lb, remaining) + Zeros(Excess(v, getExtent, lb, remaining))
    decreases remaining
  {
    if remaining > 0 {
      var (blk, blocks) := getExtent(lb);
      var bs := BlockSize(v);
      var z := ChunkLength(v, getExtent, lb, remaining);
      var next := lb + blocks;
      if blk.None? && z % bs != 0 {
        LastHoleExtends(v, getExtent, lb, remaining);
      } else {
        AsWrittenExtends(v, getExtent, next, remaining - z);
        InnerChunkExtends(v, getExtent, lb, remaining, next, remaining - z);
      }
    }
  }

  /** The step of `AsWrittenExtends` for a chunk the source does not pad. */
  lemma InnerChunkExtends(v: Volume, getExtent: ExtentMap, lb: nat, remaining: nat, next: nat, rest: nat)
    requires ExtentsAdvance(getExtent) && ExtentsInImage(v, getExtent)
    requires remaining > 0
    requires getExtent(lb).0.Some? || ChunkLength(v, getExtent, lb, remaining) % BlockSize(v) == 0
    requires next == lb + getExtent(lb).1 && rest == remaining - ChunkLength(v, getExtent, lb, remaining)
    requires 0 <= Excess(v, getExtent, next, rest) < BlockSize(v)
    requires ReadChunksAsWritten(v, getExtent, next, rest)
             == ReadChunks(v, getExtent, next, rest) + Zeros(Excess(v, getExtent, next, rest))
    ensures 0 <= Excess(v, getExtent, lb, remaining) < BlockSize(v)
    ensures ReadChunksAsWritten(v, getExtent, lb, remaining)
            == ReadChunks(v, getExtent, lb, remaining) + Zeros(Excess(v, getExtent, lb, remaining))
  {
    var blk := getExtent(lb).0;
    var z := ChunkLength(v, getExtent, lb, remaining);
    var want := ReadChunks(v, getExtent, next, rest);
    var chunk := Chunk(v, blk, z);
    assert ChunkAsWritten(v, blk, z) == chunk;
    AsWrittenUnfold(v, getExtent, lb, remaining);
    ReadChunksUnfold(v, getExtent, lb, remaining);
    assert Excess(v, getExtent, lb, remaining) == Excess(v, getExtent, next, rest);
    ConcatAssoc(chunk, want, Zeros(Excess(v, getExtent, next, rest)));
  }

  /** A hole chunk that is not a whole number of blocks is the last chunk,
      and it is where the extra zeros come from. */
  lemma LastHoleExtends(v: Volume, getExtent: ExtentMap, lb: nat, remaining: nat)
    requires ExtentsAdvance(getExtent) && ExtentsInImage(v, getExtent)
    requires remaining > 0 && getExtent(lb).0.None?
    requires ChunkLength(v, getExtent, lb, remaining) % BlockSize(v) != 0
    ensures 0 <= Excess(v, getExtent, lb, remaining) < BlockSize(v)
    ensures ReadChunksAsWritten(v, getExtent, lb, remaining)
            == ReadChunks(v, getExtent, lb, remaining) + Zeros(Excess(v, getExtent, lb, remaining))
  {
    var bs := BlockSize(v);
    var blocks := getExtent(lb).1;
    var z := ChunkLength(v, getExtent, lb, remaining);
    if z < remaining {
      MultipleMod(blocks, bs);
    }
    assert z == remaining;
    assert ReadChunksAsWritten(v, getExtent, lb + blocks, 0) == [];
    assert ReadChunks(v, getExtent, lb + blocks, 0) == [];
    assert ReadChunksAsWritten(v, getExtent, lb, remaining) == Zeros(RoundUp(z, bs));
    assert ReadChunks(v, getExtent, lb, remaining) == Zeros(z);
    HoleChunkExtends(z, RoundUp(z, bs));
  }

  /** Zeros rounded up are the zeros followed by more zeros. */
  lemma HoleChunkExtends(z: nat, n: nat)
    requires z <= n
    ensures Zeros(n) == Zeros(z) + Zeros(n - z)
  {
  }

  /** When the clamped size is a whole number of blocks, the source's result
      is exactly the intended one. */
  lemma {:induction false} AsWrittenExactWhenAligned(v: Volume, getExtent: ExtentMap, lb: nat, remaining: nat)
    requires ExtentsAdvance(getExtent) && ExtentsInImage(v, getExtent)
    requires remaining % BlockSize(v) == 0
    ensures ReadChunksAsWritten(v, getExtent, lb, remaining) == ReadChunks(v, getExtent, lb, remaining)
    decreases remaining
  {
    if remaining > 0 {
      var next := lb + getExtent(lb).1;
      var rest := remaining - ChunkLength(v, getExtent, lb, remaining);
      AlignedChunkLength(remaining, getExtent(lb).1, BlockSize(v), ChunkLength(v, getExtent, lb, remaining));
      assert rest % BlockSize(v) == 0 && rest < remaining;
      AsWrittenExactWhenAligned(v, getExtent, next, rest);
      AlignedChunkExact(v, getExtent, lb, remaining, next, rest);
    }
  }

  /** Clamping a whole number of blocks to whole blocks leaves whole blocks on both sides. */
  lemma AlignedChunkLength(remaining: nat, blocks: nat, bs: nat, z: nat)
    requires bs >= 1 && remaining % bs == 0
    requires z == Min(remaining, blocks * bs)
    ensures z % bs == 0 && (remaining - z) % bs == 0
  {
    if z < remaining {
      MultipleMod(blocks, bs);
    }
    MultipleDiff(remaining, z, bs);
  }

  /** The step of `AsWrittenExactWhenAligned`: a whole-block chunk is kept as is. */
  lemma AlignedChunkExact(v: Volume, getExtent: ExtentMap, lb: nat, remaining: nat, next: nat, rest: nat)
    requires ExtentsAdvance(getExtent) && ExtentsInImage(v, getExtent)
    requires remaining > 0 && ChunkLength(v, getExtent, lb, remaining) % BlockSize(v) == 0
    requires next == lb + getExtent(lb).1 && rest == remaining - ChunkLength(v, getExtent, lb, remaining)
    requires ReadChunksAsWritten(v, getExtent, next, rest) == ReadChunks(v, getExtent, next, rest)
    ensures ReadChunksAsWritten(v, getExtent, lb, remaining) == ReadChunks(v, getExtent, lb, remaining)
  {
    var z := ChunkLength(v, getExtent, lb, remaining);
    assert ChunkAsWritten(v, getExtent(lb).0, z) == Chunk(v, getExtent(lb).0, z);
    AsWrittenUnfold(v, getExtent, lb, remaining);
    ReadChunksUnfold(v, getExtent, lb, remaining);
  }

  /** The preconditions of a read: the assertion on alignment, and an offset
      inside the file (the source unwraps `size - offset` as unsigned). */
  ghost predicate ReadArgsOk(v: Volume, getExtent: ExtentMap, fileSize: nat, offset: nat)
  {
    && offset % BlockSize(v) == 0
    && offset <= fileSize
    && ExtentsAdvance(getExtent)
    && ExtentsInImage(v, getExtent)
  }

  /** Reads `n` bytes of a chunk as the source does: the buffer is grown by
      `n` zero bytes, and for a mapped extent filled from the image. */
  method FetchChunk(v: Volume, blk: Option<nat>, n: nat) returns (buf: seq<byte>)
    requires blk.Some? ==> v.fsbToOffset(blk.value) + n <= |v.image|
    ensures buf == Chunk(v, blk, n)
  {
    buf := Zeros(n);
    if blk.Some? {
      var start := v.fsbToOffset(blk.value);
      buf := v.image[start .. start + n];
    }
  }

  /** A shorter chunk is a prefix of a longer one. */
  lemma ChunkPrefix(v: Volume, blk: Option<nat>, z: nat, n: nat)
    requires z <= n
    requires blk.Some? ==> v.fsbToOffset(blk.value) + n <= |v.image|
    ensures Chunk(v, blk, n)[.. z] == Chunk(v, blk, z)
  {
  }

  /** One pass of the loop: the chunk at `lb`, then everything after it. */
  lemma ReadStep(v: Volume, getExtent: ExtentMap, lb: nat, remaining: nat, lb': nat, remaining': nat, data: seq<byte>, chunk: seq<byte>, target: seq<byte>)
    requires ExtentsAdvance(getExtent) && ExtentsInImage(v, getExtent)
    requires remaining > 0
    requires lb' == lb + getExtent(lb).1 && remaining' == remaining - ChunkLength(v, getExtent, lb, remaining)
    requires chunk == Chunk(v, getExtent(lb).0, ChunkLength(v, getExtent, lb, remaining))
    requires data + ReadChunks(v, getExtent, lb, remaining) == target
    ensures (data + chunk) + ReadChunks(v, getExtent, lb', remaining') == target
  {
    var rest := ReadChunks(v, getExtent, lb', remaining');
    assert ReadChunks(v, getExtent, lb, remaining) == chunk + rest;
    ConcatAssoc(data, chunk, rest);
  }

  /** One pass of the loop as written. */
  lemma ReadStepAsWritten(v: Volume, getExtent: ExtentMap, lb: nat, remaining: nat, lb': nat, remaining': nat, data: seq<byte>, chunk: seq<byte>, target: seq<byte>)
    requires ExtentsAdvance(getExtent) && ExtentsInImage(v, getExtent)
    requires remaining > 0
    requires lb' == lb + getExtent(lb).1 && remaining' == remaining - ChunkLength(v, getExtent, lb, remaining)
    requires var z := ChunkLength(v, getExtent, lb, remaining);
             chunk == ChunkAsWritten(v, getExtent(lb).0, z)
    requires data + ReadChunksAsWritten(v, getExtent, lb, remaining) == target
    ensures (data + chunk) + ReadChunksAsWritten(v, getExtent, lb', remaining') == target
  {
    var rest := ReadChunksAsWritten(v, getExtent, lb', remaining');
    assert ReadChunksAsWritten(v, getExtent, lb, remaining) == chunk + rest;
    ConcatAssoc(data, chunk, rest);
  }

  /** One pass of the source's loop up to the copy into the result: look up
      the extent at `lb`, size the chunk, read whole blocks, and cut a mapped
      chunk back to its length. A hole keeps the rounded-up length. */
  method NextChunkAsWritten(v: Volume, getExtent: ExtentMap, lb: nat, remaining: nat, blockOffset: nat)
    returns (buf: seq<byte>, blocks: nat, z: nat)
    requires ExtentsAdvance(getExtent) && ExtentsInImage(v, getExtent)
    requires remaining > 0 && blockOffset == 0
    ensures blocks == getExtent(lb).1 && z == ChunkLength(v, getExtent, lb, remaining) && 0 < z <= remaining
    ensures buf == ChunkAsWritten(v, getExtent(lb).0, z)
  {
    var bs := BlockSize(v);
    var blk;
    blk, blocks := getExtent(lb).0, getExtent(lb).1;
    z := Min(remaining, blocks * bs - blockOffset);
    var zRoundUp := RoundUp(z, bs);
    RoundUpWithin(z, bs, blocks);
    buf := FetchChunk(v, blk, zRoundUp);
    if blk.Some? {
      ChunkPrefix(v, blk, z, zRoundUp);
      buf := buf[.. z];
    }
  }

  /** The same pass with every chunk cut back to its length. */
  method NextChunk(v: Volume, getExtent: ExtentMap, lb: nat, remaining: nat, blockOffset: nat)
    returns (buf: seq<byte>, blocks: nat, z: nat)
    requires ExtentsAdvance(getExtent) && ExtentsInImage(v, getExtent)
    requires remaining > 0 && blockOffset == 0
    ensures blocks == getExtent(lb).1 && z == ChunkLength(v, getExtent, lb, remaining) && 0 < z <= remaining
    ensures buf == Chunk(v, getExtent(lb).0, z)
  {
    var bs := BlockSize(v);
    var blk;
    blk, blocks := getExtent(lb).0, getExtent(lb).1;
    z := Min(remaining, blocks * bs - blockOffset);
    var zRoundUp := RoundUp(z, bs);
    RoundUpWithin(z, bs, blocks);
    buf := FetchChunk(v, blk, zRoundUp);
    ChunkPrefix(v, blk, z, zRoundUp);
    buf := buf[.. z];
  }

  /** One pass of the source's loop: the chunk at `lb` is appended, and the
      logical block and the remaining size advance past it. */
  method PassAsWritten(v: Volume, getExtent: ExtentMap, data: seq<byte>, lb: nat, remaining: nat, blockOffset: nat,
                       ghost target: seq<byte>)
    returns (data': seq<byte>, lb': nat, remaining': nat)
    requires ExtentsAdvance(getExtent) && ExtentsInImage(v, getExtent)
    requires remaining > 0 && blockOffset == 0
    requires data + ReadChunksAsWritten(v, getExtent, lb, remaining) == target
    ensures data' + ReadChunksAsWritten(v, getExtent, lb', remaining') == target
    ensures remaining' < remaining
  {
    var buf, blocks, z := NextChunkAsWritten(v, getExtent, lb, remaining, blockOffset);
    ReadStepAsWritten(v, getExtent, lb, remaining, lb + blocks, remaining - z, data, buf, target);
    data', lb', remaining' := data + buf, lb + blocks, remaining - z;
  }

  /** One pass of the loop with every chunk cut back to its length. */
  method Pass(v: Volume, getExtent: ExtentMap, data: seq<byte>, lb: nat, remaining: nat, blockOffset: nat,
              ghost target: seq<byte>)
    returns (data': seq<byte>, lb': nat, remaining': nat)
    requires ExtentsAdvance(getExtent) && ExtentsInImage(v, getExtent)
    requires remaining > 0 && blockOffset == 0
    requires data + ReadChunks(v, getExtent, lb, remaining) == target
    ensures data' + ReadChunks(v, getExtent, lb', remaining') == target
    ensures remaining' < remaining
  {
    var buf, blocks, z := NextChunk(v, getExtent, lb, remaining, blockOffset);
    assert buf == Chunk(v, getExtent(lb).0, ChunkLength(v, getExtent, lb, remaining));
    ReadStep(v, getExtent, lb, remaining, lb + blocks, remaining - z, data, buf, target);
    data', lb', remaining' := data + buf, lb + blocks, remaining - z;
  }

  /** `File::read` as written: whole blocks are read, a mapped chunk is cut
      back to its length, and a hole keeps its rounded-up length. */
  method ReadAsWritten(v: Volume, getExtent: ExtentMap, fileSize: nat, offset: nat, size: u32)
    returns (data: seq<byte>)
    requires ReadArgsOk(v, getExtent, fileSize, offset)
    ensures data == ReadChunksAsWritten(v, getExtent, offset / BlockSize(v), Budget(fileSize, offset, size))
  {
    var bs := BlockSize(v);
    var remaining := Budget(fileSize, offset, size);
    var logicalBlock: nat := offset / bs;
    var blockOffset := offset % bs;
    ghost var target := ReadChunksAsWritten(v, getExtent, logicalBlock, remaining);
    data := [];
    assert data + target == target;
    while remaining > 0
      invariant blockOffset == 0
      invariant data + ReadChunksAsWritten(v, getExtent, logicalBlock, remaining) == target
      decreases remaining
    {
      data, logicalBlock, remaining := PassAsWritten(v, getExtent, data, logicalBlock, remaining, blockOffset, target);
      blockOffset := 0;
    }
  }

  /** `File::read` with the hole chunk cut back to its length like a mapped
      one: exactly the clamped number of bytes, chunk by chunk. */
  method Read(v: Volume, getExtent: ExtentMap, fileSize: nat, offset: nat, size: u32)
    returns (data: seq<byte>)
    requires ReadArgsOk(v, getExtent, fileSize, offset)
    ensures data == ReadChunks(v, getExtent, offset / BlockSize(v), Budget(fileSize, offset, size))
    ensures |data| == Budget(fileSize, offset, size)
  {
    var bs := BlockSize(v);
    var remaining := Budget(fileSize, offset, size);
    var logicalBlock: nat := offset / bs;
    var blockOffset := offset % bs;
    ghost var target := ReadChunks(v, getExtent, logicalBlock, remaining);
    data := [];
    assert data + target == target;
    while remaining > 0
      invariant blockOffset == 0
      invariant data + ReadChunks(v, getExtent, logicalBlock, remaining) == target
      decreases remaining
    {
      data, logicalBlock, remaining := Pass(v, getExtent, data, logicalBlock, remaining, blockOffset, target);
      blockOffset := 0;
    }
    ReadChunksLength(v, getExtent, offset / bs, Budget(fileSize, offset, size));
  }

  /** A 5000-byte file on 4096-byte blocks whose second block is a hole: a
      read at offset 4096 should return the 904 bytes left in the file, but
      the source returns a whole block of 4096 zeros. */
  lemma TailHoleOverreads()
    ensures var v := Volume(12, [], _ => 0);
            var holes: ExtentMap := _ => (None, 1);
            ExtentsAdvance(holes) && ExtentsInImage(v, holes)
            && Budget(5000, 4096, 4096) == 904
            && |ReadChunks(v, holes, 1, 904)| == 904
            && |ReadChunksAsWritten(v, holes, 1, 904)| == 4096
  {
    var v := Volume(12, [], _ => 0);
    var holes: ExtentMap := _ => (None, 1);
    assert Pow2(12) == 4096 by {
      assert Pow2(4) == 16;
      assert Pow2(8) == 256;
    }
    assert ChunkLength(v, holes, 1, 904) == 904;
    assert RoundUp(904, 4096) == 4096;
    ReadChunksLength(v, holes, 1, 904);
  }
}
