# A Dafny model of the xfuse XFS reader core

xfuse is a read-only FUSE driver for XFS file systems. This project models, as
pure functions and small methods over byte sequences, the parts of the driver
that turn on-disk XFS structures into answers:

- **Directory blocks** (`dir3.dfy`, module `Dir3`):
  - the data entry and its three length helpers;
  - the unused (free) region and its three decoders;
  - the sizes of the data-block header;
  - the leaf block decoders and the binary search of the hash entries.
- **Leaf directories** (`dir3_leaf.dfy`, module `Dir3Leaf`):
  - construction from the directory's extents;
  - `lookup` of a name through the hash leaf, with collision retries and the one-block cache;
  - `next`, the readdir step, and its cookies.
- **Regular-file reads** (`file_read.dfy`, module `FileRead`): `File::read` over an extent map, holes included.
- **Node-format attribute forks** (`attr_node.dfy`, module `NodeAttr`): `map_dblock`, the leaf cache, `get_total_size`, `list` and `get`.
- **B+tree-format attribute forks** (`attr_bptree.dfy`, module `BtreeAttr`): `get_total_size`, `get_size` with its retry into the next leaf, `list` and `get`.
- **The inode core** (`dinode_core.dfy`, module `DinodeCore`): the fork-format decode, the field layout and size, `sanity`, and the `DIFLAG` masks.
- **File types** (`utils.dfy`, module `Utils`): `get_file_type`, from a directory-entry type code or from a mode.

Supporting modules:

- `Wrappers`: `Option`, `Result` with an errno, `Decoded` (a value and the bytes consumed, or `UnexpectedEnd`), and `Outcome`, which separates a returned value from a panic.
- `Bytes`: fixed-width unsigned integers and big-endian fields.
- `Arith`: facts about division.
- `Bmbt`: extent records.
- `Attr`: the attribute leaf seen by the two fork walkers, and the memoised total.

## Modelling conventions

- **Integers.** Integers are unbounded. Each Rust integer type is a subset type (`u8` to `u64`).
- **Overflow.** Arithmetic that overflows in the source becomes explicit, in one of two ways:
  - a panic outcome, as with overflow checks on: for `u32` totals, for the length subtractions of the free-region decoders, and for the bests position of a leaf block;
  - a modulus, for the 8-bit block index of a readdir cookie.
- **Panics.** An `assert`, an `expect`, or an `unwrap` on data read from disk becomes an `Outcome.Panics` result. An `unwrap` on an I/O call or on a caller's argument becomes a precondition.
- **Collaborators.** Code outside the core is passed in as function-valued parameters or environment fields:
  - the directory hash `hashname`;
  - `fsb_to_offset`;
  - `get_extent`;
  - the B+tree `map_block`;
  - the interior node's `lookup` and `first_block`;
  - the attribute leaf operations.
- **Images.** The disk image is a byte sequence. A seek and a read become a slice of it.
- **Errno values.** `ENOENT` is 2 and `ENOATTR` is 87, the FreeBSD values.

Where a natural contract did not hold of the code as written, the model carries both versions. One models the code as written and is shown to differ on a concrete input. The other is corrected, and the property is proved of it (see "## Findings"). For readdir the two versions are one function with a parameter: `Dir3Leaf.Next(blocks, cookie, AsWritten)` is the source, and `Corrected` steps over entries by their on-disk size.

One mismatch between the files: `Dir2Leaf::lookup` calls `get_address(hash, collision_resolver)`, but both `get_address` methods in `dir3.rs` take only the hash. The model follows the caller. `Dir3.CollisionAddress` is the two-argument lookup, read as "the address of the `k`-th entry with this hash". `Dir3.CollisionAddressFirst` shows it agrees with the one-argument search on sorted leaves.

## Model

| member | source | states |
|---|---|---|
| Wrappers.TranslateErrno | src/libxfuse/attr_node.rs:141-143 | `map_err` that replaces one errno by another passes a success and every other errno through unchanged |
| Dir3.DataHdrSize | src/libxfuse/dir3.rs:74-96 | the block header (48) and free-space record (4) sizes are the sums of their field widths, and the data header is 48 + 3·4 + 4 = 64 bytes |
| Dir3.RawEntryLength | src/libxfuse/dir3.rs:132-149 | the length the helpers compute is a multiple of 8 between namelen + 11 and namelen + 18 |
| Dir3.EntSize | src/libxfuse/dir3.rs:108-130 | the on-disk size of an entry is a multiple of 8 between namelen + 12 and namelen + 19 |
| Dir3.DecodePad | src/libxfuse/dir3.rs:162 | the padding skipped after the file-type byte is under 8 and brings the tag's end to a multiple of 8 |
| Dir3.PadFillsEntry | src/libxfuse/dir3.rs:152-172 | the fixed fields, the name and the padding add up to exactly the entry's on-disk size |
| Dir3.PadAsWritten | src/libxfuse/dir3.rs:162 | the source's `i8` padding computation, when it does not overflow, yields a value under 8 |
| Dir3.PadAsWrittenOverflow | src/libxfuse/dir3.rs:162 | the `i8` computation agrees with the intended padding wherever it does not overflow, and it overflows exactly for name lengths 128 to 132 |
| Dir3.PadWrapping | src/libxfuse/dir3.rs:162 | the source's `i8` padding with the subtraction wrapping, as without overflow checks, is under 8 |
| Dir3.PadWrappingAgrees | src/libxfuse/dir3.rs:162 | for every name length the wrapped `i8` computation yields the intended padding |
| Dir3.DecodeEntry | src/libxfuse/dir3.rs:152-172 | an entry decodes exactly when the input holds its whole on-disk size; the name has the stored length, the consumed count is the on-disk size, and the tag is the last two bytes |
| Dir3.EntryMiddle | src/libxfuse/dir3.rs:152-172 | the bytes between inode number and tag hold the name length, the name and the file type at their offsets |
| Dir3.EncodeEntry | src/libxfuse/dir3.rs:152-172 | an encoded entry occupies exactly its on-disk size |
| Dir3.EntryRoundTrip | src/libxfuse/dir3.rs:152-172 | decoding an encoded entry, whatever follows it, gives the entry back and consumes exactly its encoding |
| Dir3.EntryFieldsRoundTrip | src/libxfuse/dir3.rs:152-172 | every field of an encoded entry is read back at its offset |
| Dir3.EntryInumberRoundTrip | src/libxfuse/dir3.rs:154 | the inode number reads back from the first 8 bytes |
| Dir3.EntryTagRoundTrip | src/libxfuse/dir3.rs:163 | the tag reads back after the padding |
| Dir3.EntryNameRoundTrip | src/libxfuse/dir3.rs:155-161 | the name length, name and file type read back after the inode number |
| Dir3.MiddleAfterInumber | src/libxfuse/dir3.rs:155-161 | fields placed after an 8-byte inode number are found at offsets 8, 9 and 9 + namelen |
| Dir3.StreamPad | src/libxfuse/dir3.rs:118-120 | the stream decoder's seek is under 8 and lands the tag's end on an 8-byte boundary of the image |
| Dir3.EntryFromStream | src/libxfuse/dir3.rs:108-130 | reading an entry from a stream gives a name of the stored length and a tag read just before the new position, which is 8-byte aligned |
| Dir3.StreamPadAligned | src/libxfuse/dir3.rs:108-130 | at an aligned position the stream decoder and the slice decoder read the same entry and end at the same place |
| Dir3.StreamFieldsAgree | src/libxfuse/dir3.rs:108-130 | the fields read in place in the image equal those read from the suffix starting at the entry |
| Dir3.AlignedPad | src/libxfuse/dir3.rs:118-120 | at an aligned position the stream padding equals the slice padding |
| Dir3.GetLength | src/libxfuse/dir3.rs:132-135 | `get_length` is a multiple of 8 between namelen + 11 and namelen + 18 |
| Dir3.GetLengthFromReader | src/libxfuse/dir3.rs:137-143 | the reader variant computes the same length as `get_length` on the bytes at the stream position, and leaves the position where it was |
| Dir3.Length | src/libxfuse/dir3.rs:146-149 | `length` of a decoded entry is a multiple of 8 between namelen + 11 and namelen + 18 |
| Dir3.RawLengthAgreesUnlessFive | src/libxfuse/dir3.rs:132-149 | the length helpers equal the on-disk entry size if and only if namelen mod 8 is not 5; otherwise they are 8 short |
| Dir3.GetLengthShortForFiveByteName | src/libxfuse/dir3.rs:132-135 | for a five-byte name the entry decodes with 24 bytes consumed while `get_length` says 16 |
| Dir3.GetEntSize | src/libxfuse/dir3.rs:132-135 | the corrected length is what the decoder consumes for a whole entry, a multiple of 8 of at least 16 |
| Dir3.UnusedFromStream | src/libxfuse/dir3.rs:182-197 | reading a free region from a stream panics exactly when the stored length is below 6, where the 16-bit `length - 6` underflows; otherwise the region has the stored free tag and length, ends `length` bytes after its start, and its tag is the region's last two bytes |
| Dir3.UnusedFromSlice | src/libxfuse/dir3.rs:200-212 | reading a free region from a slice returns exactly when the slice holds the free tag and length and the length is from 2 to the slice's size, and panics otherwise; the region has the stored free tag and length, and its tag is read at `length - 2` |
| Dir3.DecodeUnused | src/libxfuse/dir3.rs:214-226 | decoding a free region panics exactly when a stored length is below 6, where `length - 6` underflows; otherwise it decodes exactly when the input holds the whole length, consumes exactly that length, and its tag is the region's last two bytes |
| Dir3.UnusedDecodersAgree | src/libxfuse/dir3.rs:182-226 | the stream and bincode decoders panic on the same lengths; otherwise all three decoders read the same free region from the same bytes, and the stream and bincode ones end at the same place |
| Dir3.DecodeLeafHdr | src/libxfuse/dir3.rs:256-277 | a leaf header decodes exactly when 64 bytes are present; its entry count is the 16-bit field at byte 56 |
| Dir3.LeafEntries | src/libxfuse/dir3.rs:385-387 | the `count` hash entries after the header, each read at its 8-byte slot |
| Dir3.U16Array | src/libxfuse/dir3.rs:393-400 | `count` big-endian 16-bit values read at consecutive 2-byte slots |
| Dir3.ParseLeafBlock | src/libxfuse/dir3.rs:368-408 | parsing a leaf block returns exactly when the block holds the header, its `count` entries, and the tail with its bests. Otherwise a decode `unwrap` or the `size - 4 - 2 * bestcount` subtraction panics. The parsed block has `count` entries at their slots after the header, the bests count from the last 4 bytes, and that many bests just before the tail |
| Dir3.DecodeLeafN | src/libxfuse/dir3.rs:346-357 | a node leaf decodes exactly when the header and its `count` entries fit; it yields exactly `count` entries and consumes header plus entries |
| Dir3.LeafDecodersAgree | src/libxfuse/dir3.rs:346-408 | on a block both can read, both decoders succeed and agree on the header and the entries |
| Dir3.GetAddress | src/libxfuse/dir3.rs:410-431 | a found address belongs to an entry with the searched hash; a miss is `ENOENT`, and on sorted entries a miss means no entry has that hash |
| Dir3.GetAddressN | src/libxfuse/dir3.rs:318-339 | the same for the node-leaf copy of the search |
| Dir3.Matches | src/libxfuse/dir3_leaf.rs:94 | the filter of the leaf's entries by hash, in leaf order; its contract only bounds its length, and what it keeps is stated by `Dir3.MatchesMembers` and `Dir3.MatchesContiguous` |
| Dir3.MatchesMembers | src/libxfuse/dir3_leaf.rs:94 | an entry is among the matches if and only if it is in the leaf and carries the hash |
| Dir3.CollisionAddress | src/libxfuse/dir3_leaf.rs:94 | the collision-indexed lookup fails only with `ENOENT` |
| Dir3.MatchesContiguous | src/libxfuse/dir3.rs:410-431 | when sorted entries have smaller hashes before `lo`, the given hash from `lo` to `hi`, and larger hashes after, the entries matching the hash are exactly the slice from `lo` to `hi` |
| Dir3.CollisionAddressFirst | src/libxfuse/dir3.rs:410-431 | on sorted entries, the first collision slot exists if and only if some entry carries the hash, and its address belongs to such an entry |
| Utils.GetFileType | src/libxfuse/utils.rs:39-60 | classification only ever yields a regular file, a directory or a symlink, and fails only with `ENOENT` |
| Utils.TypeCodeClassification | src/libxfuse/utils.rs:41-49 | a type code maps to a kind if and only if it is that kind's XFS code and the kind is supported; it is rejected if and only if it is no supported kind's code |
| Utils.ModeClassification | src/libxfuse/utils.rs:50-58 | a mode maps to a kind if and only if its `S_IFMT` bits are that kind's and the kind is supported |
| Utils.ModeIgnoresPermissions | src/libxfuse/utils.rs:50 | two modes with the same format bits classify the same, whatever their permission bits |
| Utils.TypeAndModeAgree | src/libxfuse/utils.rs:39-60 | for every supported kind, its directory type code and its mode (with any permissions) classify to that kind |
| Dir3Leaf.BlockStep | src/libxfuse/dir3_leaf.rs:59-64 | a directory block spans at least one file-system block |
| Dir3Leaf.DirBlockSize | src/libxfuse/dir3_leaf.rs:88-89 | the directory block size is at least the file-system block size |
| Dir3Leaf.SplitAddress | src/libxfuse/dir3_leaf.rs:94-96 | a leaf address × 8 splits into a block index and an in-block offset below the block size that recombine to it |
| Dir3Leaf.SplitJoin | src/libxfuse/dir3_leaf.rs:94-96 | splitting the address of an aligned in-block position gives the block and offset back |
| Dir3Leaf.JoinExact | src/libxfuse/dir3_leaf.rs:94-96 | the address of an aligned position loses nothing in the division by 8 |
| Dir3Leaf.JoinSplit | src/libxfuse/dir3_leaf.rs:94-96 | joining the halves of a split gives the address back |
| Dir3Leaf.ExtentOffsetsMembers | src/libxfuse/dir3_leaf.rs:59-64 | an extent contributes a data block at exactly every block-step-th file-system block, at that block's byte offset |
| Dir3Leaf.ExtentOffsetsCount | src/libxfuse/dir3_leaf.rs:59-64 | an extent of `n` blocks yields ⌈n / step⌉ data blocks |
| Dir3Leaf.FromExtents | src/libxfuse/dir3_leaf.rs:53-78 | an empty extent list panics. Otherwise construction returns if and only if the last extent's block parses as a leaf block and carries the leaf magic, and panics otherwise; the data blocks are those of every other extent, and the leaf is that block parsed |
| Dir3Leaf.CollectOffsets | src/libxfuse/dir3_leaf.rs:59-64 | the outer loop collects the data-block offsets of all extents in order |
| Dir3Leaf.AppendExtent | src/libxfuse/dir3_leaf.rs:60-63 | the inner loop appends the offsets of one extent |
| Dir3Leaf.DataBlocks | src/libxfuse/dir3_leaf.rs:104-113 | one byte block per data block, each of the directory block size, read at its offset |
| Dir3Leaf.FetchBlock | src/libxfuse/dir3_leaf.rs:104-113 | the block returned is the image's block, whether it came from the cache or not; the cache then holds it, and a hit leaves it unchanged |
| Dir3Leaf.LookupSpec | src/libxfuse/dir3_leaf.rs:93-122 | the reference lookup over the hash candidates fails only with `ENOENT` |
| Dir3Leaf.LookupSound | src/libxfuse/dir3_leaf.rs:115-121 | a successful lookup returns the inode number of an entry whose name is the requested one |
| Dir3Leaf.LookupComplete | src/libxfuse/dir3_leaf.rs:93-122 | when earlier probes are well formed, the lookup finds the first candidate carrying the name |
| Dir3Leaf.LookupCompleteFrom | src/libxfuse/dir3_leaf.rs:93-122 | the same, from any point of the candidate list |
| Dir3Leaf.LookupMissing | src/libxfuse/dir3_leaf.rs:94-100 | when every probe is well formed and none carries the name, the lookup ends with `ENOENT` |
| Dir3Leaf.LookupMissingFrom | src/libxfuse/dir3_leaf.rs:94-100 | the same, from any point of the candidate list |
| Dir3Leaf.Lookup | src/libxfuse/dir3_leaf.rs:82-122 | `lookup` computes the reference lookup over the entries with the name's hash, fails only with `ENOENT`, and keeps the block cache coherent with the image |
| Dir3Leaf.CookieBlock | src/libxfuse/dir3_leaf.rs:139-142 | the block a cookie names is below 256 |
| Dir3Leaf.CookieOffset | src/libxfuse/dir3_leaf.rs:145 | the in-block offset a cookie names is below 2^56 |
| Dir3Leaf.MakeCookie | src/libxfuse/dir3_leaf.rs:177 | the cookie handed out for an entry holds the block index modulo 256 in its top 8 bits and the entry's tag in its low 56 bits |
| Dir3Leaf.CookieRoundTrip | src/libxfuse/dir3_leaf.rs:139-145 | a cookie returns its tag and its block index mod 256, exactly the index below 256 blocks |
| Dir3Leaf.ScanRecord | src/libxfuse/dir3_leaf.rs:166-185 | in either reading, one scan pass advances strictly and stops at the end of the block. It reports an entry only when `next` is set, at the scanned offset, and never on a free region |
| Dir3Leaf.EntrySkip | src/libxfuse/dir3_leaf.rs:179-180 | the scan steps over an entry by `get_length` as written and by the entry's on-disk size when corrected; either step is a positive multiple of 8 |
| Dir3Leaf.ScanBlock | src/libxfuse/dir3_leaf.rs:166-185 | in either reading, a found entry lies at or after the start, strictly after it when resuming, and is not a free region |
| Dir3Leaf.EntryResult | src/libxfuse/dir3_leaf.rs:173-178 | an entry of an unsupported type ends `next` with `ENOENT` and no other error |
| Dir3Leaf.NextFrom | src/libxfuse/dir3_leaf.rs:147-197 | in either reading, the outer loop of `next` fails only with `ENOENT` |
| Dir3Leaf.Next | src/libxfuse/dir3_leaf.rs:130-198 | in either reading, `next` fails only with `ENOENT`; the source is the `AsWritten` reading |
| Dir3Leaf.NextFromOutcomes | src/libxfuse/dir3_leaf.rs:147-197 | in either reading, every answer is `ENOENT` or comes from a live entry at or after the cookie's block and carries that entry's inode, name and own cookie; every success does |
| Dir3Leaf.LiveStep | src/libxfuse/dir3_leaf.rs:166-185 | a well-formed record is followed by the chain from its end and contributes its own offset exactly when it is an entry |
| Dir3Leaf.ScanOverFree | src/libxfuse/dir3_leaf.rs:169-172 | in either reading, the scan steps over a free region to the record after it |
| Dir3Leaf.ScanFindsFirst | src/libxfuse/dir3_leaf.rs:166-185 | in either reading, with `next` set the scan stops at the first live entry of the chain, and runs off the block when there is none |
| Dir3Leaf.ScanSkipsEntry | src/libxfuse/dir3_leaf.rs:179-184 | with `next` clear the scan skips the entry at hand and finds the following live entry |
| Dir3Leaf.LiveSuffix | src/libxfuse/dir3_leaf.rs:166-185 | every live offset of a chain lies after its start, holds a well-formed entry, and the chain from it lists the rest |
| Dir3Leaf.ScanSkipsAt | src/libxfuse/dir3_leaf.rs:179-184 | resuming at live entry `k` finds entry `k + 1`, or runs off the block after the last |
| Dir3Leaf.Located | src/libxfuse/dir3_leaf.rs:177 | the entries of one block tagged with its index keep their order and count |
| Dir3Leaf.NextFromStart | src/libxfuse/dir3_leaf.rs:149-153 | starting a block at offset 0 yields the first entry from that block on |
| Dir3Leaf.LocateEntry | src/libxfuse/dir3_leaf.rs:187-194 | the `j`-th listed entry is entry `k` of some block `i`, and what follows it is the rest of that block, then later blocks |
| Dir3Leaf.LocatedSuffix | src/libxfuse/dir3_leaf.rs:177 | a suffix of a block's tagged entries is the tagged suffix |
| Dir3Leaf.ReaddirStarts | src/libxfuse/dir3_leaf.rs:130-198 | in either reading, `next` from cookie 0 yields the first entry of the directory |
| Dir3Leaf.ReaddirResumes | src/libxfuse/dir3_leaf.rs:130-198 | in the corrected reading, the answer for any listed entry does not panic. Passing its cookie back yields the next listed entry, or `ENOENT` after the last |
| Dir3Leaf.ResumeAfter | src/libxfuse/dir3_leaf.rs:145-185 | the cookie of live entry `k` of block `i` resumes with whatever follows that entry |
| Dir3Leaf.ScanAfter | src/libxfuse/dir3_leaf.rs:166-194 | the scan resumed after entry `k` of block `i` lists the rest of that block and then the later blocks |
| Dir3Leaf.ResumeAfterFiveByteName | src/libxfuse/dir3_leaf.rs:173-185 | on a well-formed one-block directory whose only entry has a 5-byte name, resuming with that entry's cookie gives `ENOENT` in the corrected reading and panics as written |
| FileRead.BlockSize | src/libxfuse/file.rs:57-58 | the block size `1 << blocklog` is at least 1 |
| FileRead.Budget | src/libxfuse/file.rs:53-55 | the bytes a read returns are at most the requested size and at most what is left of the file, and equal one of the two |
| FileRead.RoundUp | src/libxfuse/file.rs:67-71 | rounding up adds less than a block and leaves a whole number of blocks unchanged |
| FileRead.RoundUpAligned | src/libxfuse/file.rs:67-71 | the rounded-up length is a whole number of blocks |
| FileRead.RoundUpWithin | src/libxfuse/file.rs:67-71 | a length within `m` blocks stays within `m` blocks after rounding up |
| FileRead.ChunkLength | src/libxfuse/file.rs:62-64 | a chunk is no longer than what remains or than its extent, and is non-empty while bytes remain |
| FileRead.Chunk | src/libxfuse/file.rs:73-84 | a chunk has exactly its length: image bytes for a mapped extent, zeros for a hole |
| FileRead.ChunkAsWritten | src/libxfuse/file.rs:73-84 | a chunk as the source keeps it is its length for a mapped extent and the rounded-up length for a hole |
| FileRead.ReadChunksUnfold | src/libxfuse/file.rs:60-88 | the intended result is the chunk at the current block followed by the result after it |
| FileRead.AsWrittenUnfold | src/libxfuse/file.rs:60-88 | the source's result is the kept chunk followed by the result after it |
| FileRead.ReadChunksLength | src/libxfuse/file.rs:60-88 | the intended result has exactly the requested number of bytes |
| FileRead.AsWrittenExtends | src/libxfuse/file.rs:67-84 | the source's result is the intended result followed by fewer than a block of zeros |
| FileRead.InnerChunkExtends | src/libxfuse/file.rs:73-84 | a chunk the source does not pad carries the excess of the rest of the read |
| FileRead.LastHoleExtends | src/libxfuse/file.rs:67-84 | a hole chunk that is not whole blocks is the last chunk, and the extra zeros come from it |
| FileRead.HoleChunkExtends | src/libxfuse/file.rs:67-74 | a rounded-up run of zeros is the exact run followed by more zeros |
| FileRead.AsWrittenExactWhenAligned | src/libxfuse/file.rs:60-88 | when the clamped size is a whole number of blocks the source returns exactly the intended bytes |
| FileRead.AlignedChunkLength | src/libxfuse/file.rs:62-71 | clamping whole blocks to whole blocks leaves whole blocks both in the chunk and in what remains |
| FileRead.AlignedChunkExact | src/libxfuse/file.rs:73-84 | a whole-block chunk is kept exactly as the intended one |
| FileRead.FetchChunk | src/libxfuse/file.rs:73-81 | the buffer grows by the chunk: image bytes from the extent, or zeros for a hole |
| FileRead.ChunkPrefix | src/libxfuse/file.rs:80-81 | cutting a longer chunk back gives the shorter chunk |
| FileRead.ReadStep | src/libxfuse/file.rs:60-88 | one loop pass keeps "data so far followed by the rest equals the whole result" |
| FileRead.ReadStepAsWritten | src/libxfuse/file.rs:60-88 | the same invariant step for the loop as written |
| FileRead.NextChunkAsWritten | src/libxfuse/file.rs:61-84 | one pass of the source's loop yields the kept chunk, its length and the extent's block count |
| FileRead.NextChunk | src/libxfuse/file.rs:61-84 | one pass yields the intended chunk |
| FileRead.PassAsWritten | src/libxfuse/file.rs:60-88 | a pass appends the kept chunk and advances the logical block and the remaining size |
| FileRead.Pass | src/libxfuse/file.rs:60-88 | a pass appends the intended chunk and advances |
| FileRead.ReadAsWritten | src/libxfuse/file.rs:46-91 | `read` as written returns the chunks as the source keeps them, from the offset's block, for the clamped size |
| FileRead.Read | src/libxfuse/file.rs:46-91 | the corrected `read` returns the intended chunks and exactly the clamped number of bytes |
| FileRead.TailHoleOverreads | src/libxfuse/file.rs:67-84 | on a 5000-byte file whose second block is a hole, a read at 4096 should give 904 bytes but the source gives 4096 |
| Attr.LastHash | src/libxfuse/attr_bptree.rs:119-121 | a leaf's last hash is absent exactly when it has no entries, and is otherwise its final entry's hash |
| Attr.StoredTotal | src/libxfuse/attr_node.rs:115 | the stored `i64` total converts to `u32` if and only if it is in range, and is returned unchanged |
| Attr.AccumulatedTotal | src/libxfuse/attr_node.rs:108 | a `u32` running total returns the sum if and only if it is below 2^32, and panics otherwise |
| NodeAttr.New | src/libxfuse/attr_node.rs:57-64 | a new fork keeps its extents, has no total yet and an empty cache |
| NodeAttr.CoverIndex | src/libxfuse/attr_node.rs:66-73 | the chosen extent covers the block |
| NodeAttr.Mapped | src/libxfuse/attr_node.rs:72 | the mapped block lies inside the covering extent, at the same distance from its start as the fork block |
| NodeAttr.CoverUnique | src/libxfuse/attr_node.rs:66-73 | among sorted, non-overlapping extents at most one covers a block |
| NodeAttr.PartitionPoint | src/libxfuse/attr_node.rs:68 | the partition point splits the extents into those starting at or before the block and those after it |
| NodeAttr.MapDblock | src/libxfuse/attr_node.rs:66-73 | mapping returns if and only if some extent covers the block, and then yields the block at the right distance into it |
| NodeAttr.ReadLeaf | src/libxfuse/attr_node.rs:76-93 | reading a leaf panics exactly when no extent covers its fork block, where `map_dblock` panics; otherwise the leaf returned is the leaf on disk. A cached one is returned without change; otherwise it is inserted and nothing else in the cache changes. The total is never touched |
| NodeAttr.CacheInsert | src/libxfuse/attr_node.rs:83-87 | inserting the leaf read from disk keeps the cache coherent |
| NodeAttr.ChainStep | src/libxfuse/attr_node.rs:106-110 | one walk step reads the leaf on disk and continues along its `forw` on the rest of the chain |
| NodeAttr.SumChain | src/libxfuse/attr_node.rs:98-110 | the walk returns the sum of the leaf totals along the chain, panicking exactly when it overflows `u32` |
| NodeAttr.GetTotalSize | src/libxfuse/attr_node.rs:97-116 | `get_total_size` returns the memoised total if there is one (nothing changes), otherwise the chain's sum, which it then stores |
| NodeAttr.ListChain | src/libxfuse/attr_node.rs:122-131 | the walk of `list` concatenates the leaf listings in chain order |
| NodeAttr.List | src/libxfuse/attr_node.rs:118-134 | `list` panics if and only if the total does, and otherwise returns the listings concatenated in chain order. A stored total stays as it was; a computed one is stored |
| NodeAttr.ListLengthIsTotal | src/libxfuse/attr_node.rs:118-134 | when each leaf's total is its listing's length, the total equals the length of the list |
| NodeAttr.Get | src/libxfuse/attr_node.rs:136-151 | `get` reports a missing hash as `ENOATTR` and other lookup errors unchanged, changing nothing. Otherwise it panics exactly when no extent covers the leaf's fork block, and else asks the leaf on disk. The total is unchanged and the cache gains at most that leaf |
| BtreeAttr.NextLeaf | src/libxfuse/attr_bptree.rs:78-82 | one walk step maps `forw` and reads the next leaf of the chain |
| BtreeAttr.SumChain | src/libxfuse/attr_bptree.rs:65-83 | the walk returns the sum of the leaf totals from the first leaf, panicking exactly when it overflows `u32` |
| BtreeAttr.GetTotalSize | src/libxfuse/attr_bptree.rs:51-89 | memoised total returned unchanged; otherwise an unmapped root panics, else the chain's sum is returned and stored |
| BtreeAttr.ListChain | src/libxfuse/attr_bptree.rs:148-161 | the walk of `list` concatenates the leaf listings in chain order |
| BtreeAttr.List | src/libxfuse/attr_bptree.rs:132-164 | `list` panics if and only if the total panics or the root is unmapped, and otherwise returns the listings in chain order. A stored total stays as it was; a computed one is stored |
| BtreeAttr.ListLengthIsTotal | src/libxfuse/attr_bptree.rs:132-164 | when each leaf's total is its listing's length, the total equals the length of the list |
| BtreeAttr.StartLeaf | src/libxfuse/attr_bptree.rs:93-112 | the search starts at the leaf the root names; a root mapping error passes through, a missing hash becomes `ENOATTR`, other errors pass unchanged |
| BtreeAttr.ProbeAsWritten | src/libxfuse/attr_bptree.rs:116-129 | as written, a pass retries if and only if the leaf (asked at the first leaf's offset) misses, ends with the hash, and `forw` maps, even when `forw` is 0 |
| BtreeAttr.Probe | src/libxfuse/attr_bptree.rs:116-129 | corrected, a pass asks the leaf at its own offset and retries only when `forw` is not 0; the last leaf answers |
| BtreeAttr.RetryLoop | src/libxfuse/attr_bptree.rs:116-129 | the loop returns the answer the passes settle on |
| BtreeAttr.GetSizeAsWritten | src/libxfuse/attr_bptree.rs:91-130 | `get_size` as written returns the start error or the answer its passes settle on |
| BtreeAttr.GetSize | src/libxfuse/attr_bptree.rs:91-130 | corrected `get_size` returns the start error or the answer the corrected passes settle on |
| BtreeAttr.FirstProbeAgrees | src/libxfuse/attr_bptree.rs:112-125 | on the first leaf both versions agree unless it is the last leaf and its miss would be retried |
| BtreeAttr.Get | src/libxfuse/attr_bptree.rs:166-193 | `get` passes root and lookup errors through unchanged and otherwise asks the named leaf at its own offset |
| BtreeAttr.GetAndGetSizeDisagreeOnMiss | src/libxfuse/attr_bptree.rs:102-111 | for a hash the root does not know, `get` answers `ENOENT` while `get_size` answers `ENOATTR` |
| BtreeAttr.StaleOffsetRetry | src/libxfuse/attr_bptree.rs:119 | with two leaves, the as-written search answers from the second leaf asked at the first leaf's offset (10), the corrected one at its own (20) |
| BtreeAttr.LastLeafRereadsRoot | src/libxfuse/attr_bptree.rs:121-125 | a retried miss on the last leaf makes the source read the root node's block as a leaf; the corrected search answers `ENOATTR` |
| DinodeCore.FmtCode | src/libxfuse/dinode_core.rs:40-48 | every fork format's discriminant is at most 5 |
| DinodeCore.DecodeFmt | src/libxfuse/dinode_core.rs:50-55 | a format byte decodes if and only if it is at most 5, to the format with that discriminant; any other byte aborts |
| DinodeCore.FmtRoundTrip | src/libxfuse/dinode_core.rs:40-55 | every format survives encoding to its discriminant and decoding back |
| DinodeCore.FmtCodeInjective | src/libxfuse/dinode_core.rs:40-48 | distinct formats have distinct discriminants |
| DinodeCore.BitsAreDisjoint | src/libxfuse/dinode_core.rs:64-78 | each mask `1 << k` has exactly one bit, and masks of different bits share none |
| DinodeCore.DiflagsAreDistinctBits | src/libxfuse/dinode_core.rs:64-78 | the fifteen flags are bits 0 to 14 in order, each a single bit, no two overlapping |
| DinodeCore.ReadIdentity | src/libxfuse/dinode_core.rs:82-93 | the fields `di_magic` to `di_flushiter` occupy exactly 32 bytes |
| DinodeCore.ReadTimesAndCounts | src/libxfuse/dinode_core.rs:94-101 | the fields `di_atime` to `di_anextents` occupy exactly 50 bytes |
| DinodeCore.ReadForkAndFlags | src/libxfuse/dinode_core.rs:102-108 | the fields `di_forkoff` to `di_next_unlinked` occupy exactly 18 bytes |
| DinodeCore.ReadVersion3 | src/libxfuse/dinode_core.rs:110-118 | the version-3 fields `di_crc` to `di_uuid` occupy exactly 76 bytes |
| DinodeCore.ReadFields | src/libxfuse/dinode_core.rs:80-122 | the fields in declaration order end exactly at `SIZE` (0xb0); magic, flags, fork offset and both formats are read at bytes 0, 90, 82, 5 and 83 |
| DinodeCore.DecodeCore | src/libxfuse/dinode_core.rs:50-55 | decoding aborts if and only if a format byte that is reached names no format; it succeeds if and only if the input holds `SIZE` bytes with valid formats, consuming exactly `SIZE` |
| DinodeCore.Sanity | src/libxfuse/dinode_core.rs:124-127 | `sanity` returns if and only if the magic is the inode magic 0x494e |
| DinodeCore.AcceptedCore | src/libxfuse/dinode_core.rs:50-127 | a core decodes and passes `sanity` if and only if the input holds `SIZE` bytes, starts with "IN", and both format bytes are at most 5 |

## Left out

- `Dinode::from`, `DinodeCore::stat` and the `FileAttr` returned by `lookup`: `lookup` is modelled up to the inode number it finds.
- `Dir2Data::from`, `Dir3LeafHdr::from`, `Dir3LeafHdr::sanity` and the block-info sanity checks: the header fields are decoded, but the checks belong to code that is not part of this model.
- The contents of a leaf block's `bests` array are decoded but nothing uses them.
- Seeks, `read_exact` and their `unwrap`s: the image is a byte sequence, and a read that fits in it is a precondition.
- `Dir3Leaf.MakeCookie`: the cast of a cookie to `i64` and its shift/or are written as integer arithmetic on values that fit in 64 bits.
- `Dir3Leaf.ReaddirResumes`: proved for directories of at most 256 data blocks. A cookie keeps only 8 bits of the block index, and `CookieRoundTrip` states the wrap-around beyond that.
- `Dir3Leaf.ReaddirResumes`, `Dir3Leaf.ResumeAfter`, `Dir3Leaf.ScanAfter`: proved of the corrected reading only. As written, resuming after an entry whose `get_length` falls short lands inside that entry (see Findings).
- `Dir3.DecodeEntry`: the padding is the intended value `DecodePad`. That is the value the source's `i8` computation wraps to when overflow checks are off (`Dir3.PadWrappingAgrees`). With overflow checks on, name lengths 128 to 132 panic instead; `Dir3.PadAsWrittenOverflow` states where, and the decoder does not model that panic.
- `Dir3Leaf.Lookup`: the candidate addresses come from `CollisionAddress`, since no two-argument `get_address` exists in `dir3.rs`.
- `Dir3.GetAddress`: completeness (a miss means the hash is absent) is stated only for sorted entries, as XFS keeps them. The source requires a non-empty leaf, since it computes `len() - 1`.
- `NodeAttr.GetTotalSize`, `NodeAttr.List`, `BtreeAttr.GetTotalSize`, `BtreeAttr.List`: a `map_dblock` or `map_block` failure inside a chain walk is excluded by the chain precondition rather than modelled as a panic. A failure of the root mapping and an out-of-range total are modelled.
- `NodeAttr.GetTotalSize`, `NodeAttr.List`, `BtreeAttr.GetTotalSize`, `BtreeAttr.List`: the chain precondition is a finite chain ending at a `forw` of 0. On a cyclic `forw` chain the source's walks never end; that case is not modelled.
- `NodeAttr.MapDblock`, `NodeAttr.ReadLeaf`, `NodeAttr.Get` and the other node-fork walkers: the extent list is required to be sorted by fork offset and free of overlaps (`Coherent`, `Sorted`), as XFS keeps it. On an unsorted list `partition_point` gives an unspecified answer, which is not modelled.
- `NodeAttr.ListLengthIsTotal`, `BtreeAttr.ListLengthIsTotal`: assume each leaf's total is the length of its listing, a property of `AttrLeafblock`, which is not part of this model.
- `XfsDa3Intnode` (`lookup`, `first_block`), `AttrLeafblock` (`get_total_size`, `list`, `get_size`, `get`) and `hashname`: these are parameters of the environment, since their code is not part of this model.
- `BtreeAttr.Get`: the leaf is located at `block * blocksize` as the source writes it, without `fsb_to_offset`.
- `BtreeAttr.GetSize`, `BtreeAttr.GetSizeAsWritten`: termination of the retry loop is a ghost fuel bound given by the caller. A leaf chain that loops forever is not modelled.
- `DinodeCore.ReadFields`: the widths of the alias types (`XfsFsize`, `XfsRfsblock`, `XfsExtlen`, `XfsExtnum`, `XfsAextnum`, `Uuid`) and the inode magic follow the XFS on-disk inode format, since `definitions.rs` is not part of this model. Signed fields are read as two's complement.
- `File::read`: the block size comes from the global superblock, which here is a parameter. An offset past the end of the file panics in the source and is a precondition here.
- `FileRead.Read`, `FileRead.ReadAsWritten`: every `get_extent` answer is required to cover at least one block (`ExtentsAdvance`). An answer of 0 blocks makes the chunk empty, so the source's loop never advances and never ends; that case is not modelled.
- The `println!` diagnostics of `get_file_type` are output only and are left out.

## Findings

| source | as written | input that shows it | evidently intended | confidence | as-written member | corrected member |
|---|---|---|---|---|---|---|
| src/libxfuse/dir3.rs:132-149 | `get_length`, `get_length_from_reader` and `length` round namelen + 11 up to 8, leaving out the file-type byte | an entry with a 5-byte name: it occupies 24 bytes, the helpers say 16 | round namelen + 12 up to 8, the bytes the decoders consume | not executed | Dir3.GetLengthShortForFiveByteName | Dir3.GetEntSize |
| src/libxfuse/dir3_leaf.rs:179-180 | `next` steps over the entry it resumes after by `get_length` | a one-block directory whose only entry has a 5-byte name, resumed with that entry's cookie: the 16-byte step lands in the entry's zero padding, which is taken for an entry, and decoding the 8 bytes left panics | step over the entry's on-disk size, so the listing ends with `ENOENT` | not executed | Dir3Leaf.ResumeAfterFiveByteName | Dir3Leaf.ReaddirResumes |
| src/libxfuse/file.rs:67-84 | a hole chunk keeps its length rounded up to whole blocks; only a mapped chunk is cut back to `z` | a 5000-byte file on 4096-byte blocks with a hole as its second block, read at 4096: 4096 zeros instead of 904 | every chunk cut back to `z`, so a read returns exactly the clamped size | not executed | FileRead.TailHoleOverreads | FileRead.Read |
| src/libxfuse/dir3.rs:162 | the padding is `(4 - namelen as i8).rem_euclid(8)` in `i8` | name length 128: `namelen as i8` is -128 and 4 - (-128) overflows `i8` | the padding computed without overflow | not executed | Dir3.PadAsWrittenOverflow | Dir3.DecodePad |
| src/libxfuse/attr_bptree.rs:119 | on a retry the next leaf is asked for the size at `leaf_offset`, the first leaf's offset | two chained leaves at offsets 10 and 20, the name in the second: it is asked at 10 | each leaf asked at its own offset | not executed | BtreeAttr.StaleOffsetRetry | BtreeAttr.GetSize |
| src/libxfuse/attr_bptree.rs:121-125 | a miss whose hash continues past the leaf is retried along `forw` even when `forw` is 0 | a single leaf with `forw == 0` ending with the hash: fork block 0 (the root node) is read as a leaf | the last leaf ends the search with `ENOATTR` | not executed | BtreeAttr.LastLeafRereadsRoot | BtreeAttr.Probe |
