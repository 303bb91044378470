/** Directory data-block and leaf-block records of the XFS v5 ("dir3") format.

A directory data block starts with a 64-byte header and then holds a packed
run of variable-length records: a live entry (inode number, name length, name,
file type, padding, 2-byte tag) or an unused region (free tag 0xffff, length,
padding, 2-byte tag). Every record is a multiple of 8 bytes long and its tag,
in its last two bytes, is the record's offset inside the block. A leaf block
holds a header, an array of (hash, address) pairs sorted by hash, and, growing
back from the end of the block, a `bests` array and a 4-byte tail.
 */
module Dir3 {
  import opened Bytes
  import opened Wrappers
  import opened Arith

  // ---------------------------------------------------------------------------
  // File-type codes stored in the `ftype` byte of a directory entry.

  const XFS_DIR3_FT_UNKNOWN: u8 := 0
  const XFS_DIR3_FT_REG_FILE: u8 := 1
  const XFS_DIR3_FT_DIR: u8 := 2
  const XFS_DIR3_FT_CHRDEV: u8 := 3
  const XFS_DIR3_FT_BLKDEV: u8 := 4
  const XFS_DIR3_FT_FIFO: u8 := 5
  const XFS_DIR3_FT_SOCK: u8 := 6
  const XFS_DIR3_FT_SYMLINK: u8 := 7
  const XFS_DIR3_FT_WHT: u8 := 8

  // ---------------------------------------------------------------------------
  // Fixed-size headers.

  function Sum(ws: seq<nat>): nat
  {
    if |ws| == 0 then 0 else Sum(ws[..|ws| - 1]) + ws[|ws| - 1]
  }

  /** Widths of `Dir3BlkHdr`: magic, crc, blkno, lsn, uuid, owner. */
  const BLK_HDR_WIDTHS: seq<nat> := [4, 4, 8, 8, 16, 8]
  const BLK_HDR_SIZE: nat := 48
  /** Widths of `Dir2DataFree`: offset, length. */
  const DATA_FREE_WIDTHS: seq<nat> := [2, 2]
  const DATA_FREE_SIZE: nat := 4
  const DATA_FD_COUNT: nat := 3
  /** `Dir3DataHdr::SIZE`: block header, three best-free slots and a 4-byte pad. */
  const DATA_HDR_SIZE: nat := BLK_HDR_SIZE + DATA_FD_COUNT * DATA_FREE_SIZE + 4

  /** The declared header sizes are the sums of their field widths, and the
      data header (where the first record of a data block starts) is 64 bytes. */
  lemma DataHdrSize()
    ensures Sum(BLK_HDR_WIDTHS) == BLK_HDR_SIZE
    ensures Sum(DATA_FREE_WIDTHS) == DATA_FREE_SIZE
    ensures DATA_HDR_SIZE == Sum(BLK_HDR_WIDTHS) + DATA_FD_COUNT * Sum(DATA_FREE_WIDTHS) + 4 == 64
  {
    assert [4, 4, 8, 8, 16, 8][..5] == [4, 4, 8, 8, 16];
    assert [4, 4, 8, 8, 16][..4] == [4, 4, 8, 8];
    assert [4, 4, 8, 8][..3] == [4, 4, 8];
    assert [4, 4, 8][..2] == [4, 4];
    assert [4, 4][..1] == [4];
    assert Sum([4]) == 4;
    assert Sum([4, 4]) == 8;
    assert Sum([4, 4, 8]) == 16;
    assert Sum([4, 4, 8, 8]) == 24;
    assert Sum([4, 4, 8, 8, 16]) == 40;
    assert [2, 2][..1] == [2];
    assert Sum([2]) == 2;
  }

  // ---------------------------------------------------------------------------
  // Live directory entries.

  datatype DataEntry = DataEntry(inumber: u64, name: seq<byte>, ftype: u8, tag: u16)

  /** The entry length computed by `get_length`, `get_length_from_reader` and
      `length`: the name length plus 8 + 1 + 2 bytes, rounded up to 8. */
  function RawEntryLength(namelen: nat): (r: nat)
    ensures r % 8 == 0
    ensures namelen + 11 <= r < namelen + 19
  {
    (((namelen + 8 + 1 + 2) + 8 - 1) / 8) * 8
  }

  /** The on-disk size of an entry with a name of `namelen` bytes: inode number,
      name length, name, file type and tag, rounded up to a multiple of 8. */
  function EntSize(namelen: nat): (r: nat)
    ensures r % 8 == 0
    ensures namelen + 12 <= r < namelen + 20
  {
    ((namelen + 12 + 7) / 8) * 8
  }

  /** The padding the bincode `Decode` impl skips after the file type byte,
      computed without overflow: it brings the tag's end to a multiple of 8. */
  function DecodePad(namelen: u8): (pad: nat)
    ensures pad < 8
    ensures (namelen + 12 + pad) % 8 == 0
  {
    (4 - namelen) % 8
  }

  /** The padding completes the entry: fixed fields, name and padding make
      up exactly `EntSize` bytes. */
  lemma PadFillsEntry(namelen: u8)
    ensures 12 + namelen + DecodePad(namelen) == EntSize(namelen)
  {
    var a := 12 + namelen + DecodePad(namelen);
    var b := EntSize(namelen);
    if a < b {
      MultipleDiff(b, a, 8);
      ModStepAtLeast(b - a, 8);
    } else if b < a {
      MultipleDiff(a, b, 8);
      ModStepAtLeast(a - b, 8);
    }
  }

  /** The padding as the source computes it, `(4 - namelen as i8).rem_euclid(8)`
      in 8-bit signed arithmetic: `None` where the subtraction overflows `i8`
      (a panic in a build with overflow checks). */
  function PadAsWritten(namelen: u8): (pad: Option<nat>)
    ensures pad.Some? ==> pad.value < 8
  {
    var d := 4 - Signed(namelen, 8);
    if d > 127 then None else Some(d % 8)
  }

  /** Where the 8-bit computation does not overflow it agrees with `DecodePad`;
      it overflows exactly for name lengths 128 to 132. */
  lemma PadAsWrittenOverflow(namelen: u8)
    ensures PadAsWritten(namelen).Some? ==> PadAsWritten(namelen).value == DecodePad(namelen)
    ensures PadAsWritten(namelen).None? <==> 128 <= namelen <= 132
  {
    assert Pow2(7) == 128 by {
      assert Pow2(0) == 1;
    }
  }

  /** The same computation with the `i8` subtraction wrapping modulo 256, as
      in a build without overflow checks. */
  function PadWrapping(namelen: u8): (pad: nat)
    ensures pad < 8
  {
    var d := 4 - Signed(namelen, 8);
    (if d > 127 then d - 256 else d) % 8
  }

  /** Wrapping is harmless here: for every name length, the wrapped
      computation gives the intended padding. */
  lemma PadWrappingAgrees(namelen: u8)
    ensures PadWrapping(namelen) == DecodePad(namelen)
  {
    assert Pow2(7) == 128 by {
      assert Pow2(0) == 1;
    }
  }

  /** `Dir2DataEntry::decode`: inode number, name length, name, file type,
      `DecodePad` bytes of padding and the tag. */
  function DecodeEntry(raw: seq<byte>): (r: Decoded<DataEntry>)
    ensures r.Done? <==> |raw| >= 9 && EntSize(raw[8]) <= |raw|
    ensures r.Done? ==> |r.value.name| == raw[8] && r.consumed == EntSize(raw[8])
    ensures r.Done? ==> r.value.tag == BE16(raw, r.consumed - 2)
  {
    if |raw| < 9 then UnexpectedEnd
    else
      var n: nat := raw[8];
      var pad := DecodePad(n);
      if |raw| < 12 + n + pad then UnexpectedEnd
      else
        PadFillsEntry(n);
        Done(DataEntry(BE64(raw, 0), raw[9 .. 9 + n], raw[9 + n], BE16(raw, 10 + n + pad)), 12 + n + pad)
  }

  /** The bytes between the inode number and the tag: name length, name,
      file type and zero padding. */
  function EntryMiddle(e: DataEntry): (m: seq<byte>)
    requires |e.name| < 256
    ensures |m| == 2 + |e.name| + DecodePad(|e.name|)
    ensures m[0] == |e.name| && m[1 + |e.name|] == e.ftype
    ensures m[1 .. 1 + |e.name|] == e.name
  {
    [|e.name|] + e.name + [e.ftype] + Zeros(DecodePad(|e.name|))
  }

  /** The on-disk bytes of an entry, zero padding included. */
  function EncodeEntry(e: DataEntry): (bytes: seq<byte>)
    requires |e.name| < 256
    ensures |bytes| == EntSize(|e.name|)
  {
    PadFillsEntry(|e.name|);
    Pow256Widths();
    ToBE(e.inumber, 8) + EntryMiddle(e) + ToBE(e.tag, 2)
  }

  /** Decoding an encoded entry, whatever follows it in the block, gives the
      entry back and consumes exactly its encoding. */
  lemma EntryRoundTrip(e: DataEntry, rest: seq<byte>)
    requires |e.name| < 256
    ensures DecodeEntry(EncodeEntry(e) + rest) == Done(e, EntSize(|e.name|))
  {
    var n: nat := |e.name|;
    var pad := DecodePad(n);
    var raw := EncodeEntry(e) + rest;
    EntryFieldsRoundTrip(e, rest);
    assert |raw| >= 9 && raw[8] == n;
    var d := DecodeEntry(raw);
    assert d.value.inumber == e.inumber;
    assert d.value.name == e.name;
    assert d.value.ftype == e.ftype;
    assert d.value.tag == e.tag;
  }

  lemma EntryFieldsRoundTrip(e: DataEntry, rest: seq<byte>)
    requires |e.name| < 256
    ensures var raw := EncodeEntry(e) + rest;
      && |raw| >= EntSize(|e.name|) && raw[8] == |e.name|
      && BE64(raw, 0) == e.inumber
      && raw[9 .. 9 + |e.name|] == e.name
      && raw[9 + |e.name|] == e.ftype
      && BE16(raw, 10 + |e.name| + DecodePad(|e.name|)) == e.tag
  {
    EntryInumberRoundTrip(e, rest);
    EntryTagRoundTrip(e, rest);
    EntryNameRoundTrip(e, rest);
  }

  lemma EntryInumberRoundTrip(e: DataEntry, rest: seq<byte>)
    requires |e.name| < 256
    ensures BE64(EncodeEntry(e) + rest, 0) == e.inumber
  {
    var tail := EntryMiddle(e) + ToBE(e.tag, 2) + rest;
    assert EncodeEntry(e) + rest == ToBE(e.inumber, 8) + tail;
    Pow256Widths();
    BERoundTripPrefix(e.inumber, 8, tail);
  }

  lemma EntryTagRoundTrip(e: DataEntry, rest: seq<byte>)
    requires |e.name| < 256
    ensures BE16(EncodeEntry(e) + rest, 10 + |e.name| + DecodePad(|e.name|)) == e.tag
  {
    var pre := ToBE(e.inumber, 8) + EntryMiddle(e);
    assert EncodeEntry(e) + rest == pre + ToBE(e.tag, 2) + rest;
    Pow256Widths();
    BERoundTripAt(pre, e.tag, 2, rest);
  }

  lemma EntryNameRoundTrip(e: DataEntry, rest: seq<byte>)
    requires |e.name| < 256
    ensures var raw := EncodeEntry(e) + rest;
      raw[8] == |e.name| && raw[9 .. 9 + |e.name|] == e.name && raw[9 + |e.name|] == e.ftype
  {
    Pow256Widths();
    var ino := ToBE(e.inumber, 8);
    var mid := EntryMiddle(e);
    var post := ToBE(e.tag, 2) + rest;
    assert EncodeEntry(e) + rest == ino + (mid + post);
    MiddleAfterInumber(ino, mid, post, e.name, e.ftype);
  }

  /** The name length, name and file type sit right after the 8-byte inode number. */
  lemma MiddleAfterInumber(ino: seq<byte>, mid: seq<byte>, post: seq<byte>, name: seq<byte>, ftype: byte)
    requires |ino| == 8 && |mid| >= 2 + |name| && |name| < 256
    requires mid[0] == |name| && mid[1 .. 1 + |name|] == name && mid[1 + |name|] == ftype
    ensures var raw := ino + (mid + post);
      raw[8] == |name| && raw[9 .. 9 + |name|] == name && raw[9 + |name|] == ftype
  {
    var raw := ino + (mid + post);
    assert raw[9 .. 9 + |name|] == mid[1 .. 1 + |name|];
  }

  /** The padding `Dir2DataEntry::from` seeks over when the stream stands at
      absolute position `pos` right after the file type byte. */
  function StreamPad(pos: nat): (pad: nat)
    ensures pad < 8 && (pos + 2 + pad) % 8 == 0
  {
    (((pos + 2 + 8 - 1) / 8) * 8) - (pos + 2)
  }

  /** `Dir2DataEntry::from`: the same fields read from a seekable stream that
      starts at absolute image position `pos`; also returns the new position. */
  function EntryFromStream(img: seq<byte>, pos: nat): (r: (DataEntry, nat))
    requires pos + 9 <= |img|
    requires pos + 12 + img[pos + 8] + StreamPad(pos + 10 + img[pos + 8]) <= |img|
    ensures |r.0.name| == img[pos + 8]
    ensures r.1 == pos + 12 + img[pos + 8] + StreamPad(pos + 10 + img[pos + 8])
    ensures r.0.tag == BE16(img, r.1 - 2)
    ensures r.1 % 8 == 0
  {
    var n: nat := img[pos + 8];
    var pad := StreamPad(pos + 10 + n);
    (DataEntry(BE64(img, pos), img[pos + 9 .. pos + 9 + n], img[pos + 9 + n], BE16(img, pos + 10 + n + pad)),
     pos + 12 + n + pad)
  }

  /** At an 8-byte aligned position the stream decoder pads exactly like the
      bincode decoder, so both read the same entry and end at the same place. */
  lemma StreamPadAligned(img: seq<byte>, pos: nat)
    requires pos % 8 == 0
    requires pos + 9 <= |img|
    requires pos + EntSize(img[pos + 8]) <= |img|
    ensures StreamPad(pos + 10 + img[pos + 8]) == DecodePad(img[pos + 8])
    ensures pos + 12 + img[pos + 8] + StreamPad(pos + 10 + img[pos + 8]) <= |img|
    ensures DecodeEntry(img[pos..]) == Done(EntryFromStream(img, pos).0, EntryFromStream(img, pos).1 - pos)
  {
    var n: nat := img[pos + 8];
    AlignedPad(pos, n);
    PadFillsEntry(n);
    var raw := img[pos..];
    StreamFieldsAgree(img, pos, DecodePad(n));
    var d := DecodeEntry(raw);
    var s := EntryFromStream(img, pos);
    assert d.value == s.0;
  }

  /** The fields of an entry read in place agree with those read from the suffix. */
  lemma StreamFieldsAgree(img: seq<byte>, pos: nat, pad: nat)
    requires pos + 9 <= |img| && pos + 12 + img[pos + 8] + pad <= |img|
    ensures var raw := img[pos..]; var n: nat := img[pos + 8];
      && raw[8] == n
      && BE64(raw, 0) == BE64(img, pos)
      && raw[9 .. 9 + n] == img[pos + 9 .. pos + 9 + n]
      && raw[9 + n] == img[pos + 9 + n]
      && BE16(raw, 10 + n + pad) == BE16(img, pos + 10 + n + pad)
  {
    var n: nat := img[pos + 8];
    var raw := img[pos..];
    BEFrame(raw, 0, img, pos, 8);
    BEFrame(raw, 10 + n + pad, img, pos + 10 + n + pad, 2);
  }

  lemma AlignedPad(pos: nat, n: u8)
    requires pos % 8 == 0
    ensures StreamPad(pos + 10 + n) == DecodePad(n)
  {
    var p := StreamPad(pos + 10 + n);
    var q := DecodePad(n);
    assert (pos + n + 12 + p) % 8 == 0;
    assert (n + 12 + q) % 8 == 0;
    assert (p - q) % 8 == 0 by {
      assert (pos + n + 12 + p) - (n + 12 + q) == pos + (p - q);
    }
  }

  /** The three length helpers as the source writes them. */
  function GetLength(raw: seq<byte>): (r: nat)
    requires |raw| >= 9
    ensures r % 8 == 0 && raw[8] as int + 11 <= r < raw[8] as int + 19
  {
    RawEntryLength(raw[8])
  }

  function GetLengthFromReader(img: seq<byte>, pos: nat): (r: (nat, nat))
    requires pos + 9 <= |img|
    ensures r.1 == pos
    ensures r.0 == GetLength(img[pos..])
  {
    (RawEntryLength(img[pos + 8]), pos)
  }

  function Length(e: DataEntry): (r: nat)
    ensures r % 8 == 0 && |e.name| + 11 <= r < |e.name| + 19
  {
    RawEntryLength(|e.name|)
  }

  /** The length helpers agree with the bytes an entry really occupies exactly
      when the name length is not 5 modulo 8; for those names they are 8 short
      because they leave out the file type byte. */
  lemma RawLengthAgreesUnlessFive(namelen: nat)
    ensures RawEntryLength(namelen) == EntSize(namelen) <==> namelen % 8 != 5
    ensures namelen % 8 == 5 ==> RawEntryLength(namelen) + 8 == EntSize(namelen)
  {
  }

  /** A five-byte name: the decoded entry spans 24 bytes, `get_length` says 16. */
  lemma GetLengthShortForFiveByteName(raw: seq<byte>)
    requires |raw| >= 24 && raw[8] == 5
    ensures DecodeEntry(raw).Done? && DecodeEntry(raw).consumed == 24
    ensures GetLength(raw) == 16
  {
  }

  /** The corrected length helper: the size the entry starting at `raw` occupies. */
  function GetEntSize(raw: seq<byte>): (r: nat)
    requires |raw| >= 9
    ensures EntSize(raw[8]) <= |raw| ==> DecodeEntry(raw).Done? && r == DecodeEntry(raw).consumed
    ensures r % 8 == 0 && r >= 16
  {
    EntSize(raw[8])
  }

  // ---------------------------------------------------------------------------
  // Unused (free) regions.

  const XFS_DIR2_DATA_FREE_TAG: u16 := 0xffff

  datatype DataUnused = DataUnused(freetag: u16, length: u16, tag: u16)

  /** `Dir2DataUnused::from` over a stream at absolute position `pos`. The
      `length - 6` is a 16-bit subtraction, which panics for a length below
      6 (overflow checks on); the reads themselves are preconditions. */
  function UnusedFromStream(img: seq<byte>, pos: nat): (r: Outcome<(DataUnused, nat)>)
    requires pos + 4 <= |img|
    requires BE16(img, pos + 2) >= 6 ==> pos + BE16(img, pos + 2) <= |img|
    ensures r.Panics? <==> BE16(img, pos + 2) < 6
    ensures r.Returns? ==> r.result.0.freetag == BE16(img, pos) && r.result.0.length == BE16(img, pos + 2)
    ensures r.Returns? ==> r.result.1 == pos + r.result.0.length
    ensures r.Returns? ==> r.result.0.tag == BE16(img, r.result.1 - 2)
  {
    var freetag := BE16(img, pos);
    var length := BE16(img, pos + 2);
    if length < 6 then Panics
    else
      var tagPos := pos + 4 + (length - 6);
      Returns((DataUnused(freetag, length, BE16(img, tagPos)), tagPos + 2))
  }

  /** `From<&[u8]> for Dir2DataUnused`: the free tag and length from the
      front, the tag at `length - 2`. It panics when the slice is too short
      for the first two fields, when the 16-bit `length - 2` underflows, or
      when the tag lies past the end; a length from 2 to 5 is accepted. */
  function UnusedFromSlice(raw: seq<byte>): (r: Outcome<DataUnused>)
    ensures r.Returns? <==> |raw| >= 4 && 2 <= BE16(raw, 2) <= |raw|
    ensures r.Returns? ==> r.result.freetag == BE16(raw, 0) && r.result.length == BE16(raw, 2)
    ensures r.Returns? ==> r.result.tag == BE16(raw, r.result.length - 2)
  {
    if |raw| < 4 then Panics
    else
      var length := BE16(raw, 2);
      if length < 2 || |raw| < length then Panics
      else Returns(DataUnused(BE16(raw, 0), length, BE16(raw, length - 2)))
  }

  /** The bincode `Decode` impl: reads the free tag and length, skips
      `length - 6` bytes and reads the tag, consuming `length` bytes in all.
      The `length as usize - 6` panics for a length below 6 (overflow checks
      on); input that ends early is a decode error. */
  function DecodeUnused(raw: seq<byte>): (r: Outcome<Decoded<DataUnused>>)
    ensures r.Panics? <==> |raw| >= 4 && BE16(raw, 2) < 6
    ensures r.Returns? && r.result.Done? <==> |raw| >= 4 && 6 <= BE16(raw, 2) <= |raw|
    ensures r.Returns? && r.result.Done? ==>
              && r.result.consumed == r.result.value.length == BE16(raw, 2)
              && r.result.value.freetag == BE16(raw, 0)
              && r.result.value.tag == BE16(raw, r.result.consumed - 2)
  {
    if |raw| < 4 then Returns(UnexpectedEnd)
    else
      var length := BE16(raw, 2);
      if length < 6 then Panics
      else
        var skip := length - 6;
        if |raw| < 4 + skip + 2 then Returns(UnexpectedEnd)
        else Returns(Done(DataUnused(BE16(raw, 0), length, BE16(raw, 4 + skip)), 4 + skip + 2))
  }

  /** The three unused-region decoders read the same record: the stream and
      bincode decoders panic on the same lengths, and on a length of at least
      6 all three return the same region, the stream and bincode decoders
      ending at the same place. */
  lemma UnusedDecodersAgree(img: seq<byte>, pos: nat)
    requires pos + 4 <= |img|
    requires BE16(img, pos + 2) >= 6 ==> pos + BE16(img, pos + 2) <= |img|
    ensures BE16(img[pos..], 2) == BE16(img, pos + 2)
    ensures UnusedFromStream(img, pos).Panics? <==> DecodeUnused(img[pos..]).Panics?
    ensures UnusedFromStream(img, pos).Returns? ==>
              && UnusedFromSlice(img[pos..]) == Returns(UnusedFromStream(img, pos).result.0)
              && DecodeUnused(img[pos..]) == Returns(Done(UnusedFromStream(img, pos).result.0, UnusedFromStream(img, pos).result.1 - pos))
  {
    var raw := img[pos..];
    BEFrame(raw, 0, img, pos, 2);
    BEFrame(raw, 2, img, pos + 2, 2);
    var length := BE16(img, pos + 2);
    if length >= 6 {
      BEFrame(raw, length - 2, img, pos + length - 2, 2);
    }
  }

  // ---------------------------------------------------------------------------
  // Leaf blocks.

  /** `XfsDa3Blkinfo`, the header every dir/attr B+tree block starts with. */
  datatype Blkinfo = Blkinfo(forw: u32, back: u32, magic: u16, pad: u16, crc: u32,
                             blkno: u64, lsn: u64, uuid: seq<byte>, owner: u64)

  datatype LeafHdr = LeafHdr(info: Blkinfo, count: u16, stale: u16, pad: u32)

  datatype LeafEntry = LeafEntry(hashval: u32, address: u32)

  /** `Dir2LeafDisk`; `bestcount` is the block's tail. */
  datatype LeafDisk = LeafDisk(hdr: LeafHdr, ents: seq<LeafEntry>, bests: seq<u16>, bestcount: u32)

  const BLKINFO_SIZE: nat := 56
  const LEAF_HDR_SIZE: nat := 64
  const LEAF_ENTRY_SIZE: nat := 8
  const LEAF_TAIL_SIZE: nat := 4

  function DecodeBlkinfo(raw: seq<byte>): Blkinfo
    requires |raw| >= BLKINFO_SIZE
  {
    Blkinfo(BE32(raw, 0), BE32(raw, 4), BE16(raw, 8), BE16(raw, 10), BE32(raw, 12),
            BE64(raw, 16), BE64(raw, 24), raw[32 .. 48], BE64(raw, 48))
  }

  function DecodeLeafHdr(raw: seq<byte>): (r: Decoded<LeafHdr>)
    ensures r.Done? <==> |raw| >= LEAF_HDR_SIZE
    ensures r.Done? ==> r.consumed == LEAF_HDR_SIZE && r.value.count == BE16(raw, 56)
  {
    if |raw| < LEAF_HDR_SIZE then UnexpectedEnd
    else Done(LeafHdr(DecodeBlkinfo(raw), BE16(raw, 56), BE16(raw, 58), BE32(raw, 60)), LEAF_HDR_SIZE)
  }

  function LeafEntryAt(raw: seq<byte>, off: nat): LeafEntry
    requires off + LEAF_ENTRY_SIZE <= |raw|
  {
    LeafEntry(BE32(raw, off), BE32(raw, off + 4))
  }

  /** What `Dir2LeafDisk::from` needs of a leaf block so that none of its
      `unwrap`s and none of its size subtractions fail: room for the header,
      the `count` entries after it, and the tail and `bests` before the end. */
  predicate LeafBlockFits(raw: seq<byte>)
  {
    && |raw| >= LEAF_HDR_SIZE
    && LEAF_HDR_SIZE + LEAF_ENTRY_SIZE * BE16(raw, 56) <= |raw|
    && LEAF_TAIL_SIZE + 2 * BE32(raw, |raw| - LEAF_TAIL_SIZE) <= |raw|
  }

  /** The `count` hash entries that follow the leaf header. */
  function LeafEntries(raw: seq<byte>, count: nat): (ents: seq<LeafEntry>)
    requires LEAF_HDR_SIZE + LEAF_ENTRY_SIZE * count <= |raw|
    ensures |ents| == count
    ensures forall i :: 0 <= i < count ==> ents[i] == LeafEntryAt(raw, LEAF_HDR_SIZE + LEAF_ENTRY_SIZE * i)
  {
    seq(count, i requires 0 <= i < count => LeafEntryAt(raw, LEAF_HDR_SIZE + LEAF_ENTRY_SIZE * i))
  }

  /** `count` 16-bit values stored from `start` on. */
  function U16Array(raw: seq<byte>, start: nat, count: nat): (a: seq<u16>)
    requires start + 2 * count <= |raw|
    ensures |a| == count
    ensures forall i :: 0 <= i < count ==> a[i] == BE16(raw, start + 2 * i)
  {
    seq(count, i requires 0 <= i < count => BE16(raw, start + 2 * i))
  }

  /** `Dir2LeafDisk::from` on the `size` bytes of a leaf block: the header and
      `count` entries from the front; the tail from the last 4 bytes; and
      `bestcount` 16-bit bests from the bytes just before the tail. A block
      too short for the header or the entries makes a decode unwrap panic,
      and one too short for the bests makes `size - 4 - 2 * bestcount`
      underflow. */
  function ParseLeafBlock(raw: seq<byte>): (r: Outcome<LeafDisk>)
    ensures r.Returns? <==> LeafBlockFits(raw)
    ensures r.Returns? ==> |r.result.ents| == r.result.hdr.count == BE16(raw, 56)
    ensures r.Returns? ==> forall i :: 0 <= i < |r.result.ents| ==>
              r.result.ents[i] == LeafEntryAt(raw, LEAF_HDR_SIZE + LEAF_ENTRY_SIZE * i)
    ensures r.Returns? ==> r.result.bestcount == BE32(raw, |raw| - LEAF_TAIL_SIZE)
    ensures r.Returns? ==> |r.result.bests| == r.result.bestcount
    ensures r.Returns? ==> forall i :: 0 <= i < |r.result.bests| ==>
              r.result.bests[i] == BE16(raw, |raw| - LEAF_TAIL_SIZE - 2 * r.result.bestcount + 2 * i)
  {
    match DecodeLeafHdr(raw)
    case UnexpectedEnd => Panics
    case Done(hdr, _) =>
      if |raw| < LEAF_HDR_SIZE + LEAF_ENTRY_SIZE * hdr.count then Panics
      else
        var bestcount := BE32(raw, |raw| - LEAF_TAIL_SIZE);
        if |raw| < LEAF_TAIL_SIZE + 2 * bestcount then Panics
        else
          Returns(LeafDisk(hdr, LeafEntries(raw, hdr.count),
                           U16Array(raw, |raw| - LEAF_TAIL_SIZE - 2 * bestcount, bestcount), bestcount))
  }

  /** `Dir2LeafNDisk`, the leaf of a node-format directory: header and entries only. */
  datatype LeafNDisk = LeafNDisk(hdr: LeafHdr, ents: seq<LeafEntry>)

  /** `Dir2LeafNDisk::decode`: the header, then `count` entries. */
  function DecodeLeafN(raw: seq<byte>): (r: Decoded<LeafNDisk>)
    ensures r.Done? <==> |raw| >= LEAF_HDR_SIZE && LEAF_HDR_SIZE + LEAF_ENTRY_SIZE * BE16(raw, 56) <= |raw|
    ensures r.Done? ==> |r.value.ents| == r.value.hdr.count && r.consumed == LEAF_HDR_SIZE + LEAF_ENTRY_SIZE * |r.value.ents|
  {
    match DecodeLeafHdr(raw)
    case UnexpectedEnd => UnexpectedEnd
    case Done(hdr, n) =>
      if |raw| < LEAF_HDR_SIZE + LEAF_ENTRY_SIZE * hdr.count then UnexpectedEnd
      else
        Done(LeafNDisk(hdr, LeafEntries(raw, hdr.count)), LEAF_HDR_SIZE + LEAF_ENTRY_SIZE * hdr.count)
  }

  /** On a block both can read, the node-leaf decoder and the leaf-block parser
      agree on the header and the hash entries. */
  lemma LeafDecodersAgree(raw: seq<byte>)
    requires LeafBlockFits(raw)
    ensures DecodeLeafN(raw).Done? && ParseLeafBlock(raw).Returns?
    ensures DecodeLeafN(raw).value.hdr == ParseLeafBlock(raw).result.hdr
    ensures DecodeLeafN(raw).value.ents == ParseLeafBlock(raw).result.ents
  {
  }

  // ---------------------------------------------------------------------------
  // Hash search over the leaf entries.

  ghost predicate SortedByHash(ents: seq<LeafEntry>)
  {
    forall i, j :: 0 <= i < j < |ents| ==> ents[i].hashval <= ents[j].hashval
  }

  /** Binary search of `Dir2LeafDisk::get_address` (the `Dir2LeafNDisk` copy is
      the same code). The source takes `len() - 1` of the entry vector, so the
      vector must not be empty. The search only finds what it is asked for;
      finding every present hash relies on the entries being sorted. */
  method GetAddress(ents: seq<LeafEntry>, hash: u32) returns (r: Result<u32>)
    requires |ents| > 0
    ensures r.Ok? ==> exists i :: 0 <= i < |ents| && ents[i].hashval == hash && ents[i].address == r.value
    ensures r.Err? ==> r.errno == ENOENT
    ensures r.Err? && SortedByHash(ents) ==> forall i :: 0 <= i < |ents| ==> ents[i].hashval != hash
  {
    var low: int := 0;
    var high: int := |ents| - 1;
    while low <= high
      invariant 0 <= low <= |ents|
      invariant -1 <= high < |ents|
      invariant SortedByHash(ents) ==> forall i :: 0 <= i < low ==> ents[i].hashval < hash
      invariant SortedByHash(ents) ==> forall i :: high < i < |ents| ==> ents[i].hashval > hash
      decreases high - low
    {
      var mid := low + (high - low) / 2;
      var entry := ents[mid];
      if entry.hashval > hash {
        high := mid - 1;
      } else if entry.hashval < hash {
        low := mid + 1;
      } else {
        return Ok(entry.address);
      }
    }
    return Err(ENOENT);
  }

  /** `Dir2LeafNDisk::get_address`. */
  method GetAddressN(leaf: LeafNDisk, hash: u32) returns (r: Result<u32>)
    requires |leaf.ents| > 0
    ensures r.Ok? ==> exists i :: 0 <= i < |leaf.ents| && leaf.ents[i].hashval == hash && leaf.ents[i].address == r.value
    ensures r.Err? ==> r.errno == ENOENT
    ensures r.Err? && SortedByHash(leaf.ents) ==> forall i :: 0 <= i < |leaf.ents| ==> leaf.ents[i].hashval != hash
  {
    r := GetAddress(leaf.ents, hash);
  }

  /** The entries whose hash is `hash`, in leaf order. */
  function Matches(ents: seq<LeafEntry>, hash: u32): (m: seq<LeafEntry>)
    ensures |m| <= |ents|
  {
    if |ents| == 0 then []
    else
      var rest := Matches(ents[1..], hash);
      if ents[0].hashval == hash then [ents[0]] + rest else rest
  }

  /** `Matches` keeps exactly the entries carrying the hash. */
  lemma {:induction false} MatchesMembers(ents: seq<LeafEntry>, hash: u32)
    ensures forall e :: e in Matches(ents, hash) <==> e in ents && e.hashval == hash
    decreases |ents|
  {
    if |ents| > 0 {
      MatchesMembers(ents[1..], hash);
      assert forall e :: e in ents <==> e == ents[0] || e in ents[1..];
    }
  }

  /** The collision-aware lookup the leaf directory calls as
      `get_address(hash, k)`: the address of the `k`-th entry carrying `hash`,
      and `ENOENT` once `k` runs past them. */
  function CollisionAddress(ents: seq<LeafEntry>, hash: u32, k: nat): (r: Result<u32>)
    ensures r.Err? ==> r.errno == ENOENT
  {
    var m := Matches(ents, hash);
    if k < |m| then Ok(m[k].address) else Err(ENOENT)
  }

  /** In a sorted leaf the entries that collide on a hash sit side by side:
      they are exactly the slice between the first entry whose hash is not
      smaller and the first whose hash is larger. */
  lemma {:induction false} MatchesContiguous(ents: seq<LeafEntry>, hash: u32, lo: nat, hi: nat)
    requires SortedByHash(ents)
    requires lo <= hi <= |ents|
    requires forall i :: 0 <= i < lo ==> ents[i].hashval < hash
    requires forall i :: lo <= i < hi ==> ents[i].hashval == hash
    requires forall i :: hi <= i < |ents| ==> ents[i].hashval > hash
    ensures Matches(ents, hash) == ents[lo .. hi]
    decreases |ents|
  {
    if |ents| > 0 {
      var tail := ents[1..];
      assert SortedByHash(tail) by {
        forall i, j | 0 <= i < j < |tail| ensures tail[i].hashval <= tail[j].hashval {
          assert tail[i] == ents[i + 1] && tail[j] == ents[j + 1];
        }
      }
      if lo > 0 {
        MatchesContiguous(tail, hash, lo - 1, hi - 1);
        assert ents[lo .. hi] == tail[lo - 1 .. hi - 1];
      } else if hi > 0 {
        MatchesContiguous(tail, hash, 0, hi - 1);
        assert ents[0 .. hi] == [ents[0]] + tail[0 .. hi - 1];
      } else {
        MatchesContiguous(tail, hash, 0, 0);
      }
    }
  }

  /** On a sorted leaf the plain search and the collision-aware lookup agree on
      whether the hash is present, and the first collision slot is a match. */
  lemma CollisionAddressFirst(ents: seq<LeafEntry>, hash: u32)
    requires SortedByHash(ents)
    ensures CollisionAddress(ents, hash, 0).Ok? <==> exists i :: 0 <= i < |ents| && ents[i].hashval == hash
    ensures CollisionAddress(ents, hash, 0).Ok? ==>
              exists i :: 0 <= i < |ents| && ents[i].hashval == hash && ents[i].address == CollisionAddress(ents, hash, 0).value
  {
    var m := Matches(ents, hash);
    MatchesMembers(ents, hash);
    if exists i :: 0 <= i < |ents| && ents[i].hashval == hash {
      var i :| 0 <= i < |ents| && ents[i].hashval == hash;
      assert ents[i] in m;
    }
    if |m| > 0 {
      assert m[0] in m;
    }
  }
}
