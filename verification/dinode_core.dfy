/** The version 3 inode core (`DinodeCore`): the fixed 0xb0-byte record at the
front of every on-disk inode, its fork-format tags and its flag masks.

The core is decoded field by field in declaration order, big-endian, with no
padding between fields.
 */
module DinodeCore {
  import opened Bytes
  import opened Wrappers

  /** The format of a fork (`XfsDinodeFmt`), in discriminant order. */
  datatype Fmt = Dev | Local | Extents | Btree | Uuid | Rmap

  /** The discriminant of a format. */
  function FmtCode(f: Fmt): (b: u8)
    ensures b <= 5
  {
    match f
    case Dev => 0
    case Local => 1
    case Extents => 2
    case Btree => 3
    case Uuid => 4
    case Rmap => 5
  }

  /** Decoding a format byte: a byte without a variant aborts with
      "Unknown dinode fmt". */
  function DecodeFmt(b: u8): (r: Outcome<Fmt>)
    ensures r.Returns? <==> b <= 5
    ensures r.Returns? ==> FmtCode(r.result) == b
  {
    if b == 0 then Returns(Dev)
    else if b == 1 then Returns(Local)
    else if b == 2 then Returns(Extents)
    else if b == 3 then Returns(Btree)
    else if b == 4 then Returns(Uuid)
    else if b == 5 then Returns(Rmap)
    else Panics
  }

  /** Every format survives encoding to its discriminant and decoding back. */
  lemma FmtRoundTrip(f: Fmt)
    ensures DecodeFmt(FmtCode(f)) == Returns(f)
  {
  }

  /** Distinct formats have distinct discriminants. */
  lemma FmtCodeInjective(f: Fmt, g: Fmt)
    requires FmtCode(f) == FmtCode(g)
    ensures f == g
  {
    FmtRoundTrip(f);
    FmtRoundTrip(g);
  }

  /** The mask `1 << k` of a 16-bit flags word. */
  function Bit(k: nat): bv16
    requires k < 16
  {
    (1 as bv16) << k
  }

  const XFS_DIFLAG_REALTIME: bv16 := Bit(0)
  const XFS_DIFLAG_PREALLOC: bv16 := Bit(1)
  const XFS_DIFLAG_NEWRTBM: bv16 := Bit(2)
  const XFS_DIFLAG_IMMUTABLE: bv16 := Bit(3)
  const XFS_DIFLAG_APPEND: bv16 := Bit(4)
  const XFS_DIFLAG_SYNC: bv16 := Bit(5)
  const XFS_DIFLAG_NOATIME: bv16 := Bit(6)
  const XFS_DIFLAG_NODUMP: bv16 := Bit(7)
  const XFS_DIFLAG_RTINHERIT: bv16 := Bit(8)
  const XFS_DIFLAG_PROJINHERIT: bv16 := Bit(9)
  const XFS_DIFLAG_NOSYMLINKS: bv16 := Bit(10)
  const XFS_DIFLAG_EXTSIZE: bv16 := Bit(11)
  const XFS_DIFLAG_EXTSZINHERIT: bv16 := Bit(12)
  const XFS_DIFLAG_NODEFRAG: bv16 := Bit(13)
  const XFS_DIFLAG_FILESTREAMS: bv16 := Bit(14)

  /** The flag masks in declaration order. */
  const DIFLAGS: seq<bv16> := [
    XFS_DIFLAG_REALTIME, XFS_DIFLAG_PREALLOC, XFS_DIFLAG_NEWRTBM,
    XFS_DIFLAG_IMMUTABLE, XFS_DIFLAG_APPEND, XFS_DIFLAG_SYNC,
    XFS_DIFLAG_NOATIME, XFS_DIFLAG_NODUMP, XFS_DIFLAG_RTINHERIT,
    XFS_DIFLAG_PROJINHERIT, XFS_DIFLAG_NOSYMLINKS, XFS_DIFLAG_EXTSIZE,
    XFS_DIFLAG_EXTSZINHERIT, XFS_DIFLAG_NODEFRAG, XFS_DIFLAG_FILESTREAMS]

  /** A mask with exactly one bit set. */
  predicate SingleBit(m: bv16)
  {
    m != 0 && m & (m - 1) == 0
  }

  /** Every bit mask is a single bit, and masks of different bits share none. */
  lemma BitsAreDisjoint(i: nat, j: nat)
    requires i < 16 && j < 16
    ensures SingleBit(Bit(i))
    ensures i != j ==> Bit(i) & Bit(j) == 0
  {
  }

  /** The fifteen flag masks are bits 0 to 14 in declaration order, so each
      is a single bit and no two of them overlap. */
  lemma DiflagsAreDistinctBits()
    ensures |DIFLAGS| == 15
    ensures forall i :: 0 <= i < |DIFLAGS| ==> DIFLAGS[i] == Bit(i) && SingleBit(DIFLAGS[i])
    ensures forall i, j :: 0 <= i < j < |DIFLAGS| ==> DIFLAGS[i] & DIFLAGS[j] == 0
  {
    assert forall i :: 0 <= i < |DIFLAGS| ==> DIFLAGS[i] == Bit(i) by {
      forall i | 0 <= i < |DIFLAGS|
        ensures DIFLAGS[i] == Bit(i)
      {
        if i < 8 {
          assert i == 0 || i == 1 || i == 2 || i == 3 || i == 4 || i == 5 || i == 6 || i == 7;
        } else {
          assert i == 8 || i == 9 || i == 10 || i == 11 || i == 12 || i == 13 || i == 14;
        }
      }
    }
    forall i, j | 0 <= i < j < |DIFLAGS|
      ensures SingleBit(DIFLAGS[i]) && DIFLAGS[i] & DIFLAGS[j] == 0
    {
      BitsAreDisjoint(i, j);
    }
    forall i | 0 <= i < |DIFLAGS|
      ensures SingleBit(DIFLAGS[i])
    {
      BitsAreDisjoint(i, i);
    }
  }

  /** `DinodeCore::SIZE`, for inode version 3. */
  const CORE_SIZE: nat := 0xb0

  /** An on-disk timestamp: signed seconds and unsigned nanoseconds. */
  datatype Timestamp = Timestamp(sec: int, nsec: u32)

  /** The decoded inode core. Signed fields hold their two's-complement
      value; the widths of the type aliases follow the XFS on-disk inode
      (`XfsFsize` is `i64`, `XfsRfsblock` is `u64`, `XfsExtlen` is `u32`,
      `XfsExtnum` is `i32`, `XfsAextnum` is `i16`), and a UUID is 16 bytes. */
  datatype Core = Core(
    magic: u16, mode: u16, version: int, format: Fmt, onlink: u16,
    uid: u32, gid: u32, nlink: u32, projid: u16, projidHi: u16,
    pad: seq<byte>, flushiter: u16, atime: Timestamp, mtime: Timestamp, ctime: Timestamp,
    size: int, nblocks: u64, extsize: u32, nextents: int, anextents: int,
    forkoff: u8, aformat: Fmt, dmevmask: u32, dmstate: u16, flags: u16,
    gen: u32, nextUnlinked: u32, crc: u32, changecount: u64, lsn: u64,
    flags2: u64, cowextsize: u32, pad2: seq<byte>, crtime: Timestamp, ino: u64,
    uuid: seq<byte>)

  /** The timestamp at byte `at`: seconds, then nanoseconds. */
  function ReadTimestamp(raw: seq<byte>, at: nat): Timestamp
    requires at + 8 <= |raw|
  {
    Pow256Widths();
    Timestamp(Signed(BE(raw, at, 4), 32), BE(raw, at + 4, 4))
  }

  /** The identity, ownership and link-count fields, `di_magic` to `di_flushiter`, read one after another from
      byte `at`: the reads end 32 bytes later. */
  function ReadIdentity(raw: seq<byte>, at: nat): (r: ((u16, u16, int, Fmt, u16, u32, u32, u32, u16, u16, seq<byte>, u16), nat))
    requires at + 32 <= |raw| && raw[at + 5] <= 5
    ensures r.1 == at + 32
  {
    var magic := BE16(raw, at);
    var at1 := at + 2;
    var mode := BE16(raw, at1);
    var at2 := at1 + 2;
    var version := Signed(BE(raw, at2, 1), 8);
    var at3 := at2 + 1;
    var format := DecodeFmt(raw[at3]).result;
    var at4 := at3 + 1;
    var onlink := BE16(raw, at4);
    var at5 := at4 + 2;
    var uid := BE32(raw, at5);
    var at6 := at5 + 4;
    var gid := BE32(raw, at6);
    var at7 := at6 + 4;
    var nlink := BE32(raw, at7);
    var at8 := at7 + 4;
    var projid := BE16(raw, at8);
    var at9 := at8 + 2;
    var projidHi := BE16(raw, at9);
    var at10 := at9 + 2;
    var pad := raw[at10 .. at10 + 6];
    var at11 := at10 + 6;
    var flushiter := BE16(raw, at11);
    var at12 := at11 + 2;
    ((magic, mode, version, format, onlink, uid, gid, nlink, projid, projidHi, pad, flushiter), at12)
  }

  /** The timestamps, size and extent counts, `di_atime` to `di_anextents`, read one after another from
      byte `at`: the reads end 50 bytes later. */
  function ReadTimesAndCounts(raw: seq<byte>, at: nat): (r: ((Timestamp, Timestamp, Timestamp, int, u64, u32, int, int), nat))
    requires at + 50 <= |raw|
    ensures r.1 == at + 50
  {
    var atime := ReadTimestamp(raw, at);
    var at1 := at + 8;
    var mtime := ReadTimestamp(raw, at1);
    var at2 := at1 + 8;
    var ctime := ReadTimestamp(raw, at2);
    var at3 := at2 + 8;
    var size := Signed(BE(raw, at3, 8), 64);
    var at4 := at3 + 8;
    var nblocks := BE64(raw, at4);
    var at5 := at4 + 8;
    var extsize := BE32(raw, at5);
    var at6 := at5 + 4;
    var nextents := Signed(BE(raw, at6, 4), 32);
    var at7 := at6 + 4;
    var anextents := Signed(BE(raw, at7, 2), 16);
    var at8 := at7 + 2;
    ((atime, mtime, ctime, size, nblocks, extsize, nextents, anextents), at8)
  }

  /** The attribute fork, DMAPI state, flags and generation, `di_forkoff` to `di_next_unlinked`, read one after another from
      byte `at`: the reads end 18 bytes later. */
  function ReadForkAndFlags(raw: seq<byte>, at: nat): (r: ((u8, Fmt, u32, u16, u16, u32, u32), nat))
    requires at + 18 <= |raw| && raw[at + 1] <= 5
    ensures r.1 == at + 18
  {
    var forkoff := raw[at];
    var at1 := at + 1;
    var aformat := DecodeFmt(raw[at1]).result;
    var at2 := at1 + 1;
    var dmevmask := BE32(raw, at2);
    var at3 := at2 + 4;
    var dmstate := BE16(raw, at3);
    var at4 := at3 + 2;
    var flags := BE16(raw, at4);
    var at5 := at4 + 2;
    var gen := BE32(raw, at5);
    var at6 := at5 + 4;
    var nextUnlinked := BE32(raw, at6);
    var at7 := at6 + 4;
    ((forkoff, aformat, dmevmask, dmstate, flags, gen, nextUnlinked), at7)
  }

  /** The fields only version 3 inodes carry, `di_crc` to `di_uuid`, read one after another from
      byte `at`: the reads end 76 bytes later. */
  function ReadVersion3(raw: seq<byte>, at: nat): (r: ((u32, u64, u64, u64, u32, seq<byte>, Timestamp, u64, seq<byte>), nat))
    requires at + 76 <= |raw|
    ensures r.1 == at + 76
  {
    var crc := BE32(raw, at);
    var at1 := at + 4;
    var changecount := BE64(raw, at1);
    var at2 := at1 + 8;
    var lsn := BE64(raw, at2);
    var at3 := at2 + 8;
    var flags2 := BE64(raw, at3);
    var at4 := at3 + 8;
    var cowextsize := BE32(raw, at4);
    var at5 := at4 + 4;
    var pad2 := raw[at5 .. at5 + 12];
    var at6 := at5 + 12;
    var crtime := ReadTimestamp(raw, at6);
    var at7 := at6 + 8;
    var ino := BE64(raw, at7);
    var at8 := at7 + 8;
    var uuid := raw[at8 .. at8 + 16];
    var at9 := at8 + 16;
    ((crc, changecount, lsn, flags2, cowextsize, pad2, crtime, ino, uuid), at9)
  }

  /** The fields of the core read one after another in declaration order,
      each group right after the previous one: the reads end at byte `SIZE`,
      and the format bytes and the attribute-fork offset are bytes 5, 83 and 82. */
  function ReadFields(raw: seq<byte>): (r: (Core, nat))
    requires |raw| >= CORE_SIZE && raw[5] <= 5 && raw[83] <= 5
    ensures r.1 == CORE_SIZE
    ensures r.0.magic == BE16(raw, 0) && r.0.flags == BE16(raw, 90)
    ensures r.0.format == DecodeFmt(raw[5]).result && r.0.aformat == DecodeFmt(raw[83]).result
    ensures r.0.forkoff == raw[82]
  {
    var (a, at1) := ReadIdentity(raw, 0);
    var (b, at2) := ReadTimesAndCounts(raw, at1);
    var (c, at3) := ReadForkAndFlags(raw, at2);
    var (d, at4) := ReadVersion3(raw, at3);
    (Core(
      a.0, a.1, a.2, a.3, a.4, a.5, a.6, a.7, a.8, a.9, a.10, a.11,
      b.0, b.1, b.2, b.3, b.4, b.5, b.6, b.7,
      c.0, c.1, c.2, c.3, c.4, c.5, c.6,
      d.0, d.1, d.2, d.3, d.4, d.5, d.6, d.7, d.8),
     at4)
  }

  /** Decoding the core from the front of `raw`, as the fixed-width
      big-endian decoder reads it: a format byte without a variant aborts as
      soon as it is read, and input that ends before the last field is a
      decode error. Exactly `SIZE` bytes are consumed. */
  function DecodeCore(raw: seq<byte>): (r: Outcome<Decoded<Core>>)
    ensures r.Panics? <==> (|raw| > 5 && raw[5] > 5) || (|raw| > 83 && raw[5] <= 5 && raw[83] > 5)
    ensures (r.Returns? && r.result.Done?) <==> |raw| >= CORE_SIZE && raw[5] <= 5 && raw[83] <= 5
    ensures r.Returns? && r.result.Done? ==>
      && r.result.consumed == CORE_SIZE
      && r.result.value.magic == BE16(raw, 0)
      && r.result.value.format == DecodeFmt(raw[5]).result
      && r.result.value.forkoff == raw[82]
      && r.result.value.aformat == DecodeFmt(raw[83]).result
  {
    if |raw| <= 5 then Returns(UnexpectedEnd)
    else if raw[5] > 5 then Panics
    else if |raw| <= 83 then Returns(UnexpectedEnd)
    else if raw[83] > 5 then Panics
    else if |raw| < CORE_SIZE then Returns(UnexpectedEnd)
    else
      var (core, end) := ReadFields(raw);
      Returns(Done(core, end))
  }

  /** `XFS_DINODE_MAGIC`, "IN". */
  const XFS_DINODE_MAGIC: u16 := 0x494e

  /** `sanity`: aborts unless the magic number is the inode magic. */
  function Sanity(c: Core): (r: Outcome<()>)
    ensures r.Returns? <==> c.magic == XFS_DINODE_MAGIC
  {
    if c.magic == XFS_DINODE_MAGIC then Returns(()) else Panics
  }

  /** A core decodes and passes `sanity` exactly when the input holds a
      whole core, starts with the bytes "IN", and both fork-format bytes name
      a format. */
  lemma AcceptedCore(raw: seq<byte>)
    ensures (DecodeCore(raw).Returns? && DecodeCore(raw).result.Done? && Sanity(DecodeCore(raw).result.value).Returns?)
        <==> |raw| >= CORE_SIZE && raw[0] == 0x49 && raw[1] == 0x4e && raw[5] <= 5 && raw[83] <= 5
  {
    if |raw| >= CORE_SIZE {
      assert BE16(raw, 0) == raw[0] as int * 256 + raw[1] as int;
    }
  }
}
