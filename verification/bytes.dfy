/** Fixed-width integers and big-endian field decoding.

Every on-disk XFS field is big-endian. The driver reads them with the byteorder
crate or with bincode's fixed-int big-endian configuration; both reduce to
`BE` below. Integers are unbounded in the model, so the fixed widths of the
source are subset types, and signed fields are reinterpreted explicitly.
 */
module Bytes {

  type u8 = x: int | 0 <= x < 0x100
  type u16 = x: int | 0 <= x < 0x1_0000
  type u32 = x: int | 0 <= x < 0x1_0000_0000
  type u64 = x: int | 0 <= x < 0x1_0000_0000_0000_0000
  type byte = u8

  function Pow256(w: nat): (r: nat)
    ensures r >= 1
  {
    if w == 0 then 1 else 256 * Pow256(w - 1)
  }

  /** The unsigned big-endian integer stored in `raw[off .. off + w]`. */
  function BE(raw: seq<byte>, off: nat, w: nat): (v: nat)
    requires off + w <= |raw|
    ensures v < Pow256(w)
    decreases w
  {
    if w == 0 then 0
    else
      var hi := BE(raw, off, w - 1);
      assert hi * 256 + raw[off + w - 1] < Pow256(w) by {
        assert hi <= Pow256(w - 1) - 1;
        assert hi * 256 <= Pow256(w - 1) * 256 - 256;
      }
      hi * 256 + raw[off + w - 1]
  }

  function BE16(raw: seq<byte>, off: nat): u16
    requires off + 2 <= |raw|
  {
    BE(raw, off, 2)
  }

  function BE32(raw: seq<byte>, off: nat): u32
    requires off + 4 <= |raw|
  {
    assert Pow256(4) == 0x1_0000_0000;
    BE(raw, off, 4)
  }

  function BE64(raw: seq<byte>, off: nat): u64
    requires off + 8 <= |raw|
  {
    assert Pow256(8) == 0x1_0000_0000_0000_0000;
    BE(raw, off, 8)
  }

  /** The ranges of the widths the driver decodes. */
  lemma Pow256Widths()
    ensures Pow256(1) == 0x100 && Pow256(2) == 0x1_0000
    ensures Pow256(4) == 0x1_0000_0000 && Pow256(8) == 0x1_0000_0000_0000_0000
  {
    assert Pow256(2) == 0x1_0000 by {
      assert Pow256(1) == 0x100;
    }
    assert Pow256(4) == 0x1_0000_0000 by {
      assert Pow256(3) == 0x100_0000;
    }
    assert Pow256(8) == 0x1_0000_0000_0000_0000 by {
      assert Pow256(6) == 0x1_0000_0000_0000;
    }
  }

  /** Two's-complement reinterpretation of a `bits`-wide unsigned value (Rust `as i8`, `as i32`). */
  function Signed(v: nat, bits: nat): (s: int)
    requires 1 <= bits
  {
    var half := Pow2(bits - 1);
    if v < half then v else v - 2 * half
  }

  function Pow2(n: nat): (r: nat)
    ensures r >= 1
  {
    if n == 0 then 1 else 2 * Pow2(n - 1)
  }

  /** Byte strings are joined associatively; the walkers that append one
      chunk at a time use it to keep "so far followed by the rest" intact. */
  lemma ConcatAssoc(a: seq<byte>, b: seq<byte>, c: seq<byte>)
    ensures a + (b + c) == (a + b) + c
  {
  }

  /** `n` zero bytes. */
  function Zeros(n: nat): (z: seq<byte>)
    ensures |z| == n && forall i :: 0 <= i < n ==> z[i] == 0
  {
    seq(n, _ => 0)
  }

  /** The `w` big-endian bytes that encode `v`. */
  function ToBE(v: nat, w: nat): (bytes: seq<byte>)
    requires v < Pow256(w)
    ensures |bytes| == w
    decreases w
  {
    if w == 0 then []
    else ToBE(v / 256, w - 1) + [v % 256]
  }

  /** A field read only depends on the bytes it covers. */
  lemma {:induction false} BEFrame(raw: seq<byte>, off: nat, raw': seq<byte>, off': nat, w: nat)
    requires off + w <= |raw| && off' + w <= |raw'|
    requires raw[off .. off + w] == raw'[off' .. off' + w]
    ensures BE(raw, off, w) == BE(raw', off', w)
    decreases w
  {
    if w > 0 {
      assert raw[off .. off + (w - 1)] == raw[off .. off + w][.. w - 1];
      assert raw'[off' .. off' + (w - 1)] == raw'[off' .. off' + w][.. w - 1];
      BEFrame(raw, off, raw', off', w - 1);
      assert raw[off + w - 1] == raw[off .. off + w][w - 1];
      assert raw'[off' + w - 1] == raw'[off' .. off' + w][w - 1];
    }
  }

  /** Decoding the encoding of `v` gives `v` back. */
  lemma {:induction false} BERoundTrip(v: nat, w: nat)
    requires v < Pow256(w)
    ensures BE(ToBE(v, w), 0, w) == v
    decreases w
  {
    if w > 0 {
      var bytes := ToBE(v, w);
      var hi := ToBE(v / 256, w - 1);
      assert v / 256 < Pow256(w - 1);
      assert bytes[.. w - 1] == hi;
      BERoundTrip(v / 256, w - 1);
      BEFrame(bytes, 0, hi, 0, w - 1);
      assert bytes[w - 1] == v % 256;
    }
  }

  /** The round trip holds for an encoding at the front of a byte sequence. */
  lemma BERoundTripPrefix(v: nat, w: nat, post: seq<byte>)
    requires v < Pow256(w)
    ensures BE(ToBE(v, w) + post, 0, w) == v
  {
    assert ToBE(v, w) + post == [] + ToBE(v, w) + post;
    BERoundTripAt([], v, w, post);
  }

  /** The round trip holds wherever the encoding sits inside a larger byte sequence. */
  lemma BERoundTripAt(pre: seq<byte>, v: nat, w: nat, post: seq<byte>)
    requires v < Pow256(w)
    ensures BE(pre + ToBE(v, w) + post, |pre|, w) == v
  {
    var raw := pre + ToBE(v, w) + post;
    assert raw[|pre| .. |pre| + w] == ToBE(v, w);
    assert ToBE(v, w)[0 .. w] == ToBE(v, w);
    BEFrame(raw, |pre|, ToBE(v, w), 0, w);
    BERoundTrip(v, w);
  }
}
