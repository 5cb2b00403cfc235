/**
 * Byte marshalling used by every on-disk structure: the 4-byte `int` and
 * 2-byte `short` encodings of the system library (int2bytes/bytes2int,
 * short2bytes/bytes2short), Java's fixed-width integer wrap-around, and
 * splicing a byte range into a buffer (System.arraycopy).
 *
 * The library's own source is not part of this model. Only the widths and
 * the round trip are relied upon; the byte order chosen here is big-endian
 * two's complement.
 */
module Bytes {

  /** A byte as its unsigned bit pattern. */
  type byte = x: int | 0 <= x < 256

  /** Java `short` and `int` value ranges. */
  type int16 = x: int | -0x8000 <= x < 0x8000
  type int32 = x: int | -0x8000_0000 <= x < 0x8000_0000

  function Pow256(n: nat): (r: nat)
    ensures r >= 1
  {
    if n == 0 then 1 else 256 * Pow256(n - 1)
  }

  lemma Pow256Values()
    ensures Pow256(2) == 0x1_0000
    ensures Pow256(4) == 0x1_0000_0000
  {
  }

  /** Java's narrowing to `short`: keep the low 16 bits, read them signed. */
  function Wrap16(x: int): (r: int16)
    ensures -0x8000 <= x < 0x8000 ==> r == x
    ensures (r - x) % 0x1_0000 == 0
  {
    var u := x % 0x1_0000;
    if u >= 0x8000 then u - 0x1_0000 else u
  }

  /** Java's 32-bit `int` arithmetic wrap-around. */
  function Wrap32(x: int): (r: int32)
    ensures -0x8000_0000 <= x < 0x8000_0000 ==> r == x
    ensures (r - x) % 0x1_0000_0000 == 0
  {
    var u := x % 0x1_0000_0000;
    if u >= 0x8000_0000 then u - 0x1_0000_0000 else u
  }

  /** Unsigned big-endian encoding of `u` in exactly `n` bytes. */
  function ToBE(u: nat, n: nat): (r: seq<byte>)
    requires u < Pow256(n)
    ensures |r| == n
  {
    if n == 0 then [] else ToBE(u / 256, n - 1) + [u % 256]
  }

  /** Unsigned big-endian decoding. */
  function FromBE(s: seq<byte>): (u: nat)
    ensures u < Pow256(|s|)
  {
    if |s| == 0 then 0 else FromBE(s[..|s| - 1]) * 256 + s[|s| - 1]
  }

  lemma {:induction false} FromToBE(u: nat, n: nat)
    requires u < Pow256(n)
    ensures FromBE(ToBE(u, n)) == u
  {
    if n > 0 {
      var s := ToBE(u, n);
      assert s[..|s| - 1] == ToBE(u / 256, n - 1);
      FromToBE(u / 256, n - 1);
    }
  }

  lemma {:induction false} ToFromBE(s: seq<byte>)
    ensures ToBE(FromBE(s), |s|) == s
  {
    if |s| > 0 {
      var t := s[..|s| - 1];
      ToFromBE(t);
      var u := FromBE(s);
      assert u / 256 == FromBE(t) && u % 256 == s[|s| - 1];
      assert s == t + [s[|s| - 1]];
    }
  }

  /** SysLib.int2bytes: a Java `int` as 4 bytes. */
  function IntToBytes(v: int32): (r: seq<byte>)
    ensures |r| == 4
  {
    Pow256Values();
    ToBE(if v < 0 then v + 0x1_0000_0000 else v, 4)
  }

  /** SysLib.bytes2int: 4 bytes read back as a Java `int`. */
  function BytesToInt(s: seq<byte>): (v: int32)
    requires |s| == 4
  {
    Pow256Values();
    var u := FromBE(s);
    if u >= 0x8000_0000 then u - 0x1_0000_0000 else u
  }

  /** SysLib.short2bytes: a Java `short` as 2 bytes. */
  function ShortToBytes(v: int16): (r: seq<byte>)
    ensures |r| == 2
  {
    Pow256Values();
    ToBE(if v < 0 then v + 0x1_0000 else v, 2)
  }

  /** SysLib.bytes2short: 2 bytes read back as a Java `short`. */
  function BytesToShort(s: seq<byte>): (v: int16)
    requires |s| == 2
  {
    Pow256Values();
    var u := FromBE(s);
    if u >= 0x8000 then u - 0x1_0000 else u
  }

  lemma IntRoundTrip(v: int32)
    ensures BytesToInt(IntToBytes(v)) == v
  {
    Pow256Values();
    FromToBE(if v < 0 then v + 0x1_0000_0000 else v, 4);
  }

  lemma IntBytesRoundTrip(s: seq<byte>)
    requires |s| == 4
    ensures IntToBytes(BytesToInt(s)) == s
  {
    Pow256Values();
    ToFromBE(s);
  }

  lemma ShortRoundTrip(v: int16)
    ensures BytesToShort(ShortToBytes(v)) == v
  {
    Pow256Values();
    FromToBE(if v < 0 then v + 0x1_0000 else v, 2);
  }

  lemma ShortBytesRoundTrip(s: seq<byte>)
    requires |s| == 2
    ensures ShortToBytes(BytesToShort(s)) == s
  {
    Pow256Values();
    ToFromBE(s);
  }

  /** The short -1 is stored as two 0xFF bytes. */
  lemma MinusOneShort()
    ensures ShortToBytes(-1) == [255, 255]
    ensures BytesToShort([255, 255]) == -1
  {
    Pow256Values();
    assert ToBE(0xFFFF, 2) == ToBE(0xFF, 1) + [255];
    assert ToBE(0xFF, 1) == ToBE(0, 0) + [255];
    ShortRoundTrip(-1);
  }

  /** System.arraycopy of all of `t` into `s` at `off`. */
  function Splice(s: seq<byte>, off: nat, t: seq<byte>): (r: seq<byte>)
    requires off + |t| <= |s|
    ensures |r| == |s|
    ensures r[off..off + |t|] == t
    ensures forall k {:trigger r[k]} :: 0 <= k < |s| && !(off <= k < off + |t|) ==> r[k] == s[k]
    ensures forall k {:trigger r[k]} :: off <= k < off + |t| ==> r[k] == t[k - off]
  {
    s[..off] + t + s[off + |t|..]
  }

  function IntAt(s: seq<byte>, off: nat): int32
    requires off + 4 <= |s|
  {
    BytesToInt(s[off..off + 4])
  }

  function ShortAt(s: seq<byte>, off: nat): int16
    requires off + 2 <= |s|
  {
    BytesToShort(s[off..off + 2])
  }

  function PutInt(s: seq<byte>, off: nat, v: int32): (r: seq<byte>)
    requires off + 4 <= |s|
    ensures |r| == |s|
    ensures IntAt(r, off) == v
    ensures forall k {:trigger r[k]} :: 0 <= k < |s| && !(off <= k < off + 4) ==> r[k] == s[k]
  {
    IntRoundTrip(v);
    Splice(s, off, IntToBytes(v))
  }

  function PutShort(s: seq<byte>, off: nat, v: int16): (r: seq<byte>)
    requires off + 2 <= |s|
    ensures |r| == |s|
    ensures ShortAt(r, off) == v
    ensures forall k {:trigger r[k]} :: 0 <= k < |s| && !(off <= k < off + 2) ==> r[k] == s[k]
  {
    ShortRoundTrip(v);
    Splice(s, off, ShortToBytes(v))
  }

  /** A value read at `off` depends only on the bytes at `off`. */
  lemma IntAtFrame(s: seq<byte>, s': seq<byte>, off: nat)
    requires off + 4 <= |s| && off + 4 <= |s'|
    requires forall k :: off <= k < off + 4 ==> s[k] == s'[k]
    ensures IntAt(s, off) == IntAt(s', off)
  {
    assert s[off..off + 4] == s'[off..off + 4];
  }

  lemma ShortAtFrame(s: seq<byte>, s': seq<byte>, off: nat)
    requires off + 2 <= |s| && off + 2 <= |s'|
    requires forall k :: off <= k < off + 2 ==> s[k] == s'[k]
    ensures ShortAt(s, off) == ShortAt(s', off)
  {
    assert s[off..off + 2] == s'[off..off + 2];
  }

  function Min(a: int, b: int): int
  {
    if a < b then a else b
  }

  function Max(a: int, b: int): int
  {
    if a < b then b else a
  }
}
