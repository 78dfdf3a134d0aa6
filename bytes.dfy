/** Byte-level vocabulary shared by the two codecs: Go's fixed-width integers,
    their wrap-around conversions, big-endian encoding (encoding/binary.BigEndian)
    and the make-then-copy idioms the codecs use to build and read buffers. */
module Bytes {

  type byte = b: int | 0 <= b < 256

  const TwoTo32: int := 0x1_0000_0000
  const TwoTo63: int := 0x8000_0000_0000_0000
  const TwoTo64: int := 0x1_0000_0000_0000_0000
  /** math.MaxInt64 */
  const MaxInt64: int := TwoTo63 - 1

  type uint32 = x: int | 0 <= x < TwoTo32
  type uint64 = x: int | 0 <= x < TwoTo64
  type int64 = x: int | -TwoTo63 <= x < TwoTo63

  /** Go's conversion of an integer to uint32: keep the low 32 bits. */
  function ToUint32(x: int): (r: uint32)
    ensures 0 <= x < TwoTo32 ==> r == x
  {
    x % TwoTo32
  }

  /** Go's conversion of an integer to uint64: keep the low 64 bits. */
  function ToUint64(x: int): (r: uint64)
    ensures 0 <= x < TwoTo64 ==> r == x
  {
    x % TwoTo64
  }

  /** Go's conversion of an integer to int64, and int64 arithmetic that
      overflows: two's-complement wrap-around. */
  function ToInt64(x: int): (r: int64)
    ensures -TwoTo63 <= x < TwoTo63 ==> r == x
  {
    var m := x % TwoTo64;
    if m < TwoTo63 then m else m - TwoTo64
  }

  function Min(a: int, b: int): int
  {
    if a <= b then a else b
  }

  function Pow256(n: nat): (p: nat)
    ensures p >= 1
  {
    if n == 0 then 1 else 256 * Pow256(n - 1)
  }

  /** The `width` low-order bytes of n, most significant first
      (BigEndian.PutUint32 for width 4, PutUint64 for width 8). */
  function BigEndian(n: nat, width: nat): (s: seq<byte>)
    ensures |s| == width
  {
    if width == 0 then [] else BigEndian(n / 256, width - 1) + [n % 256]
  }

  /** The number a big-endian byte string denotes
      (BigEndian.Uint32 for 4 bytes, Uint64 for 8 bytes). */
  function FromBigEndian(s: seq<byte>): (n: nat)
    ensures n < Pow256(|s|)
  {
    if s == [] then 0
    else
      var high := FromBigEndian(s[..|s| - 1]);
      assert high * 256 + s[|s| - 1] <= (Pow256(|s| - 1) - 1) * 256 + 255;
      high * 256 + s[|s| - 1]
  }

  lemma Pow256Widths()
    ensures Pow256(4) == TwoTo32 && Pow256(8) == TwoTo64
  {
  }

  /** Decoding what was encoded gives the number back, when it fits the width. */
  lemma {:induction false} FromBigEndianOfBigEndian(n: nat, width: nat)
    requires n < Pow256(width)
    ensures FromBigEndian(BigEndian(n, width)) == n
  {
    if width > 0 {
      var s := BigEndian(n, width);
      var high := n / 256;
      assert high < Pow256(width - 1) by {
        assert n < 256 * Pow256(width - 1);
      }
      assert s[..width - 1] == BigEndian(high, width - 1);
      FromBigEndianOfBigEndian(high, width - 1);
      assert s[width - 1] == n % 256;
      assert FromBigEndian(s) == high * 256 + n % 256;
    }
  }

  /** Encoding what was decoded gives the bytes back. */
  lemma {:induction false} BigEndianOfFromBigEndian(s: seq<byte>)
    ensures BigEndian(FromBigEndian(s), |s|) == s
  {
    if s != [] {
      var init, last := s[..|s| - 1], s[|s| - 1];
      var n := FromBigEndian(s);
      assert n == FromBigEndian(init) * 256 + last;
      assert n / 256 == FromBigEndian(init) && n % 256 == last;
      BigEndianOfFromBigEndian(init);
      assert s == init + [last];
    }
  }

  /** make([]byte, n) followed by copy from src: the first n bytes of src,
      padded with zero bytes when src is shorter. */
  function Fill(n: nat, src: seq<byte>): (r: seq<byte>)
    ensures |r| == n
    ensures forall i :: 0 <= i < n ==> r[i] == if i < |src| then src[i] else 0
  {
    if n <= |src| then src[..n] else src + seq(n - |src|, _ => 0)
  }

  /** copy(dst, src) into storage that already exists: the first
      min(|dst|, |src|) bytes of dst are overwritten, its length is kept. */
  function CopyOver(dst: seq<byte>, src: seq<byte>): (r: seq<byte>)
    ensures |r| == |dst|
    ensures forall i :: 0 <= i < |dst| ==> r[i] == if i < |src| then src[i] else dst[i]
  {
    if |dst| <= |src| then src[..|dst|] else src + dst[|src|..]
  }

  /** copy(dst, src) leaves exactly src in dst iff the two have the same length. */
  lemma CopyOverIsSource(dst: seq<byte>, src: seq<byte>)
    ensures CopyOver(dst, src) == src <==> |dst| == |src|
  {
    if |dst| == |src| {
      assert CopyOver(dst, src) == src[..|dst|] == src;
    }
  }

  /** binary.BigEndian.Uint32: the number held in the first 4 bytes. */
  function GetUint32(s: seq<byte>): uint32
    requires |s| >= 4
  {
    Pow256Widths();
    FromBigEndian(s[..4])
  }

  /** binary.BigEndian.Uint64: the number held in the first 8 bytes. */
  function GetUint64(s: seq<byte>): uint64
    requires |s| >= 8
  {
    Pow256Widths();
    FromBigEndian(s[..8])
  }

  /** Uint32 reads back what PutUint32 wrote. */
  lemma GetUint32OfBigEndian(s: seq<byte>, x: uint32)
    requires |s| >= 4 && s[..4] == BigEndian(x, 4)
    ensures GetUint32(s) == x
  {
    Pow256Widths();
    FromBigEndianOfBigEndian(x, 4);
  }

  /** Uint64 reads back what PutUint64 wrote. */
  lemma GetUint64OfBigEndian(s: seq<byte>, x: uint64)
    requires |s| >= 8 && s[..8] == BigEndian(x, 8)
    ensures GetUint64(s) == x
  {
    Pow256Widths();
    FromBigEndianOfBigEndian(x, 8);
  }

  lemma AppendAssoc(x: seq<byte>, y: seq<byte>, z: seq<byte>)
    ensures x + y + z == x + (y + z)
  {
  }

  /** n zero bytes: what make([]byte, n) holds. */
  function Zeros(n: nat): (z: seq<byte>)
    ensures |z| == n && forall i :: 0 <= i < n ==> z[i] == 0
  {
    seq(n, _ => 0)
  }

  /** make-then-copy keeps the first bytes of src and pads with zeros. */
  lemma FillIsPrefixAndZeros(n: nat, src: seq<byte>)
    ensures Fill(n, src) == src[..Min(n, |src|)] + Zeros(n - Min(n, |src|))
  {
  }

  /** Filling to the length src already has gives src. */
  lemma FillExact(src: seq<byte>)
    ensures Fill(|src|, src) == src
  {
  }

  /** A buffer that holds `done` followed by zeros, after src is written at a
      position at or past the end of `done`, holds done, zeros up to that
      position, src, and zeros again. */
  lemma WriteAfter(before: seq<byte>, after: seq<byte>, done: seq<byte>, at: nat, src: seq<byte>)
    requires |done| <= at && at + |src| <= |before| == |after|
    requires before == done + Zeros(|before| - |done|)
    requires forall i :: 0 <= i < |after| ==> after[i] == if at <= i < at + |src| then src[i - at] else before[i]
    ensures after == done + Zeros(at - |done|) + src + Zeros(|before| - at - |src|)
  {
    var expected := done + Zeros(at - |done|) + src + Zeros(|before| - at - |src|);
    forall i | 0 <= i < |after|
      ensures after[i] == expected[i]
    {
      if i < |done| {
        assert after[i] == before[i] == done[i];
      }
    }
  }

  /** Writing src into a Go byte slice from index `at` on (PutUint32, PutUint64
      and copy into a sub-slice): those bytes take src's values, all others
      keep theirs. */
  method CopyAt(buf: array<byte>, at: nat, src: seq<byte>)
    requires at + |src| <= buf.Length
    modifies buf
    ensures forall i :: 0 <= i < buf.Length ==> buf[i] == if at <= i < at + |src| then src[i - at] else old(buf[i])
  {
    forall i | 0 <= i < |src| {
      buf[at + i] := src[i];
    }
  }

  /** CopyAt on a buffer that holds `done` followed by zeros, writing at or past
      the end of `done`: the buffer then holds done, zeros up to `at`, src, and
      zeros again. */
  method CopyOntoZeros(buf: array<byte>, ghost done: seq<byte>, at: nat, src: seq<byte>)
    requires |done| <= at && at + |src| <= buf.Length
    requires buf[..] == done + Zeros(buf.Length - |done|)
    modifies buf
    ensures buf[..] == done + Zeros(at - |done|) + src + Zeros(buf.Length - at - |src|)
    ensures at == |done| ==> buf[..] == done + src + Zeros(buf.Length - at - |src|)
  {
    ghost var before := buf[..];
    CopyAt(buf, at, src);
    WriteAfter(before, buf[..], done, at, src);
    assert at == |done| ==> done + Zeros(at - |done|) == done;
  }

  /** CopyAt at the front of a buffer that holds |src| zeros followed by
      `rest`: the buffer then holds src followed by rest. */
  method CopyOntoFront(buf: array<byte>, src: seq<byte>, ghost rest: seq<byte>)
    requires buf[..] == Zeros(|src|) + rest
    modifies buf
    ensures buf[..] == src + rest
  {
    CopyAt(buf, 0, src);
    assert buf[..] == src + rest;
  }
}
