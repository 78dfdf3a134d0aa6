/** The record codec of entry.go. A record on disk is a 16-byte header (crc 4
    bytes, keySize 4 bytes, valueSize 8 bytes, all big-endian) followed by the
    key and the value; the crc is CRC-32 (IEEE) of every byte after it. */
module Entries {
  import opened Bytes
  import opened Errors
  import opened Crc32

  const CrcLen: nat := 4
  const KeySizeLen: nat := 4
  const ValueSizeLen: nat := 8
  const MetaLen: nat := CrcLen + KeySizeLen + ValueSizeLen

  /** The bound on valueSize documented on the Entry struct:
      math.MaxUint64 - 4 - 4 - 8 - math.MaxUint32. */
  const ValueSizeBound: int := (TwoTo64 - 1) - 4 - 4 - 8 - (TwoTo32 - 1)

  /** The fields of an Entry, as a value. */
  datatype Record = Record(crc: uint32, keySize: uint32, valueSize: uint64, key: seq<byte>, value: seq<byte>)
  {
    /** Entry.Size: header plus key plus value, in uint64 arithmetic. */
    function Size(): (n: uint64)
      ensures keySize + valueSize + MetaLen < TwoTo64 ==> n == MetaLen + keySize + valueSize
    {
      ToUint64(keySize + valueSize + MetaLen)
    }
  }

  /** The entry NewEntry builds: no crc yet, the lengths converted to the
      widths of the size fields. */
  function NewRecord(key: seq<byte>, value: seq<byte>): (r: Record)
    ensures r.key == key && r.value == value && r.crc == 0
    ensures |key| < TwoTo32 ==> r.keySize == |key|
    ensures |value| < TwoTo64 ==> r.valueSize == |value|
  {
    Record(0, ToUint32(|key|), ToUint64(|value|), key, value)
  }

  /** What Encode needs to run without a panic: valueSize within the documented
      bound, and the uint32 sum metaLen + keySize not wrapping. */
  predicate Encodable(r: Record)
  {
    r.valueSize < ValueSizeBound && MetaLen + r.keySize < TwoTo32
  }

  /** Every byte after the checksum: the two sizes, then keySize bytes of key
      and valueSize bytes of value, each cut or zero padded to its size. */
  function Payload(r: Record): (p: seq<byte>)
    ensures |p| == KeySizeLen + ValueSizeLen + r.keySize + r.valueSize
  {
    BigEndian(r.keySize, KeySizeLen) + BigEndian(r.valueSize, ValueSizeLen)
      + Fill(r.keySize, r.key) + Fill(r.valueSize, r.value)
  }

  /** The bytes Encode produces for an entry. */
  function Encoding(r: Record): (s: seq<byte>)
    ensures |s| == MetaLen + r.keySize + r.valueSize
  {
    BigEndian(ChecksumIEEE(Payload(r)), CrcLen) + Payload(r)
  }

  /** Decode: read the header, then copy keySize bytes of key and up to
      valueSize bytes of value out of the buffer. A buffer shorter than the
      header, or one whose key runs past its end, makes the source panic;
      metaLen + keySize is computed in uint32 and panics too when it wraps.
      The Go runtime's allocation limit on make([]byte, valueSize), and
      running out of memory, are not modelled. */
  function Decode(data: seq<byte>): (r: Result<Record>)
    ensures r.Ok? <==> |data| >= MetaLen && MetaLen + GetUint32(data[CrcLen..]) <= Min(|data|, TwoTo32 - 1)
    ensures r.Err? ==> r.error == ErrPanic
    ensures r.Ok? ==> |r.value.key| == r.value.keySize && |r.value.value| == r.value.valueSize
  {
    if |data| < MetaLen then Err(ErrPanic)
    else
      var keySize := GetUint32(data[CrcLen..]);
      var keyEnd := ToUint32(MetaLen + keySize);
      if keyEnd < MetaLen || |data| < keyEnd then Err(ErrPanic)
      else
        var valueSize := GetUint64(data[CrcLen + KeySizeLen..]);
        Ok(Record(GetUint32(data), keySize, valueSize,
                  Fill(keySize, data[MetaLen..keyEnd]), Fill(valueSize, data[keyEnd..])))
  }

  /** What DecodeMeta leaves in an entry: the header fields read from data,
      key and value untouched. */
  function DecodedMeta(r: Record, data: seq<byte>): (m: Record)
    requires |data| >= MetaLen
    ensures m.key == r.key && m.value == r.value
  {
    r.(crc := GetUint32(data),
       keySize := GetUint32(data[CrcLen..]),
       valueSize := GetUint64(data[CrcLen + KeySizeLen..]))
  }

  /** What DecodeKV leaves in an entry: keySize bytes of key and valueSize
      bytes of value copied out of data, the header fields untouched. */
  function DecodedKV(r: Record, data: seq<byte>): (m: Record)
    requires r.keySize <= |data|
    ensures m.crc == r.crc && m.keySize == r.keySize && m.valueSize == r.valueSize
    ensures |m.key| == r.keySize && |m.value| == r.valueSize
  {
    r.(key := data[..r.keySize], value := Fill(r.valueSize, data[r.keySize..]))
  }

  /** The encoded layout: the crc of everything after it, keySize, valueSize,
      the key, the value. */
  lemma EncodingLayout(r: Record)
    ensures var s := Encoding(r);
      && s[..CrcLen] == BigEndian(ChecksumIEEE(s[CrcLen..]), CrcLen)
      && s[CrcLen..MetaLen - ValueSizeLen] == BigEndian(r.keySize, KeySizeLen)
      && s[MetaLen - ValueSizeLen..MetaLen] == BigEndian(r.valueSize, ValueSizeLen)
      && s[MetaLen..MetaLen + r.keySize] == Fill(r.keySize, r.key)
      && s[MetaLen + r.keySize..] == Fill(r.valueSize, r.value)
      && s[CrcLen..] == Payload(r)
  {
    var s := Encoding(r);
    var a, b := BigEndian(r.keySize, KeySizeLen), BigEndian(r.valueSize, ValueSizeLen);
    var k, v := Fill(r.keySize, r.key), Fill(r.valueSize, r.value);
    var c := BigEndian(ChecksumIEEE(Payload(r)), CrcLen);
    assert s == c + a + b + k + v;
    assert s[CrcLen..] == Payload(r);
  }

  /** The entry as Decode gives it back after Encode: the crc Encode
      computed, the sizes, and key and value cut or padded to their sizes. */
  function Stored(r: Record): (d: Record)
    ensures d.keySize == r.keySize && d.valueSize == r.valueSize
    ensures |d.key| == r.keySize && |d.value| == r.valueSize
  {
    Record(ChecksumIEEE(Payload(r)), r.keySize, r.valueSize, Fill(r.keySize, r.key), Fill(r.valueSize, r.value))
  }

  /** Decoding an encoding gives back the sizes, the key and value as written
      (cut or padded to their sizes) and the crc Encode computed. */
  lemma DecodeEncoding(r: Record)
    requires Encodable(r)
    ensures Decode(Encoding(r)) == Ok(Stored(r))
  {
    var s := Encoding(r);
    EncodingLayout(r);
    GetUint32OfBigEndian(s, ChecksumIEEE(Payload(r)));
    assert s[CrcLen..][..4] == s[CrcLen..MetaLen - ValueSizeLen];
    GetUint32OfBigEndian(s[CrcLen..], r.keySize);
    assert s[CrcLen + KeySizeLen..][..8] == s[MetaLen - ValueSizeLen..MetaLen];
    GetUint64OfBigEndian(s[CrcLen + KeySizeLen..], r.valueSize);
    FillExact(Fill(r.keySize, r.key));
    FillExact(Fill(r.valueSize, r.value));
  }

  /** The header Encode writes reads back as the crc it computed and the two
      sizes. */
  lemma EncodedHeader(r: Record, base: Record)
    ensures DecodedMeta(base, Encoding(r)[..MetaLen])
         == base.(crc := ChecksumIEEE(Payload(r)), keySize := r.keySize, valueSize := r.valueSize)
  {
    var s := Encoding(r);
    var meta := s[..MetaLen];
    EncodingLayout(r);
    assert meta[..4] == s[..CrcLen];
    GetUint32OfBigEndian(meta, ChecksumIEEE(Payload(r)));
    assert meta[CrcLen..][..4] == s[CrcLen..MetaLen - ValueSizeLen];
    GetUint32OfBigEndian(meta[CrcLen..], r.keySize);
    assert meta[CrcLen + KeySizeLen..][..8] == s[MetaLen - ValueSizeLen..MetaLen];
    GetUint64OfBigEndian(meta[CrcLen + KeySizeLen..], r.valueSize);
  }

  /** The body Encode writes, read by DecodeKV into an entry holding the
      header Encode wrote, gives the stored entry. */
  lemma EncodedBody(r: Record, m: Record)
    requires m.crc == ChecksumIEEE(Payload(r)) && m.keySize == r.keySize && m.valueSize == r.valueSize
    requires m.keySize <= |Encoding(r)[MetaLen..]|
    ensures DecodedKV(m, Encoding(r)[MetaLen..]) == Stored(r)
  {
    var s := Encoding(r);
    EncodingLayout(r);
    assert s[MetaLen..][..r.keySize] == s[MetaLen..MetaLen + r.keySize];
    assert s[MetaLen..][r.keySize..] == s[MetaLen + r.keySize..];
    FillExact(Fill(r.valueSize, r.value));
  }

  /** The round trip of the source's codec test: encoding a fresh entry and
      decoding it gives the key, the value, their lengths and the crc back. */
  lemma NewEntryRoundTrip(key: seq<byte>, value: seq<byte>)
    requires MetaLen + |key| < TwoTo32 && |value| < ValueSizeBound
    ensures var r := NewRecord(key, value);
      Decode(Encoding(r)) == Ok(Record(ChecksumIEEE(Payload(r)), |key|, |value|, key, value))
  {
    var r := NewRecord(key, value);
    DecodeEncoding(r);
    assert Fill(r.keySize, key) == key;
    assert Fill(r.valueSize, value) == value;
  }

  /** DecodeMeta on the header followed by DecodeKV on the rest, as the data
      file reader does, agrees with Decode on the whole buffer. The only buffers
      where the two differ are those whose uint32 sum metaLen + keySize wraps:
      Decode panics on them. */
  lemma SplitDecode(data: seq<byte>, r: Record)
    requires |data| >= MetaLen
    ensures var m := DecodedMeta(r, data[..MetaLen]);
      && (Decode(data).Ok? ==> m.keySize <= |data| - MetaLen && Decode(data).value == DecodedKV(m, data[MetaLen..]))
      && (m.keySize <= |data| - MetaLen && Decode(data).Err? ==> MetaLen + m.keySize >= TwoTo32)
  {
    var m := DecodedMeta(r, data[..MetaLen]);
    assert data[..MetaLen][CrcLen..][..4] == data[CrcLen..][..4];
    assert data[..MetaLen][CrcLen + KeySizeLen..][..8] == data[CrcLen + KeySizeLen..][..8];
    assert data[..MetaLen][..4] == data[..4];
    if Decode(data).Ok? {
      var keyEnd := MetaLen + m.keySize;
      assert data[MetaLen..][..m.keySize] == data[MetaLen..keyEnd];
      assert data[MetaLen..][m.keySize..] == data[keyEnd..];
    }
  }

  /** Decode copies the stored crc and never checks it against the payload:
      any four bytes in its place decode the same way, with that crc. */
  lemma DecodeIgnoresChecksum(data: seq<byte>, crc: seq<byte>)
    requires |data| >= CrcLen && |crc| == CrcLen
    ensures var forged := crc + data[CrcLen..];
      && (Decode(forged).Ok? <==> Decode(data).Ok?)
      && (Decode(data).Ok? ==> Decode(forged) == Ok(Decode(data).value.(crc := GetUint32(crc))))
  {
    var forged := crc + data[CrcLen..];
    assert forged[CrcLen..] == data[CrcLen..];
    assert forged[..4] == crc == crc[..4];
    if |data| >= MetaLen {
      assert forged[CrcLen + KeySizeLen..] == data[CrcLen + KeySizeLen..];
      var keyEnd := ToUint32(MetaLen + GetUint32(data[CrcLen..]));
      if MetaLen <= keyEnd <= |data| {
        assert forged[MetaLen..keyEnd] == data[MetaLen..keyEnd];
        assert forged[keyEnd..] == data[keyEnd..];
      }
    }
  }

  /** The mutable Entry of the source. Encode assigns crc; DecodeMeta and
      DecodeKV overwrite fields of the receiver. */
  class Entry {
    var crc: uint32
    var keySize: uint32
    var valueSize: uint64
    var key: seq<byte>
    var value: seq<byte>

    function View(): Record
      reads this
    {
      Record(crc, keySize, valueSize, key, value)
    }

    /** &Entry{}: every field zero. */
    constructor Empty()
      ensures View() == Record(0, 0, 0, [], [])
    {
      crc, keySize, valueSize, key, value := 0, 0, 0, [], [];
    }

    /** NewEntry. */
    constructor (key: seq<byte>, value: seq<byte>)
      ensures View() == NewRecord(key, value)
    {
      crc := 0;
      keySize := ToUint32(|key|);
      valueSize := ToUint64(|value|);
      this.key := key;
      this.value := value;
    }

    /** Encode: fill a zeroed buffer of Size() bytes with the sizes, the key
      and the value, then compute the crc over everything after the crc field,
      store it in the entry and write it in front. */
    method Encode() returns (n: uint64, buf: array<byte>)
      requires Encodable(View())
      modifies this`crc
      ensures fresh(buf) && n == buf.Length == old(View()).Size()
      ensures buf[..] == Encoding(old(View()))
      ensures View() == old(View()).(crc := ChecksumIEEE(buf[CrcLen..]))
    {
      ghost var r := View();
      var size := View().Size();
      assert size == MetaLen + keySize + valueSize;
      buf := new byte[size](_ => 0);
      assert buf[..] == [] + Zeros(size);
      var sizes := BigEndian(keySize, KeySizeLen);
      CopyOntoZeros(buf, [], CrcLen, sizes);
      ghost var done := Zeros(CrcLen) + sizes;
      assert [] + Zeros(CrcLen) + sizes == done;
      CopyOntoZeros(buf, done, CrcLen + KeySizeLen, BigEndian(valueSize, ValueSizeLen));
      done := done + BigEndian(valueSize, ValueSizeLen);
      var keyPart := key[..Min(keySize, |key|)];
      CopyOntoZeros(buf, done, MetaLen, keyPart);
      done := done + keyPart;
      var valuePart := value[..Min(valueSize, |value|)];
      CopyOntoZeros(buf, done, MetaLen + keySize, valuePart);
      assert MetaLen + keySize - |done| == keySize - |keyPart|;
      assert size - (MetaLen + keySize) - |valuePart| == valueSize - |valuePart|;
      BufferAfterCopies(r, buf[..]);
      assert buf[CrcLen..] == Payload(r);
      crc := ChecksumIEEE(buf[CrcLen..]);
      CopyOntoFront(buf, BigEndian(crc, CrcLen), Payload(r));
      n := size;
    }

    /** DecodeMeta: the header fields from the first 16 bytes. */
    method DecodeMeta(data: seq<byte>)
      requires |data| >= MetaLen
      modifies this`crc, this`keySize, this`valueSize
      ensures View() == DecodedMeta(old(View()), data)
    {
      crc := GetUint32(data);
      keySize := GetUint32(data[CrcLen..]);
      valueSize := GetUint64(data[CrcLen + KeySizeLen..]);
    }

    /** DecodeKV: fresh key and value storage of the decoded sizes, filled from
      data. A keySize beyond the end of data makes the source panic. */
    method DecodeKV(data: seq<byte>)
      requires keySize <= |data|
      modifies this`key, this`value
      ensures View() == DecodedKV(old(View()), data)
    {
      key := Fill(keySize, data[..keySize]);
      value := Fill(valueSize, data[keySize..]);
    }
  }

  /** The bytes Encode has in its buffer once the sizes, the key and the value
      are copied in (the crc field still zero) are four zeros and the payload. */
  lemma BufferAfterCopies(r: Record, buf: seq<byte>)
    requires Encodable(r)
    requires var kp, vp := r.key[..Min(r.keySize, |r.key|)], r.value[..Min(r.valueSize, |r.value|)];
      buf == Zeros(CrcLen) + BigEndian(r.keySize, KeySizeLen) + BigEndian(r.valueSize, ValueSizeLen)
        + kp + Zeros(r.keySize - |kp|) + vp + Zeros(r.valueSize - |vp|)
    ensures buf == Zeros(CrcLen) + Payload(r)
  {
    var z, a, b := Zeros(CrcLen), BigEndian(r.keySize, KeySizeLen), BigEndian(r.valueSize, ValueSizeLen);
    var kp, vp := r.key[..Min(r.keySize, |r.key|)], r.value[..Min(r.valueSize, |r.value|)];
    var kz, vz := Zeros(r.keySize - |kp|), Zeros(r.valueSize - |vp|);
    var k, v := Fill(r.keySize, r.key), Fill(r.valueSize, r.value);
    FillIsPrefixAndZeros(r.keySize, r.key);
    FillIsPrefixAndZeros(r.valueSize, r.value);
    assert k == kp + kz && v == vp + vz;
    var head := z + a + b;
    calc {
      buf;
      head + kp + kz + vp + vz;
      { AppendAssoc(head, kp, kz); }
      head + k + vp + vz;
      { AppendAssoc(head + k, vp, vz); }
      head + k + v;
      { AppendAssoc(z + a, b, k); }
      (z + a) + (b + k) + v;
      { AppendAssoc(z, a, b + k); }
      z + (a + (b + k)) + v;
      { AppendAssoc(z, a + (b + k), v); }
      z + (a + (b + k) + v);
      { AppendAssoc(a, b, k); }
      z + (a + b + k + v);
    }
  }
}
