/** The hint files of hint.go: a second codec (keySize, offset, key) and a
    writer that streams hints through a 4096-byte bufio.Writer into
    "bitcask.hint.<id>", opening a new file whenever the file id changes. */
module Hints {
  import opened Bytes
  import opened Errors
  import opened Files
  import opened FileNames
  import opened Entries

  /** offsetLen */
  const OffsetLen: nat := 8
  /** keySizeLen + offsetLen: the fixed part of a hint. */
  const HintMetaLen: nat := KeySizeLen + OffsetLen
  /** hintFilePrefix without its "%d". */
  const HintFilePrefix: string := "bitcask.hint."
  /** The size WriteHint gives bufio.NewWriterSize. */
  const BufferSize: nat := 4096

  /** fmt.Sprintf(hintFilePrefix, id). */
  function HintFileName(id: int64): string
  {
    HintFilePrefix + Itoa(id)
  }

  /** path.Join(dir, fmt.Sprintf(hintFilePrefix, id)). */
  function HintFilePath(dir: string, id: int64): string
  {
    Join(dir, HintFileName(id))
  }

  /** The id can be read back from a hint file's name. */
  lemma HintFileNameId(id: int64)
    ensures GetFileID(HintFileName(id)) == id
  {
    GetFileIDOfName(HintFilePrefix, id);
  }

  /** Different ids name different hint files in the same directory. */
  lemma HintFilePathInjective(dir: string, a: int64, b: int64)
    requires HintFilePath(dir, a) == HintFilePath(dir, b)
    ensures a == b
  {
    var na, nb := HintFileName(a), HintFileName(b);
    if dir != [] {
      assert na[0] == 'b' && nb[0] == 'b';
      assert HintFilePath(dir, a) == dir + "/" + na;
      assert na == HintFilePath(dir, a)[|dir| + 1..];
      assert nb == HintFilePath(dir, b)[|dir| + 1..];
    }
    HintFileNameId(a);
    HintFileNameId(b);
  }

  // ---------------------------------------------------------------- codec

  /** The value of a HintEntry. */
  datatype HintRecord = HintRecord(keySize: uint32, offset: uint64, key: seq<byte>)

  /** newHintEntry: the key's length as uint32 and the offset reinterpreted as
      uint64 (a negative offset becomes offset + 2^64). */
  function NewHintRecord(key: seq<byte>, offset: int64): (h: HintRecord)
    ensures |key| < TwoTo32 ==> h.keySize == |key|
    ensures h.offset == if offset >= 0 then offset else offset + TwoTo64
    ensures h.key == key
  {
    HintRecord(ToUint32(|key|), ToUint64(offset), key)
  }

  /** HintEntry.Size: the sum is taken in keySize's type, uint32, so it wraps
      for keys within 12 bytes of 2^32 before it is widened to uint64. */
  function HintSize(h: HintRecord): (n: uint64)
    ensures h.keySize < TwoTo32 - HintMetaLen ==> n == HintMetaLen + h.keySize
    ensures h.keySize >= TwoTo32 - HintMetaLen ==> n == HintMetaLen + h.keySize - TwoTo32 && n < HintMetaLen
  {
    ToUint32(HintMetaLen + h.keySize)
  }

  /** A hint whose Size does not wrap. Encode panics on every other one: the
      wrapped size is below 12, too short for the two fixed fields. */
  predicate HintEncodable(h: HintRecord)
  {
    HintMetaLen + h.keySize < TwoTo32
  }

  /** The bytes HintEntry.Encode produces: keySize, offset, then keySize
      bytes of key (cut, or padded with zeros). */
  function HintEncoding(h: HintRecord): (s: seq<byte>)
    ensures |s| == HintMetaLen + h.keySize
  {
    BigEndian(h.keySize, KeySizeLen) + BigEndian(h.offset, OffsetLen) + Fill(h.keySize, h.key)
  }

  /** What HintEntry.Decode leaves in an entry `dst`: the two fixed fields
      read from data, and the key copied into the key storage dst already
      has, which keeps its length. */
  function DecodedHint(dst: HintRecord, data: seq<byte>): (h: HintRecord)
    requires |data| >= HintMetaLen
    ensures |h.key| == |dst.key|
  {
    HintRecord(GetUint32(data), GetUint64(data[KeySizeLen..]), CopyOver(dst.key, data[HintMetaLen..]))
  }

  /** The encoded layout: keySize in bytes [0,4), offset in [4,12), the key
      after them. */
  lemma HintEncodingLayout(h: HintRecord)
    ensures var s := HintEncoding(h);
      && s[..KeySizeLen] == BigEndian(h.keySize, KeySizeLen)
      && s[KeySizeLen..HintMetaLen] == BigEndian(h.offset, OffsetLen)
      && s[HintMetaLen..] == Fill(h.keySize, h.key)
  {
    var a, b, k := BigEndian(h.keySize, KeySizeLen), BigEndian(h.offset, OffsetLen), Fill(h.keySize, h.key);
    assert HintEncoding(h) == a + b + k;
  }

  /** Decoding an encoded hint recovers keySize and offset exactly; the key
      comes back, as encoded, if and only if the receiver's key storage
      already has keySize bytes. */
  lemma HintRoundTrip(h: HintRecord, dst: HintRecord)
    ensures var d := DecodedHint(dst, HintEncoding(h));
      && d.keySize == h.keySize && d.offset == h.offset
      && (d.key == Fill(h.keySize, h.key) <==> |dst.key| == h.keySize)
  {
    var s := HintEncoding(h);
    HintEncodingLayout(h);
    assert s[..4] == s[..KeySizeLen];
    GetUint32OfBigEndian(s, h.keySize);
    assert s[KeySizeLen..][..8] == s[KeySizeLen..HintMetaLen];
    GetUint64OfBigEndian(s[KeySizeLen..], h.offset);
    CopyOverIsSource(dst.key, s[HintMetaLen..]);
  }

  /** A hint made by newHintEntry, encoded and decoded into an entry with
      len(key) bytes of key storage, gives back the key and the offset. */
  lemma NewHintRoundTrip(key: seq<byte>, offset: int64, dst: HintRecord)
    requires |key| < TwoTo32 && |dst.key| == |key|
    ensures DecodedHint(dst, HintEncoding(NewHintRecord(key, offset)))
         == HintRecord(|key|, ToUint64(offset), key)
  {
    var h := NewHintRecord(key, offset);
    HintRoundTrip(h, dst);
    FillExact(key);
  }

  /** A HintEntry. */
  class HintEntry {
    var keySize: uint32
    var offset: uint64
    var key: seq<byte>

    function View(): HintRecord
      reads this
    {
      HintRecord(keySize, offset, key)
    }

    /** &HintEntry{}: every field zero. */
    constructor Empty()
      ensures View() == HintRecord(0, 0, [])
    {
      keySize, offset, key := 0, 0, [];
    }

    /** newHintEntry. */
    constructor (key: seq<byte>, offset: int64)
      ensures View() == NewHintRecord(key, offset)
    {
      keySize := ToUint32(|key|);
      this.offset := ToUint64(offset);
      this.key := key;
    }

    /** HintEntry.Size. */
    function Size(): uint64
      reads this
    {
      HintSize(View())
    }

    /** HintEntry.Encode: a zeroed buffer of Size() bytes with keySize, offset
      and the key copied in. */
    method Encode() returns (n: uint64, buf: array<byte>)
      requires HintEncodable(View())
      ensures fresh(buf) && n == buf.Length == HintMetaLen + keySize
      ensures buf[..] == HintEncoding(View())
    {
      var size := Size();
      buf := new byte[size](_ => 0);
      assert buf[..] == [] + Zeros(size);
      var sizeBytes := BigEndian(keySize, KeySizeLen);
      CopyOntoZeros(buf, [], 0, sizeBytes);
      assert [] + sizeBytes == sizeBytes;
      var offsetBytes := BigEndian(offset, OffsetLen);
      CopyOntoZeros(buf, sizeBytes, KeySizeLen, offsetBytes);
      ghost var done := sizeBytes + offsetBytes;
      var keyPart := key[..Min(keySize, |key|)];
      CopyOntoZeros(buf, done, HintMetaLen, keyPart);
      FillIsPrefixAndZeros(keySize, key);
      AppendAssoc(done, keyPart, Zeros(keySize - |keyPart|));
      n := size;
    }

    /** HintEntry.Decode: keySize and offset from the first 12 bytes, the key
      copied into the storage the entry already has. Fewer than 12 bytes
      make the source panic. */
    method Decode(data: seq<byte>)
      requires |data| >= HintMetaLen
      modifies this
      ensures View() == DecodedHint(old(View()), data)
    {
      keySize := GetUint32(data);
      offset := GetUint64(data[KeySizeLen..]);
      key := CopyOver(key, data[HintMetaLen..]);
    }
  }

  // ---------------------------------------------------------------- reading

  /** One hint read back from a file: the bytes it took and its fields. */
  datatype HintRead = HintRead(consumed: int64, hint: HintRecord)

  /** HintFile.ReadAt on file contents `file` at offset o: the 12 fixed
      bytes, then keySize bytes read into a buffer that is never copied
      into the entry, so the key comes back empty. */
  function HintAt(file: seq<byte>, o: int64): (r: Result<HintRead>)
    ensures r.Ok? ==> r.value.hint.key == [] && r.value.consumed == HintMetaLen + r.value.hint.keySize
    ensures r.Ok? ==> 0 <= o && o + HintMetaLen <= |file|
    ensures r.Ok? ==> o + r.value.consumed <= |file|
  {
    match ReadBytes(file, o, HintMetaLen)
    case Err(e) => Err(e)
    case Ok(meta) =>
      var keySize := GetUint32(meta);
      match ReadBytes(file, ToInt64(o + HintMetaLen), keySize)
      case Err(e) => Err(e)
      case Ok(_) => Ok(HintRead(HintMetaLen + keySize, HintRecord(keySize, GetUint64(meta[KeySizeLen..]), [])))
  }

  /** A hint appended at the end of a file reads back from the offset it was
      written at with its keySize and offset, and without its key. */
  lemma HintAtAppend(file: seq<byte>, h: HintRecord)
    requires |file| + HintMetaLen + h.keySize <= MaxInt64
    ensures HintAt(file + HintEncoding(h), |file|)
         == Ok(HintRead(HintMetaLen + h.keySize, HintRecord(h.keySize, h.offset, [])))
  {
    var s := HintEncoding(h);
    var all := file + s;
    var o := |file|;
    HintEncodingLayout(h);
    var meta := all[o..o + HintMetaLen];
    assert meta == s[..HintMetaLen];
    assert meta[..4] == s[..KeySizeLen];
    GetUint32OfBigEndian(meta, h.keySize);
    assert meta[KeySizeLen..][..8] == s[KeySizeLen..HintMetaLen];
    GetUint64OfBigEndian(meta[KeySizeLen..], h.offset);
    assert ReadBytes(all, o, HintMetaLen) == Ok(meta);
    assert ReadBytes(all, o + HintMetaLen, h.keySize).Ok?;
  }

  /** A hint read through an open file. */
  function HintIn(h: Handle, o: int64): Result<HintRead>
    reads h.dir
  {
    if h.name in h.dir.files then HintAt(h.dir.files[h.name], o) else Err(ErrNotExist)
  }

  // ---------------------------------------------------------------- writing

  /** A *bufio.Writer: the file it writes to and the bytes it holds. */
  datatype BufWriter = BufWriter(target: Handle, pending: seq<byte>)

  /** bufio.Writer.Write of p into a writer holding `pending`: the bytes it
      passes on to the file, and the bytes it holds afterwards. Bytes that fit
      in what is left of the buffer stay there; otherwise the buffer is topped
      up and flushed (or, when empty, bypassed) and a tail that fits is kept. */
  function BufWrite(pending: seq<byte>, p: seq<byte>): (r: (seq<byte>, seq<byte>))
    requires |pending| <= BufferSize
    ensures r.0 + r.1 == pending + p
    ensures |r.1| <= BufferSize
    ensures |pending + p| <= BufferSize ==> r.0 == []
  {
    if |p| <= BufferSize - |pending| then ([], pending + p)
    else if pending == [] then (p, [])
    else
      var k := BufferSize - |pending|;
      if |p| - k <= BufferSize then
        assert pending + p[..k] + p[k..] == pending + p;
        (pending + p[..k], p[k..])
      else (pending + p, [])
  }

  /** The fields of a HintFile. */
  datatype HintState = HintState(f: Option<Handle>, fileID: int64, offset: int64, writer: Option<BufWriter>)

  /** What a HintFile may hold, with its files in `dir`: the file it has open
      is the hint file of its fileID, and a buffered writer writes to that
      same file, which was opened for writing and exists. */
  predicate HintInv(s: HintState, files: map<string, seq<byte>>, dir: Directory)
  {
    && (s.f.Some? ==> s.f.value.dir == dir && s.f.value.name == HintFilePath(dir.path, s.fileID))
    && (s.writer.Some? ==>
          && s.f == Some(s.writer.value.target) && s.writer.value.target.writable
          && s.writer.value.target.name in files && |s.writer.value.pending| <= BufferSize)
  }

  /** The hints written to the file `name` so far: its contents and, when the
      writer targets it, the bytes still buffered. */
  function HintBytes(files: map<string, seq<byte>>, s: HintState, name: string): seq<byte>
  {
    (if name in files then files[name] else [])
      + (if s.writer.Some? && s.writer.value.target.name == name then s.writer.value.pending else [])
  }

  /** WriteHint opens a new file when none is open or the id differs. */
  predicate Rebinds(s: HintState, fileID: int64)
  {
    s.f.None? || s.fileID != fileID
  }

  /** HintFile.Flush: with a file and a writer bound, the buffered bytes go
      to the file; otherwise nothing happens. */
  function FlushState(s: HintState, files: map<string, seq<byte>>): (r: (HintState, map<string, seq<byte>>))
    ensures s.f.None? || s.writer.None? ==> r == (s, files)
    ensures s.f.Some? && r.0.writer.Some? ==> r.0.writer.value.pending == []
    ensures r.0.f == s.f && r.0.fileID == s.fileID && r.0.offset == s.offset
  {
    if s.f.None? || s.writer.None? then (s, files)
    else
      var w := s.writer.value;
      (s.(writer := Some(w.(pending := []))), Appended(w.target, files, w.pending))
  }

  /** Flushing moves buffered hints into their file: no file's hints change. */
  lemma FlushKeepsHints(s: HintState, files: map<string, seq<byte>>, dir: Directory)
    requires HintInv(s, files, dir)
    ensures var r := FlushState(s, files);
      && HintInv(r.0, r.1, dir)
      && forall name :: HintBytes(r.1, r.0, name) == HintBytes(files, s, name)
  {
  }

  /** WriteHint as written, on a HintFile in state s whose directory `dir`
      holds `files`: rebind when needed (the previous file is closed, and its
      writer with the bytes it still buffers is dropped), append the encoded
      hint through the writer, and add the hint's size to the running offset.
      A HintFile opened by OpenHintFile has no writer, so writing to its own
      id dereferences a nil writer and panics. */
  function WriteHintAsWritten(s: HintState, files: map<string, seq<byte>>, dir: Directory,
                              fileID: int64, key: seq<byte>, offset: int64)
    : (r: (Outcome, HintState, map<string, seq<byte>>))
    requires s.writer.Some? ==> |s.writer.value.pending| <= BufferSize
    requires HintMetaLen + |key| < TwoTo32
    ensures r.0 == Pass || r.0 == Fail(ErrPanic)
    ensures r.0 == Fail(ErrPanic) <==> !Rebinds(s, fileID) && s.writer.None?
    ensures r.0 == Fail(ErrPanic) ==> r.1 == s && r.2 == files
    ensures r.0 == Pass ==> r.1.fileID == fileID && r.1.writer.Some?
    ensures Rebinds(s, fileID) ==> r.1.f == Some(Handle(dir, HintFilePath(dir.path, fileID), true))
    ensures !Rebinds(s, fileID) ==> r.1.f == s.f
    ensures r.0 == Pass && s.offset + HintMetaLen + |key| <= MaxInt64
            ==> r.1.offset == s.offset + HintMetaLen + |key|
  {
    var rec := NewHintRecord(key, offset);
    WriteEncoded(s, files, dir, fileID, HintEncoding(rec), HintSize(rec))
  }

  /** WriteHintAsWritten for any encoded hint enc of the given size. */
  function WriteEncoded(s: HintState, files: map<string, seq<byte>>, dir: Directory,
                        fileID: int64, enc: seq<byte>, size: uint32)
    : (r: (Outcome, HintState, map<string, seq<byte>>))
    requires s.writer.Some? ==> |s.writer.value.pending| <= BufferSize
    ensures r.0 == Pass || r.0 == Fail(ErrPanic)
    ensures r.0 == Fail(ErrPanic) <==> !Rebinds(s, fileID) && s.writer.None?
    ensures r.0 == Fail(ErrPanic) ==> r.1 == s && r.2 == files
    ensures r.0 == Pass ==> r.1.fileID == fileID && r.1.writer.Some?
    ensures Rebinds(s, fileID) ==> r.1.f == Some(Handle(dir, HintFilePath(dir.path, fileID), true))
    ensures !Rebinds(s, fileID) ==> r.1.f == s.f
    ensures r.0 == Pass && s.offset + size <= MaxInt64 ==> r.1.offset == s.offset + size
  {
    var next := ToInt64(s.offset + ToInt64(size));
    if Rebinds(s, fileID) then
      var name := HintFilePath(dir.path, fileID);
      var target := Handle(dir, name, true);
      var created := files[name := if name in files then files[name] else []];
      var b := BufWrite([], enc);
      (Pass, HintState(Some(target), fileID, next, Some(BufWriter(target, b.1))), Appended(target, created, b.0))
    else if s.writer.None? then (Fail(ErrPanic), s, files)
    else
      var w := s.writer.value;
      var b := BufWrite(w.pending, enc);
      (Pass, s.(offset := next, writer := Some(w.(pending := b.1))), Appended(w.target, files, b.0))
  }

  /** WriteHint with the writer flushed before a rebind: the buffered hints of
      the previous file reach it before its writer is dropped. */
  function WriteHintFlushing(s: HintState, files: map<string, seq<byte>>, dir: Directory,
                             fileID: int64, key: seq<byte>, offset: int64)
    : (r: (Outcome, HintState, map<string, seq<byte>>))
    requires s.writer.Some? ==> |s.writer.value.pending| <= BufferSize
    requires HintMetaLen + |key| < TwoTo32
  {
    if Rebinds(s, fileID) then
      var flushed := FlushState(s, files);
      WriteHintAsWritten(flushed.0, flushed.1, dir, fileID, key, offset)
    else WriteHintAsWritten(s, files, dir, fileID, key, offset)
  }

  /** Writing as written keeps HintInv whatever the buffer held, so one
      WriteHint can follow another. */
  lemma WriteHintKeepsInv(s: HintState, files: map<string, seq<byte>>, dir: Directory,
                          fileID: int64, key: seq<byte>, offset: int64)
    requires HintInv(s, files, dir) && HintMetaLen + |key| < TwoTo32
    ensures var r := WriteHintAsWritten(s, files, dir, fileID, key, offset);
      HintInv(r.1, r.2, dir)
  {
  }

  /** Appending the hint to its own file and leaving every other file alone,
      the common core of both ways of writing. */
  lemma WriteWithoutLoss(s: HintState, files: map<string, seq<byte>>, dir: Directory,
                         fileID: int64, key: seq<byte>, offset: int64)
    requires HintInv(s, files, dir) && HintMetaLen + |key| < TwoTo32
    requires s.writer.Some? ==> s.writer.value.pending == [] || !Rebinds(s, fileID)
    ensures var r := WriteHintAsWritten(s, files, dir, fileID, key, offset);
      var enc := HintEncoding(NewHintRecord(key, offset));
      r.0 == Pass ==>
        && HintInv(r.1, r.2, dir)
        && forall name :: HintBytes(r.2, r.1, name)
             == HintBytes(files, s, name) + (if name == HintFilePath(dir.path, fileID) then enc else [])
  {
    var rec := NewHintRecord(key, offset);
    if Rebinds(s, fileID) {
      WriteReboundWithoutLoss(s, files, dir, fileID, HintEncoding(rec), HintSize(rec));
    } else if s.writer.Some? {
      WriteInPlaceWithoutLoss(s, files, dir, fileID, HintEncoding(rec), HintSize(rec));
    }
  }

  /** WriteWithoutLoss when the writer is rebound to a new file. */
  lemma WriteReboundWithoutLoss(s: HintState, files: map<string, seq<byte>>, dir: Directory,
                                fileID: int64, enc: seq<byte>, size: uint32)
    requires HintInv(s, files, dir) && Rebinds(s, fileID)
    requires s.writer.Some? ==> s.writer.value.pending == []
    ensures var r := WriteEncoded(s, files, dir, fileID, enc, size);
      && HintInv(r.1, r.2, dir)
      && forall name :: HintBytes(r.2, r.1, name)
           == HintBytes(files, s, name) + (if name == HintFilePath(dir.path, fileID) then enc else [])
  {
    var r := WriteEncoded(s, files, dir, fileID, enc, size);
    var here := HintFilePath(dir.path, fileID);
    var created := files[here := if here in files then files[here] else []];
    var b := BufWrite([], enc);
    assert r.2 == created[here := created[here] + b.0];
    forall name
      ensures HintBytes(r.2, r.1, name) == HintBytes(files, s, name) + (if name == here then enc else [])
    {
      if s.writer.Some? && s.writer.value.target.name == name {
        assert s.writer.value.pending == [];
      }
    }
  }

  /** WriteWithoutLoss when the writer already targets the hint's file. */
  lemma WriteInPlaceWithoutLoss(s: HintState, files: map<string, seq<byte>>, dir: Directory,
                                fileID: int64, enc: seq<byte>, size: uint32)
    requires HintInv(s, files, dir) && !Rebinds(s, fileID) && s.writer.Some?
    ensures var r := WriteEncoded(s, files, dir, fileID, enc, size);
      && HintInv(r.1, r.2, dir)
      && forall name :: HintBytes(r.2, r.1, name)
           == HintBytes(files, s, name) + (if name == HintFilePath(dir.path, fileID) then enc else [])
  {
    var r := WriteEncoded(s, files, dir, fileID, enc, size);
    var here := HintFilePath(dir.path, fileID);
    var w := s.writer.value;
    assert w.target.name == here;
    var b := BufWrite(w.pending, enc);
    assert r.2 == files[here := files[here] + b.0] && r.1.writer == Some(w.(pending := b.1));
    forall name
      ensures HintBytes(r.2, r.1, name) == HintBytes(files, s, name) + (if name == here then enc else [])
    {
      if name == here {
        AppendAssoc(files[here], b.0, b.1);
        AppendAssoc(files[here], w.pending, enc);
      }
    }
  }

  /** With the writer flushed first, WriteHint loses nothing: the hint is
      added to the hints of its own file and every other file's hints stay
      as they were. */
  lemma WriteHintFlushingKeepsHints(s: HintState, files: map<string, seq<byte>>, dir: Directory,
                                    fileID: int64, key: seq<byte>, offset: int64)
    requires HintInv(s, files, dir) && HintMetaLen + |key| < TwoTo32
    ensures var r := WriteHintFlushing(s, files, dir, fileID, key, offset);
      var enc := HintEncoding(NewHintRecord(key, offset));
      r.0 == Pass ==>
        && HintInv(r.1, r.2, dir)
        && forall name :: HintBytes(r.2, r.1, name)
             == HintBytes(files, s, name) + (if name == HintFilePath(dir.path, fileID) then enc else [])
  {
    if Rebinds(s, fileID) {
      var flushed := FlushState(s, files);
      FlushKeepsHints(s, files, dir);
      WriteWithoutLoss(flushed.0, flushed.1, dir, fileID, key, offset);
    } else {
      WriteWithoutLoss(s, files, dir, fileID, key, offset);
    }
  }

  /** WriteHint as written, moving to another file while the writer still
      holds bytes of the previous one: those bytes never reach it. */
  lemma WriteHintAsWrittenDropsHints(s: HintState, files: map<string, seq<byte>>, dir: Directory,
                                     fileID: int64, key: seq<byte>, offset: int64)
    requires HintInv(s, files, dir) && HintMetaLen + |key| < TwoTo32
    requires Rebinds(s, fileID) && s.writer.Some?
    ensures var r := WriteHintAsWritten(s, files, dir, fileID, key, offset);
      var name := s.writer.value.target.name;
      HintBytes(r.2, r.1, name) == files[name]
      && HintBytes(files, s, name) == files[name] + s.writer.value.pending
  {
    var name := s.writer.value.target.name;
    assert name == HintFilePath(dir.path, s.fileID);
    if name == HintFilePath(dir.path, fileID) {
      HintFilePathInjective(dir.path, s.fileID, fileID);
    }
  }

  /** A concrete case: one empty hint buffered for file 1, then a hint for
      file 2. File 1 stays empty although a hint was written for it. */
  lemma WriteHintLosesBufferedHint(dir: Directory)
    ensures var one := HintFilePath(dir.path, 1);
      var target := Handle(dir, one, true);
      var s := HintState(Some(target), 1, 12, Some(BufWriter(target, HintEncoding(HintRecord(0, 0, [])))));
      var files := map[one := []];
      var r := WriteHintAsWritten(s, files, dir, 2, [], 12);
      && r.0 == Pass
      && |HintBytes(files, s, one)| == HintMetaLen
      && HintBytes(r.2, r.1, one) == []
  {
    var one := HintFilePath(dir.path, 1);
    var target := Handle(dir, one, true);
    var s := HintState(Some(target), 1, 12, Some(BufWriter(target, HintEncoding(HintRecord(0, 0, [])))));
    var files := map[one := []];
    WriteHintAsWrittenDropsHints(s, files, dir, 2, [], 12);
  }

  /** A HintFile. */
  class HintFile {
    var f: Option<Handle>
    var fileID: int64
    var offset: int64
    var bufWriter: Option<BufWriter>

    function State(): HintState
      reads this
    {
      HintState(f, fileID, offset, bufWriter)
    }

    /** NewHintFile: no file, no writer, id and offset 0. */
    constructor ()
      ensures State() == HintState(None, 0, 0, None)
    {
      f, fileID, offset, bufWriter := None, 0, 0, None;
    }

    /** The literal OpenHintFile returns: a file, its id, offset 0, no writer. */
    constructor Opened(fd: Handle, fileID: int64)
      ensures State() == HintState(Some(fd), fileID, 0, None)
    {
      f, this.fileID, offset, bufWriter := Some(fd), fileID, 0, None;
    }

    /** The rebind step of HintFile.WriteHint: the hint file of fileID is
      opened for writing (created when missing) behind a new, empty writer.
      The previous file is closed; closing is not modelled. */
    method Bind(dir: Directory, fileID: int64)
      modifies this, dir
      ensures var target := Handle(dir, HintFilePath(dir.path, fileID), true);
        State() == old(State()).(f := Some(target), fileID := fileID, writer := Some(BufWriter(target, [])))
      ensures var name := HintFilePath(dir.path, fileID);
        dir.files == old(dir.files)[name := if name in old(dir.files) then old(dir.files)[name] else []]
    {
      var fd := OpenFile(dir, HintFilePath(dir.path, fileID), true, true);
      f := Some(fd.value);
      this.fileID := fileID;
      bufWriter := Some(BufWriter(fd.value, []));
    }

    /** HintFile.Flush. */
    method Flush()
      requires bufWriter.Some? ==> f == Some(bufWriter.value.target) && |bufWriter.value.pending| <= BufferSize
      modifies this`bufWriter, if f.Some? then {f.value.dir} else {}
      ensures f.Some? ==> (State(), f.value.dir.files) == FlushState(old(State()), old(f.value.dir.files))
      ensures f.None? ==> State() == old(State())
    {
      if f.None? || bufWriter.None? {
        return;
      }
      var w := bufWriter.value;
      Append(w.target, w.pending);
      bufWriter := Some(w.(pending := []));
    }

    /** HintFile.ReadAt: one hint at offset o and the bytes it took. Without
      an open file the read fails as a read on a nil *os.File does. */
    method ReadAt(o: int64) returns (r: Result<(int64, HintEntry)>)
      ensures f.None? ==> r == Err(ErrInvalid)
      ensures f.Some? ==> (r.Ok? <==> HintIn(f.value, o).Ok?)
      ensures f.Some? && r.Err? ==> r.error == HintIn(f.value, o).error
      ensures r.Ok? ==> (fresh(r.value.1) && r.value.0 == HintIn(f.value, o).value.consumed
                         && r.value.1.View() == HintIn(f.value, o).value.hint)
    {
      if f.None? {
        return Err(ErrInvalid);
      }
      var meta := ReadFileAt(f.value, o, HintMetaLen);
      if meta.Err? {
        return Err(meta.error);
      }
      var he := new HintEntry.Empty();
      he.keySize := GetUint32(meta.value);
      he.offset := GetUint64(meta.value[KeySizeLen..]);
      var keyBuf := ReadFileAt(f.value, ToInt64(o + HintMetaLen), he.keySize);
      if keyBuf.Err? {
        return Err(keyBuf.error);
      }
      return Ok((HintMetaLen + he.keySize, he));
    }
  }

  /** OpenHintFile: open the hint file of fileID read-only; a missing file is
      an error. */
  method OpenHintFile(dir: Directory, fileID: int64) returns (r: Result<HintFile>)
    modifies dir
    ensures dir.files == old(dir.files)
    ensures r.Ok? <==> HintFilePath(dir.path, fileID) in dir.files
    ensures r.Err? ==> r.error == ErrNotExist
    ensures r.Ok? ==> (fresh(r.value) && HintInv(r.value.State(), dir.files, dir)
                       && r.value.State() == HintState(Some(Handle(dir, HintFilePath(dir.path, fileID), false)), fileID, 0, None))
  {
    var fd := OpenFile(dir, HintFilePath(dir.path, fileID), false, false);
    if fd.Err? {
      return Err(fd.error);
    }
    var h := new HintFile.Opened(fd.value, fileID);
    return Ok(h);
  }

  /** bufio.Writer.Write through a writer: what it passes on reaches the
      file it targets. */
  method WriteBuffered(w: BufWriter, p: seq<byte>) returns (w': BufWriter)
    requires |w.pending| <= BufferSize
    modifies w.target.dir
    ensures w' == w.(pending := BufWrite(w.pending, p).1)
    ensures w.target.dir.files == Appended(w.target, old(w.target.dir.files), BufWrite(w.pending, p).0)
  {
    var b := BufWrite(w.pending, p);
    Append(w.target, b.0);
    w' := w.(pending := b.1);
  }

  /** HintFile.WriteHint as written. A nil receiver is an error. */
  method WriteHint(h: HintFile?, dir: Directory, fileID: int64, key: seq<byte>, offset: int64)
    returns (err: Outcome)
    requires h != null ==> HintInv(h.State(), dir.files, dir)
    requires HintMetaLen + |key| < TwoTo32
    modifies h, dir
    ensures h == null ==> err == Fail(ErrNilReceiver) && dir.files == old(dir.files)
    ensures h != null ==> (err, h.State(), dir.files)
                          == WriteHintAsWritten(old(h.State()), old(dir.files), dir, fileID, key, offset)
    ensures h != null ==> HintInv(h.State(), dir.files, dir)
  {
    if h == null {
      return Fail(ErrNilReceiver);
    }
    ghost var s0, files0 := h.State(), dir.files;
    ghost var rec := NewHintRecord(key, offset);
    ghost var want := WriteHintAsWritten(s0, files0, dir, fileID, key, offset);
    WriteHintKeepsInv(s0, files0, dir, fileID, key, offset);
    if h.f.None? || h.fileID != fileID {
      h.Bind(dir, fileID);
    }
    var entry := new HintEntry(key, offset);
    var size, entryBuf := entry.Encode();
    assert entryBuf[..] == HintEncoding(rec) && size == HintSize(rec);
    if h.bufWriter.None? {
      assert want == (Fail(ErrPanic), s0, files0);
      return Fail(ErrPanic);
    }
    var w := WriteBuffered(h.bufWriter.value, entryBuf[..]);
    h.bufWriter := Some(w);
    h.offset := ToInt64(h.offset + ToInt64(size));
    assert h.State() == want.1 && dir.files == want.2;
    return Pass;
  }

  /** WriteHint with the previous file's writer flushed before a rebind. */
  method WriteHintAfterFlush(h: HintFile?, dir: Directory, fileID: int64, key: seq<byte>, offset: int64)
    returns (err: Outcome)
    requires h != null ==> HintInv(h.State(), dir.files, dir)
    requires HintMetaLen + |key| < TwoTo32
    modifies h, dir
    ensures h == null ==> err == Fail(ErrNilReceiver) && dir.files == old(dir.files)
    ensures h != null ==> (err, h.State(), dir.files)
                          == WriteHintFlushing(old(h.State()), old(dir.files), dir, fileID, key, offset)
  {
    if h != null && (h.f.None? || h.fileID != fileID) {
      h.Flush();
      FlushKeepsHints(old(h.State()), old(dir.files), dir);
    }
    err := WriteHint(h, dir, fileID, key, offset);
  }
}
