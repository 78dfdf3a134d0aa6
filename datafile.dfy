/** The data files of datafile.go: append-only segments named
    "bitcask.data.<id>" that hold encoded records back to back, with the write
    offset and the active flag kept beside the open file. */
module DataFiles {
  import opened Bytes
  import opened Errors
  import opened Files
  import opened FileNames
  import opened Crc32
  import opened Entries

  /** dataFilePrefix without its "%d". */
  const DataFilePrefix: string := "bitcask.data."

  /** fmt.Sprintf(dataFilePrefix, id). */
  function DataFileName(id: int64): string
  {
    DataFilePrefix + Itoa(id)
  }

  /** path.Join(dir, fmt.Sprintf(dataFilePrefix, id)). */
  function DataFilePath(dir: string, id: int64): string
  {
    Join(dir, DataFileName(id))
  }

  /** The id can be read back from a data file's name. */
  lemma DataFileNameId(id: int64)
    ensures GetFileID(DataFileName(id)) == id
  {
    GetFileIDOfName(DataFilePrefix, id);
  }

  /** Different ids name different files in the same directory. */
  lemma DataFilePathInjective(dir: string, a: int64, b: int64)
    requires DataFilePath(dir, a) == DataFilePath(dir, b)
    ensures a == b
  {
    var na, nb := DataFileName(a), DataFileName(b);
    if dir != [] {
      assert na[0] == 'b' && nb[0] == 'b';
      assert DataFilePath(dir, a) == dir + "/" + na;
      assert na == DataFilePath(dir, a)[|dir| + 1..];
      assert nb == DataFilePath(dir, b)[|dir| + 1..];
    }
    DataFileNameId(a);
    DataFileNameId(b);
  }

  /** One record read back from a file: the bytes it took and its fields. */
  datatype Decoded = Decoded(consumed: int64, record: Record)

  /** The header fields of a record, read from its first 16 bytes into an
      empty entry. */
  function HeaderOf(meta: seq<byte>): Record
    requires |meta| >= MetaLen
  {
    DecodedMeta(Record(0, 0, 0, [], []), meta)
  }

  /** The size of the key-and-value buffer ReadAt allocates: keySize +
      valueSize in uint64 arithmetic. */
  function BodyLen(m: Record): uint64
  {
    ToUint64(m.keySize + m.valueSize)
  }

  /** DataFile.ReadAt on file contents `file` at offset o: read the 16-byte
      header, then the body after it. Read errors are passed on. */
  function RecordAt(file: seq<byte>, o: int64): (r: Result<Decoded>)
    ensures o < 0 || |file| < o + MetaLen ==> r.Err?
    ensures r.Ok? ==> 0 <= o && o + MetaLen <= |file|
  {
    match ReadBytes(file, o, MetaLen)
    case Err(e) => Err(e)
    case Ok(meta) => BodyAt(file, o, HeaderOf(meta))
  }

  /** The BodyLen(m) bytes after the header at o can be read: the int64
      offset o + 16 is not negative and, unless nothing is to be read, the
      body ends inside the file. */
  predicate BodyReadable(file: seq<byte>, o: int64, m: Record)
  {
    0 <= ToInt64(o + MetaLen) && (BodyLen(m) == 0 || ToInt64(o + MetaLen) + BodyLen(m) <= |file|)
  }

  /** The rest of ReadAt once the header m of the record at o is known: read
      BodyLen(m) bytes at o + 16 (an int64 sum) and copy key and value out.
      A body length past math.MaxInt64 does not fit make's int length and
      panics, and a keySize beyond the body (only possible when the uint64
      sum wrapped) makes DecodeKV panic. The Go runtime's smaller allocation
      limit, and running out of memory, are not modelled: a huge body length
      below math.MaxInt64 goes on to the read. */
  function BodyAt(file: seq<byte>, o: int64, m: Record): (r: Result<Decoded>)
    ensures BodyLen(m) > MaxInt64 ==> r == Err(ErrPanic)
    ensures BodyLen(m) <= MaxInt64 && BodyReadable(file, o, m) && BodyLen(m) < m.keySize ==> r == Err(ErrPanic)
    ensures r.Ok? <==> BodyLen(m) <= MaxInt64 && BodyReadable(file, o, m) && m.keySize <= BodyLen(m)
    ensures r.Ok? ==> |r.value.record.key| == m.keySize && |r.value.record.value| == m.valueSize
    ensures r.Ok? ==> r.value.record.keySize == m.keySize && r.value.record.valueSize == m.valueSize
  {
    if BodyLen(m) > MaxInt64 then Err(ErrPanic)
    else
      match ReadBytes(file, ToInt64(o + MetaLen), BodyLen(m))
      case Err(e) => Err(e)
      case Ok(kv) =>
        if |kv| < m.keySize then Err(ErrPanic)
        else Ok(Decoded(ToInt64(MetaLen + BodyLen(m)), DecodedKV(m, kv)))
  }

  /** With 16 bytes available at o, reading goes on with the header found there. */
  lemma RecordAtHeader(file: seq<byte>, o: int64)
    requires 0 <= o && o + MetaLen <= |file|
    ensures RecordAt(file, o) == BodyAt(file, o, HeaderOf(file[o..o + MetaLen]))
  {
  }

  /** A body that fits in the file, at offsets that do not overflow, is read
      whole: the record takes 16 + keySize + valueSize bytes. */
  lemma BodyAtFits(file: seq<byte>, o: int64, m: Record)
    requires 0 <= o && o + MetaLen + m.keySize + m.valueSize <= |file|
    requires o + MetaLen + m.keySize + m.valueSize <= MaxInt64
    ensures BodyAt(file, o, m)
         == Ok(Decoded(MetaLen + m.keySize + m.valueSize,
                       DecodedKV(m, file[o + MetaLen..o + MetaLen + m.keySize + m.valueSize])))
  {
    var n := m.keySize + m.valueSize;
    var kv := file[o + MetaLen..o + MetaLen + n];
    if n == 0 {
      assert kv == [];
    }
    assert ReadBytes(file, o + MetaLen, n) == Ok(kv);
  }

  /** A body that does not fit in what is left of the file fails to read. */
  lemma BodyAtShort(file: seq<byte>, o: int64, m: Record)
    requires 0 <= o && o + MetaLen + m.keySize + m.valueSize <= MaxInt64
    requires 0 < m.keySize + m.valueSize && |file| < o + MetaLen + m.keySize + m.valueSize
    ensures BodyAt(file, o, m).Err?
  {
  }

  /** A read that succeeds on a file succeeds the same way once more bytes are
      appended to it. */
  lemma BodyAtExtend(file: seq<byte>, more: seq<byte>, o: int64, m: Record)
    requires BodyAt(file, o, m).Ok?
    ensures BodyAt(file + more, o, m) == BodyAt(file, o, m)
  {
    ReadBytesExtend(file, more, ToInt64(o + MetaLen), BodyLen(m));
  }

  /** The header of the record at o says how long its body is; when the body
      does not fit in what is left of the file, reading fails. */
  lemma RecordAtShortBody(file: seq<byte>, o: int64)
    requires 0 <= o && o + MetaLen <= |file|
    requires var m := HeaderOf(file[o..o + MetaLen]);
      var body := m.keySize + m.valueSize;
      0 < body && o + MetaLen + body <= MaxInt64 && |file| < o + MetaLen + body
    ensures RecordAt(file, o).Err?
  {
    RecordAtHeader(file, o);
    BodyAtShort(file, o, HeaderOf(file[o..o + MetaLen]));
  }

  /** A record read successfully is what Decode gives for the bytes it took,
      and those bytes lie inside the file, as long as its end is a valid int64
      file offset and its keySize is not so large that Decode's uint32 sum
      wraps. */
  lemma RecordAtIsDecode(file: seq<byte>, o: int64)
    requires RecordAt(file, o).Ok?
    requires var r := RecordAt(file, o).value.record;
      o + MetaLen + r.keySize + r.valueSize <= MaxInt64 && MetaLen + r.keySize < TwoTo32
    ensures var d := RecordAt(file, o).value;
      && d.consumed == MetaLen + d.record.keySize + d.record.valueSize
      && o + d.consumed <= |file|
      && Decode(file[o..o + d.consumed]) == Ok(d.record)
  {
    RecordAtHeader(file, o);
    var m := HeaderOf(file[o..o + MetaLen]);
    var n := m.keySize + m.valueSize;
    BodyFitsOfOk(file, o, m);
    BodyAtFits(file, o, m);
    var data := file[o..o + MetaLen + n];
    SliceParts(file, o, MetaLen, o + MetaLen + n);
    DecodeOfParts(data, m);
  }

  /** A body read that succeeds, at offsets that do not overflow, lies inside
      the file. */
  lemma BodyFitsOfOk(file: seq<byte>, o: int64, m: Record)
    requires 0 <= o && o + MetaLen <= |file| && BodyAt(file, o, m).Ok?
    requires o + MetaLen + m.keySize + m.valueSize <= MaxInt64
    ensures o + MetaLen + m.keySize + m.valueSize <= |file|
  {
    if 0 < m.keySize + m.valueSize && |file| < o + MetaLen + m.keySize + m.valueSize {
      BodyAtShort(file, o, m);
    }
  }

  /** A buffer that holds exactly a header m and its body decodes whole as
      that header with the body read under it. */
  lemma DecodeOfParts(data: seq<byte>, m: Record)
    requires |data| == MetaLen + m.keySize + m.valueSize && MetaLen + m.keySize < TwoTo32
    requires HeaderOf(data[..MetaLen]) == m
    ensures Decode(data) == Ok(DecodedKV(m, data[MetaLen..]))
  {
    SplitDecode(data, Record(0, 0, 0, [], []));
  }

  /** The slice of s from i to k, split at i + j. */
  lemma SliceParts(s: seq<byte>, i: nat, j: nat, k: nat)
    requires i + j <= k <= |s|
    ensures s[i..k][..j] == s[i..i + j] && s[i..k][j..] == s[i + j..k]
  {
  }

  /** The record Write appended at the end of a file reads back from the
      offset it was written at: the sizes, the key and value as the entry
      held them, and the crc Encode computed. */
  lemma RecordAtAppend(file: seq<byte>, r: Record)
    requires Encodable(r) && |file| + MetaLen + r.keySize + r.valueSize <= MaxInt64
    ensures RecordAt(file + Encoding(r), |file|)
         == Ok(Decoded(MetaLen + r.keySize + r.valueSize, Stored(r)))
  {
    var s := Encoding(r);
    var m := Record(ChecksumIEEE(Payload(r)), r.keySize, r.valueSize, [], []);
    EncodedHeader(r, Record(0, 0, 0, [], []));
    EncodedBody(r, m);
    RecordAtAppendBytes(file, s, m, Stored(r));
  }

  /** Bytes s appended to a file, whose header reads as m and whose body reads
      under m as d, read back from the old end of the file as d. */
  lemma RecordAtAppendBytes(file: seq<byte>, s: seq<byte>, m: Record, d: Record)
    requires |s| == MetaLen + m.keySize + m.valueSize && |file| + |s| <= MaxInt64
    requires HeaderOf(s[..MetaLen]) == m && DecodedKV(m, s[MetaLen..]) == d
    ensures RecordAt(file + s, |file|) == Ok(Decoded(|s|, d))
  {
    var all := file + s;
    var o := |file|;
    AppendedParts(file, s, MetaLen);
    RecordAtHeader(all, o);
    BodyAtFits(all, o, m);
  }

  /** The two parts of s, split at k, sit at |file| and |file| + k in file + s. */
  lemma AppendedParts(file: seq<byte>, s: seq<byte>, k: nat)
    requires k <= |s|
    ensures (file + s)[|file|..|file| + k] == s[..k]
    ensures (file + s)[|file| + k..|file| + |s|] == s[k..]
  {
  }

  /** Bytes appended after a record do not change how it reads. */
  lemma RecordAtExtend(file: seq<byte>, more: seq<byte>, o: int64)
    requires RecordAt(file, o).Ok?
    ensures RecordAt(file + more, o) == RecordAt(file, o)
  {
    var all := file + more;
    RecordAtHeader(file, o);
    RecordAtHeader(all, o);
    assert all[o..o + MetaLen] == file[o..o + MetaLen];
    BodyAtExtend(file, more, o, HeaderOf(file[o..o + MetaLen]));
  }

  /** A record read through an open file: the file's current contents, or
      an error when the file is gone. */
  function RecordIn(h: Handle, o: int64): Result<Decoded>
    reads h.dir
  {
    if h.name in h.dir.files then RecordAt(h.dir.files[h.name], o) else Err(ErrNotExist)
  }

  /** The guard of DataFile.Write, in uint64 arithmetic. */
  predicate WriteOverflows(offset: int64, n: uint64)
  {
    ToUint64(ToUint64(offset) + n) > MaxInt64
  }

  /** For a non-negative offset and a record no longer than math.MaxInt64,
      the guard refuses exactly the writes that would end past math.MaxInt64. */
  lemma WriteOverflowsExactly(offset: int64, n: uint64)
    requires 0 <= offset && n <= MaxInt64
    ensures WriteOverflows(offset, n) <==> offset + n > MaxInt64
  {
  }

  /** An open data file. */
  class DataFile {
    const f: Handle
    const fileID: int64
    var offset: int64
    var isActive: bool

    constructor (f: Handle, fileID: int64, active: bool)
      ensures this.f == f && this.fileID == fileID && offset == 0 && isActive == active
    {
      this.f := f;
      this.fileID := fileID;
      offset := 0;
      isActive := active;
    }

    /** DataFile.Size. */
    function Size(): (n: int64)
      reads this
      ensures n == offset
    {
      offset
    }

    /** DataFile.ReadAt: one record at offset o, and the number of bytes it took. */
    method ReadAt(o: int64) returns (r: Result<(int64, Entry)>)
      ensures r.Ok? <==> RecordIn(f, o).Ok?
      ensures r.Err? ==> r.error == RecordIn(f, o).error
      ensures r.Ok? ==> (fresh(r.value.1) && r.value.0 == RecordIn(f, o).value.consumed
                         && r.value.1.View() == RecordIn(f, o).value.record)
    {
      var meta := ReadFileAt(f, o, MetaLen);
      if meta.Err? {
        return Err(meta.error);
      }
      var e := new Entry.Empty();
      e.DecodeMeta(meta.value);
      var kvLen := ToUint64(e.keySize + e.valueSize);
      if kvLen > MaxInt64 {
        return Err(ErrPanic);
      }
      var kv := ReadFileAt(f, ToInt64(o + MetaLen), kvLen);
      if kv.Err? {
        return Err(kv.error);
      }
      if |kv.value| < e.keySize {
        return Err(ErrPanic);
      }
      e.DecodeKV(kv.value);
      return Ok((ToInt64(MetaLen + kvLen), e));
    }

    /** DataFile.Write: encode the entry; refuse (and deactivate the file)
      when the new offset would pass math.MaxInt64; otherwise append the bytes
      and advance the offset by their number, returning the old offset. */
    method Write(e: Entry) returns (off: int64, err: Outcome)
      requires Encodable(e.View())
      modifies this`offset, this`isActive, f.dir, e`crc
      ensures e.View() == old(e.View()).(crc := ChecksumIEEE(Payload(old(e.View()))))
      ensures var n := old(e.View()).Size();
        if WriteOverflows(old(offset), n) then
          && err == Fail(ErrTooLarge) && off == old(offset)
          && offset == old(offset) && !isActive
          && f.dir.files == old(f.dir.files)
        else
          && err == Pass && off == old(offset)
          && offset == ToInt64(old(offset) + ToInt64(n)) && isActive == old(isActive)
          && f.dir.files == Appended(f, old(f.dir.files), Encoding(old(e.View())))
    {
      var n, buf := e.Encode();
      if WriteOverflows(offset, n) {
        isActive := false;
        return offset, Fail(ErrTooLarge);
      }
      off := offset;
      Append(f, buf[..]);
      offset := ToInt64(offset + ToInt64(n));
      err := Pass;
    }
  }

  /** NewDataFile: open "bitcask.data.<id>" under dir, created if missing and
      writable when active, read-only otherwise. The offset starts at 0 even
      when the file already holds records. */
  method NewDataFile(dir: Directory, id: int64, active: bool) returns (r: Result<DataFile>)
    modifies dir
    ensures var name := DataFilePath(dir.path, id);
      && (r.Ok? ==> fresh(r.value) && r.value.f == Handle(dir, name, active) && r.value.fileID == id
                    && r.value.offset == 0 && r.value.isActive == active)
      && (active ==> r.Ok? && dir.files == old(dir.files)[name := if name in old(dir.files) then old(dir.files)[name] else []])
      && (!active ==> dir.files == old(dir.files) && (r.Ok? <==> name in old(dir.files))
                      && (r.Err? ==> r.error == ErrNotExist))
  {
    var file := DataFilePath(dir.path, id);
    var fd := OpenFile(dir, file, active, active);
    if fd.Err? {
      return Err(fd.error);
    }
    var df := new DataFile(fd.value, id, active);
    return Ok(df);
  }

  /** newDataFile: open a data file by its full path. The file id is left at
      0 and the file is marked active whatever `active` says. */
  method NewDataFileAtPath(dir: Directory, file: string, active: bool) returns (r: Result<DataFile>)
    modifies dir
    ensures r.Ok? ==> fresh(r.value) && r.value.f == Handle(dir, file, active) && r.value.fileID == 0
                      && r.value.offset == 0 && r.value.isActive
    ensures active ==> r.Ok? && dir.files == old(dir.files)[file := if file in old(dir.files) then old(dir.files)[file] else []]
    ensures !active ==> dir.files == old(dir.files) && (r.Ok? <==> file in old(dir.files))
                        && (r.Err? ==> r.error == ErrNotExist)
  {
    var fd := OpenFile(dir, file, active, active);
    if fd.Err? {
      return Err(fd.error);
    }
    var df := new DataFile(fd.value, 0, true);
    return Ok(df);
  }
}
