/** The index of db.go: the map from each key to the data file and offset
    of its latest record, what reading a key through it gives, and why the
    records it points at stay put while files grow and new files appear. */
module KeyIndex {
  import opened Bytes
  import opened Errors
  import opened Entries
  import opened DataFiles
  /** An index item: the data file and the offset of a key's latest record. */
  datatype Item = Item(fileID: int64, entryOffset: int64)

  type Index = map<seq<byte>, Item>
  type FileMap = map<string, seq<byte>>

  /** The record an item points at, among the files of the directory `path`. */
  function RecordOf(path: string, files: FileMap, it: Item): Result<Decoded>
  {
    var name := DataFilePath(path, it.fileID);
    if name in files then RecordAt(files[name], it.entryOffset) else Err(ErrNotExist)
  }

  /** Every key of the index points, in an open data file, at a record that
      reads back and holds that key. */
  predicate IndexValid(index: Index, ids: set<int64>, path: string, files: FileMap)
  {
    forall k :: k in index ==>
      && index[k].fileID in ids
      && RecordOf(path, files, index[k]).Ok?
      && RecordOf(path, files, index[k]).value.record.key == k
  }

  /** Bitcask.Get on an index, the ids of the open data files and the files
      of the directory: no item, no open file for its id, a failed read, or
      the value of the record the item points at. */
  function Find(index: Index, ids: set<int64>, path: string, files: FileMap, key: seq<byte>): (r: Result<seq<byte>>)
    ensures key !in index ==> r == Err(ErrNoKey)
  {
    if key !in index then Err(ErrNoKey)
    else if index[key].fileID !in ids then Err(ErrNoDataFile)
    else
      match RecordOf(path, files, index[key])
      case Err(e) => Err(e)
      case Ok(d) => Ok(d.record.value)
  }

  /** On a valid index a read fails exactly for a key that is not in it. */
  lemma FindOnValidIndex(index: Index, ids: set<int64>, path: string, files: FileMap, key: seq<byte>)
    requires IndexValid(index, ids, path, files)
    ensures Find(index, ids, path, files, key).Ok? <==> key in index
    ensures key in index ==> Find(index, ids, path, files, key) == Ok(RecordOf(path, files, index[key]).value.record.value)
  {
  }

  /** Every record that reads back in `files` reads back the same in `files'`. */
  ghost predicate RecordsKept(path: string, files: FileMap, files': FileMap)
  {
    forall it: Item :: RecordOf(path, files, it).Ok? ==> RecordOf(path, files', it) == RecordOf(path, files, it)
  }

  /** Records kept twice over are kept. */
  lemma RecordsKeptTransitive(path: string, a: FileMap, b: FileMap, c: FileMap)
    requires RecordsKept(path, a, b) && RecordsKept(path, b, c)
    ensures RecordsKept(path, a, c)
  {
  }

  /** The record Put appends to a file reads back at the file's old end. */
  lemma RecordAtPut(file: seq<byte>, key: seq<byte>, value: seq<byte>)
    requires MetaLen + |key| < TwoTo32 && |value| < ValueSizeBound
    requires |file| + MetaLen + |key| + |value| <= MaxInt64
    ensures RecordAt(file + Encoding(NewRecord(key, value)), |file|)
         == Ok(Decoded(MetaLen + |key| + |value|, Stored(NewRecord(key, value))))
  {
    var r := NewRecord(key, value);
    RecordAtAppend(file, r);
    assert MetaLen + r.keySize + r.valueSize == MetaLen + |key| + |value|;
  }

  /** Appending bytes to a file moves no record. */
  lemma AppendKeepsRecords(path: string, files: FileMap, name: string, data: seq<byte>)
    requires name in files
    ensures RecordsKept(path, files, files[name := files[name] + data])
  {
    var files' := files[name := files[name] + data];
    forall it: Item | RecordOf(path, files, it).Ok?
      ensures RecordOf(path, files', it) == RecordOf(path, files, it)
    {
      if DataFilePath(path, it.fileID) == name {
        RecordAtExtend(files[name], data, it.entryOffset);
      }
    }
  }

  /** Creating a file that was not there moves no record. */
  lemma CreateKeepsRecords(path: string, files: FileMap, name: string)
    requires name !in files
    ensures RecordsKept(path, files, files[name := []])
  {
    forall it: Item | RecordOf(path, files, it).Ok?
      ensures RecordOf(path, files[name := []], it) == RecordOf(path, files, it)
    {
      assert DataFilePath(path, it.fileID) in files;
    }
  }

  /** With records kept and more files open, the index stays valid and every
      key reads as before. */
  lemma FindAfterGrowth(index: Index, ids: set<int64>, ids': set<int64>, path: string, files: FileMap, files': FileMap)
    requires IndexValid(index, ids, path, files) && ids <= ids' && RecordsKept(path, files, files')
    ensures IndexValid(index, ids', path, files')
    ensures forall k :: Find(index, ids', path, files', k) == Find(index, ids, path, files, k)
  {
    forall k | k in index
      ensures RecordOf(path, files', index[k]) == RecordOf(path, files, index[k])
    {
    }
  }

  /** Appending to a file, after changes that kept every record, keeps the
      index valid and every key reading as before those changes. */
  lemma FindAfterAppend(index: Index, ids: set<int64>, ids': set<int64>, path: string,
                        files0: FileMap, files: FileMap, name: string, data: seq<byte>)
    requires IndexValid(index, ids, path, files0) && ids <= ids' && RecordsKept(path, files0, files)
    requires name in files
    ensures IndexValid(index, ids', path, files[name := files[name] + data])
    ensures forall k :: Find(index, ids', path, files[name := files[name] + data], k) == Find(index, ids, path, files0, k)
  {
    AppendKeepsRecords(path, files, name, data);
    RecordsKeptTransitive(path, files0, files, files[name := files[name] + data]);
    FindAfterGrowth(index, ids, ids', path, files0, files[name := files[name] + data]);
  }

  /** Pointing a key at a record of that key keeps the index valid, makes the
      key read that record's value and leaves every other key alone. */
  lemma FindAfterInsert(index: Index, ids: set<int64>, path: string, files: FileMap, key: seq<byte>, it: Item)
    requires IndexValid(index, ids, path, files) && it.fileID in ids
    requires RecordOf(path, files, it).Ok? && RecordOf(path, files, it).value.record.key == key
    ensures IndexValid(index[key := it], ids, path, files)
    ensures Find(index[key := it], ids, path, files, key) == Ok(RecordOf(path, files, it).value.record.value)
    ensures forall k :: k != key ==> Find(index[key := it], ids, path, files, k) == Find(index, ids, path, files, k)
  {
  }
}
