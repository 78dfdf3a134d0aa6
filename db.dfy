/** The engine of db.go: an in-memory index from keys to the place of their
    latest record, an active data file that takes every write, and the data
    files that were active before it, reopened read-only. */
module Engine {
  import opened Bytes
  import opened Errors
  import opened Files
  import opened Entries
  import opened DataFiles
  import opened KeyIndex

  /** defaultMaxFileSize: the size at which the active file is rotated. */
  const DefaultMaxFileSize: int64 := 30

  /** The guard of checkIfNeeded: a rotation is due when the active file's
      size plus the bytes to add reaches the limit, in int64 arithmetic. */
  predicate RotationDue(size: int64, add: int64)
  {
    ToInt64(size + add) >= DefaultMaxFileSize
  }

  /** A sum that overflows int64 wraps negative and so is never due; a due
      sum therefore did not overflow. */
  lemma DueSumFits(size: int64, add: int64)
    requires 0 <= size && 0 <= add
    ensures RotationDue(size, add) ==> size + add <= MaxInt64
  {
  }

  /** A data file as the engine keeps it open under id in dir. */
  predicate Opens(df: DataFile, dir: Directory, id: int64)
  {
    df.f.dir == dir && df.f.name == DataFilePath(dir.path, id) && df.fileID == id
  }

  /** Every open data file is the file of its id, which exists, and no file
      exists yet for an id past the current one. */
  predicate FilesLaidOut(datafiles: map<int64, DataFile>, dir: Directory, currID: int64, files: FileMap)
  {
    && (forall id :: id in datafiles ==> Opens(datafiles[id], dir, id) && 0 <= id <= currID)
    && (forall id :: id in datafiles ==> DataFilePath(dir.path, id) in files)
    && (forall id: int64 :: currID < id ==> DataFilePath(dir.path, id) !in files)
  }

  /** Appending to an existing file keeps the files laid out. */
  lemma AppendKeepsLayout(datafiles: map<int64, DataFile>, dir: Directory, currID: int64, files: FileMap, name: string, data: seq<byte>)
    requires FilesLaidOut(datafiles, dir, currID, files) && name in files
    ensures FilesLaidOut(datafiles, dir, currID, files[name := files[name] + data])
  {
  }

  /** Rotation keeps the files laid out: the next id gets a new empty file
      and a writable data file, the current id its data file reopened. */
  lemma RotationKeepsLayout(datafiles: map<int64, DataFile>, dir: Directory, currID: int64, files: FileMap,
                            next: DataFile, reopened: DataFile)
    requires FilesLaidOut(datafiles, dir, currID, files) && 0 <= currID < MaxInt64 && currID in datafiles
    requires Opens(next, dir, currID + 1) && Opens(reopened, dir, currID)
    ensures FilesLaidOut(datafiles[currID + 1 := next][currID := reopened], dir, currID + 1,
                         files[DataFilePath(dir.path, currID + 1) := []])
  {
    var name := DataFilePath(dir.path, currID + 1);
    forall id: int64 | currID + 1 < id
      ensures DataFilePath(dir.path, id) != name
    {
      if DataFilePath(dir.path, id) == name {
        DataFilePathInjective(dir.path, id, currID + 1);
      }
    }
  }

  /** The engine's invariant on the fields of a database, with the active
      file's offset and the files of the directory passed in: see
      Bitcask.Valid. */
  predicate Consistent(index: Index, currID: int64, active: DataFile, activeOffset: int64,
                       datafiles: map<int64, DataFile>, dir: Directory, files: FileMap)
  {
    && 0 <= currID
    && currID in datafiles && datafiles[currID] == active
    && Opens(active, dir, currID) && active.f.writable
    && active.f.name in files && activeOffset == |files[active.f.name]|
    && FilesLaidOut(datafiles, dir, currID, files)
    && IndexValid(index, datafiles.Keys, dir.path, files)
  }

  /** A database. */
  class Bitcask {
    const dir: Directory
    var index: Index
    var currID: int64
    var active: DataFile
    var datafiles: map<int64, DataFile>

    /** What the engine keeps true: the active file is datafiles[currID],
      opened for writing, with its offset at the end of its file; every open
      data file is the file of its id, no file exists yet for an id past
      currID, and the index is valid. */
    predicate Valid()
      reads this, dir, active
    {
      Consistent(index, currID, active, active.offset, datafiles, dir, dir.files)
    }

    /** What Get returns for key: Find on the index, the open data files and
      the files of the directory. */
    function Lookup(key: seq<byte>): Result<seq<byte>>
      reads this, dir
    {
      Find(index, datafiles.Keys, dir.path, dir.files, key)
    }

    /** The literal Open builds around its first data file. */
    constructor (dir: Directory, df: DataFile)
      ensures this.dir == dir && index == map[] && currID == 0
      ensures active == df && datafiles == map[0 := df]
    {
      this.dir := dir;
      index := map[];
      currID := 0;
      active := df;
      datafiles := map[0 := df];
    }

    /** Every open data file is the file of its id in dir (part of Valid). */
    predicate FilesOpen()
      reads this
    {
      forall id :: id in datafiles ==> Opens(datafiles[id], dir, id)
    }

    /** Bitcask.Get: on a valid database the read fails exactly for a key
      that is not in the index (Find's contract). */
    method Get(key: seq<byte>) returns (r: Result<seq<byte>>)
      requires FilesOpen()
      ensures r == Lookup(key)
    {
      if key !in index {
        return Err(ErrNoKey);
      }
      var it := index[key];
      if it.fileID !in datafiles {
        return Err(ErrNoDataFile);
      }
      var e := GetAt(datafiles[it.fileID], it.entryOffset);
      if e.Err? {
        return Err(e.error);
      }
      return Ok(e.value.value);
    }

    /** Bitcask.get: the entry DataFile.ReadAt decodes. */
    method GetAt(df: DataFile, offset: int64) returns (r: Result<Entry>)
      ensures r.Ok? <==> RecordIn(df.f, offset).Ok?
      ensures r.Err? ==> r.error == RecordIn(df.f, offset).error
      ensures r.Ok? ==> r.value.View() == RecordIn(df.f, offset).value.record
    {
      var read := df.ReadAt(offset);
      if read.Err? {
        return Err(read.error);
      }
      return Ok(read.value.1);
    }

    /** Bitcask.checkIfNeeded: while the active file plus `add` bytes stays
      under the limit (in int64 arithmetic), nothing happens. Otherwise the
      active file is deactivated, the next id gets a new active file, and the
      old id is reopened read-only. Closing the old file is not modelled. */
    method RotateIfNeeded(add: int64)
      requires Valid() && currID < MaxInt64
      modifies this, dir, active
      ensures Valid() && index == old(index)
      ensures old(datafiles.Keys) <= datafiles.Keys && RecordsKept(dir.path, old(dir.files), dir.files)
      ensures !RotationDue(old(active.offset), add) ==>
        && currID == old(currID) && active == old(active) && datafiles == old(datafiles)
        && dir.files == old(dir.files) && active.isActive == old(active.isActive)
      ensures RotationDue(old(active.offset), add) ==>
        && currID == old(currID) + 1
        && fresh(active) && active.offset == 0 && active.isActive
        && !old(active).isActive
        && old(currID) in datafiles
        && fresh(datafiles[old(currID)]) && datafiles[old(currID)].offset == 0 && !datafiles[old(currID)].isActive
        && datafiles == old(datafiles)[old(currID) := datafiles[old(currID)]][currID := active]
        && dir.files == old(dir.files)[DataFilePath(dir.path, currID) := []]
    {
      var size := active.Size();
      if !RotationDue(size, add) {
        return;
      }
      ghost var files, ids, layout := dir.files, datafiles.Keys, datafiles;
      active.isActive := false;
      var oldID := currID;
      currID := currID + 1;
      // The new active file cannot fail to open: it is created.
      var next := NewDataFile(dir, currID, true);
      active := next.value;
      datafiles := datafiles[currID := active];
      // The old file cannot fail to reopen: it exists.
      var reopened := NewDataFile(dir, oldID, false);
      datafiles := datafiles[oldID := reopened.value];
      ghost var name := DataFilePath(dir.path, currID);
      assert dir.files == files[name := []];
      RotationKeepsLayout(layout, dir, oldID, files, active, reopened.value);
      CreateKeepsRecords(dir.path, files, name);
      FindAfterGrowth(index, ids, datafiles.Keys, dir.path, files, dir.files);
    }

    /** The write step of Bitcask.put: the entry for key and value goes to
      the end of the active file, where it reads back, and every record
      already there stays; when the active file would pass the int64 range,
      nothing is written. */
    method WriteToActive(e: Entry, key: seq<byte>, value: seq<byte>) returns (off: int64, err: Outcome)
      requires Valid() && e.View() == NewRecord(key, value)
      requires MetaLen + |key| < TwoTo32 && |value| < ValueSizeBound && MetaLen + |key| + |value| <= MaxInt64
      modifies dir, active`offset, active`isActive, e`crc
      ensures Valid() && RecordsKept(dir.path, old(dir.files), dir.files)
      ensures err == Pass <==> old(active.offset) + MetaLen + |key| + |value| <= MaxInt64
      ensures err == Pass ==> RecordOf(dir.path, dir.files, Item(currID, off))
                              == Ok(Decoded(MetaLen + |key| + |value|, Stored(NewRecord(key, value))))
      ensures err == Pass ==> active.isActive == old(active.isActive) && off == old(active.offset)
                              && active.offset == old(active.offset) + MetaLen + |key| + |value|
      ensures err.Fail? ==> dir.files == old(dir.files)
    {
      ghost var r := e.View();
      ghost var n := MetaLen + |key| + |value|;
      assert r.Size() == n;
      ghost var files, name, start := dir.files, active.f.name, active.offset;
      WriteOverflowsExactly(start, n);
      off, err := active.Write(e);
      if err.Fail? {
        off := 0;
      } else {
        assert dir.files == files[name := files[name] + Encoding(r)];
        assert active.offset == start + n == |dir.files[name]|;
        AppendKeepsLayout(datafiles, dir, currID, files, name, Encoding(r));
        FindAfterAppend(index, datafiles.Keys, datafiles.Keys, dir.path, files, files, name, Encoding(r));
        AppendKeepsRecords(dir.path, files, name, Encoding(r));
        assert off == |files[name]|;
        RecordAtPut(files[name], key, value);
        assert name == DataFilePath(dir.path, currID);
        assert RecordOf(dir.path, dir.files, Item(currID, off)) == RecordAt(files[name] + Encoding(r), |files[name]|);
      }
    }

    /** Bitcask.put: refuse when the active file is inactive; otherwise make
      the entry, rotate if the entry would take the active file to the limit,
      and write it there. */
    method PutRecord(key: seq<byte>, value: seq<byte>) returns (off: int64, err: Outcome)
      requires Valid() && currID < MaxInt64
      requires MetaLen + |key| < TwoTo32 && |value| < ValueSizeBound && MetaLen + |key| + |value| <= MaxInt64
      modifies this, dir, active
      ensures Valid() && index == old(index)
      ensures forall k :: Lookup(k) == old(Lookup(k))
      ensures !old(active.isActive) ==> err == Fail(ErrInactive) && dir.files == old(dir.files)
      ensures err == Pass <==> old(active.isActive) && old(active.offset) + MetaLen + |key| + |value| <= MaxInt64
      ensures err == Pass ==> RecordOf(dir.path, dir.files, Item(currID, off))
                              == Ok(Decoded(MetaLen + |key| + |value|, Stored(NewRecord(key, value))))
      ensures err == Pass ==> active.isActive && active.offset <= old(active.offset) + MetaLen + |key| + |value|
      ensures err == Pass ==> off + MetaLen + |key| + |value| == active.offset
      ensures currID <= old(currID) + 1 && (active == old(active) || fresh(active))
    {
      if !active.isActive {
        off, err := 0, Fail(ErrInactive);
      } else {
        var e := new Entry(key, value);
        ghost var n := MetaLen + |key| + |value|;
        assert e.View().Size() == n;
        ghost var files0, ids0, offset0 := dir.files, datafiles.Keys, active.offset;
        DueSumFits(offset0, n);
        RotateIfNeeded(ToInt64(e.View().Size()));
        ghost var files, start := dir.files, active.offset;
        assert active.isActive && (start == 0 || start == offset0);
        assert start + n <= MaxInt64 <==> offset0 + n <= MaxInt64;
        off, err := WriteToActive(e, key, value);
        RecordsKeptTransitive(dir.path, files0, files, dir.files);
        FindAfterGrowth(index, ids0, datafiles.Keys, dir.path, files0, dir.files);
      }
    }

    /** Bitcask.Put: write the record, then point the key at it: the item
      names file currID and the offset Write returned, where the record ends
      at the active file's new end. On an error the index is left as it was. */
    method Put(key: seq<byte>, value: seq<byte>) returns (err: Outcome)
      requires Valid() && currID < MaxInt64
      requires MetaLen + |key| < TwoTo32 && |value| < ValueSizeBound && MetaLen + |key| + |value| <= MaxInt64
      modifies this, dir, active
      ensures Valid()
      ensures err == Pass <==> old(active.isActive) && old(active.offset) + MetaLen + |key| + |value| <= MaxInt64
      ensures err == Pass ==> Lookup(key) == Ok(value)
      ensures err == Pass ==>
        && key in index && index == old(index)[key := index[key]] && index[key].fileID == currID
        && index[key].entryOffset + MetaLen + |key| + |value| == active.offset
        && RecordOf(dir.path, dir.files, index[key])
           == Ok(Decoded(MetaLen + |key| + |value|, Stored(NewRecord(key, value))))
      ensures err.Fail? ==> index == old(index) && Lookup(key) == old(Lookup(key))
      ensures forall k :: k != key ==> Lookup(k) == old(Lookup(k))
      ensures !old(active.isActive) ==> err == Fail(ErrInactive) && dir.files == old(dir.files)
      ensures err == Pass ==> active.isActive && active.offset <= old(active.offset) + MetaLen + |key| + |value|
      ensures currID <= old(currID) + 1 && (active == old(active) || fresh(active))
    {
      var offset;
      offset, err := PutRecord(key, value);
      if err == Pass {
        FillExact(key);
        FillExact(value);
        Point(key, Item(currID, offset));
      }
    }

    /** The index update of Bitcask.Put: key now points at the item, a record
      of that key in an open data file; every other key reads as before. */
    method Point(key: seq<byte>, it: Item)
      requires Valid() && it.fileID in datafiles
      requires RecordOf(dir.path, dir.files, it).Ok? && RecordOf(dir.path, dir.files, it).value.record.key == key
      modifies this`index
      ensures Valid() && index == old(index)[key := it]
      ensures Lookup(key) == Ok(RecordOf(dir.path, dir.files, it).value.record.value)
      ensures forall k :: k != key ==> Lookup(k) == old(Lookup(k))
    {
      FindAfterInsert(index, datafiles.Keys, dir.path, dir.files, key, it);
      index := index[key := it];
    }
  }

  /** Open, on the directory the engine keeps its files in: an empty index,
      currID 0, and data file 0 created when missing and made active. The
      data file starts at offset 0 even when it already holds records, so the
      engine's invariant is only promised for a directory without data files. */
  method Open(dir: Directory) returns (db: Bitcask)
    modifies dir
    ensures fresh(db) && db.dir == dir && db.index == map[] && db.currID == 0
    ensures fresh(db.active) && db.datafiles == map[0 := db.active]
    ensures db.active.isActive && db.active.offset == 0 && Opens(db.active, dir, 0)
    ensures var name := DataFilePath(dir.path, 0);
      dir.files == old(dir.files)[name := if name in old(dir.files) then old(dir.files)[name] else []]
    ensures (forall id: int64 :: 0 <= id ==> DataFilePath(dir.path, id) !in old(dir.files)) ==> db.Valid()
  {
    // Data file 0 cannot fail to open: it is created.
    var df := NewDataFile(dir, 0, true);
    db := new Bitcask(dir, df.value);
    forall id: int64 | 0 < id && (forall i: int64 :: 0 <= i ==> DataFilePath(dir.path, i) !in old(dir.files))
      ensures DataFilePath(dir.path, id) !in dir.files
    {
      if DataFilePath(dir.path, id) == DataFilePath(dir.path, 0) {
        DataFilePathInjective(dir.path, id, 0);
      }
    }
  }

  /** The opening of the source's database test: two puts on a new database,
      then each key reads back its own value. */
  method PutTwiceThenGet(dir: Directory) returns (first: Result<seq<byte>>, second: Result<seq<byte>>)
    requires forall id: int64 :: 0 <= id ==> DataFilePath(dir.path, id) !in dir.files
    modifies dir
    ensures first == Ok([118, 97, 108, 117, 101]) && second == Ok([118, 97, 108, 117, 101, 50])
  {
    var db := OpenThenPut(dir, [107, 101, 121], [118, 97, 108, 117, 101]);
    var err := db.Put([107, 101, 121, 49], [118, 97, 108, 117, 101, 50]);
    first := db.Get([107, 101, 121]);
    second := db.Get([107, 101, 121, 49]);
  }

  /** The first put of the database test, on a database just opened. */
  method OpenThenPut(dir: Directory, key: seq<byte>, value: seq<byte>) returns (db: Bitcask)
    requires forall id: int64 :: 0 <= id ==> DataFilePath(dir.path, id) !in dir.files
    requires MetaLen + |key| < TwoTo32 && |value| < ValueSizeBound && MetaLen + |key| + |value| <= MaxInt64
    modifies dir
    ensures fresh(db) && fresh(db.active) && db.dir == dir && db.Valid()
    ensures db.Lookup(key) == Ok(value)
    ensures db.currID <= 1 && db.active.isActive && db.active.offset <= MetaLen + |key| + |value|
  {
    db := Open(dir);
    var err := db.Put(key, value);
  }
}
