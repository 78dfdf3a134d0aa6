# Bitcask storage core in Dafny

A model of a small Bitcask-style key-value store written in Go. The model
covers its five core parts:

- **Record codec** (`entry.go`). A record is a 16-byte big-endian header
  followed by the key and the value. The header holds a CRC-32 (IEEE) of
  everything after it, the key size (4 bytes) and the value size (8 bytes).
  - `Entries.Encoding` and `Entries.Decode` are the pure codec.
  - The class `Entries.Entry` is the mutable `Entry`. Its `Encode` fills a
    zeroed `array<byte>` in place; `DecodeMeta` and `DecodeKV` overwrite its
    fields.
- **Data files** (`datafile.go`). The class `DataFiles.DataFile` holds the
  write `offset` and the `isActive` flag, and writes through a handle into a
  `Files.Directory`. The directory holds the contents of every file by path.
  - `Write` refuses a write that would pass `math.MaxInt64` and deactivates
    the file.
  - `ReadAt` is specified by the pure reader `DataFiles.RecordAt`.
- **Hint files** (`hint.go`). A second codec (key size, offset, key) and the
  `HintFile` writer. The writer streams hints through a 4096-byte
  `bufio.Writer` and opens a new file whenever the file id changes.
- **Engine** (`db.go`). The class `Engine.Bitcask` holds the index, `currID`,
  the active data file and the map of open data files.
  - `Put` writes, rotates the active file at 30 bytes and points the key at
    its record. `Get` reads the key back.
  - The invariant `Bitcask.Valid` keeps every indexed key readable across
    writes and rotations.
- **File-name helpers** (`util.go`). Parsing a file id, stripping a
  directory prefix and renumbering a file name.

Go's fixed-width integers are subset types of `int` (`Bytes.uint32`,
`Bytes.uint64`, `Bytes.int64`). Every conversion and sum that can wrap in
the source is written out with `ToUint32`, `ToUint64` or `ToInt64`. Bytes
are `Bytes.byte`, an `int` in 0..255. Errors that the source builds with
`errors.New("")` get a name per failing branch (`Errors.Error`). Where
the source panics on the bytes it reads or on a nil writer, the model
returns `ErrPanic`: `Entries.Decode`, `DataFiles.BodyAt`,
`DataFiles.RecordAt`, `DataFiles.DataFile.ReadAt`,
`Hints.WriteHintAsWritten` and `Hints.WriteHint` do this. The decoding
methods `Entries.Entry.DecodeMeta`, `Entries.Entry.DecodeKV` and
`Hints.HintEntry.Decode` instead require the buffer length that the
source's callers supply (`HintEntry.Decode` has no caller). The other panics ruled out by a
precondition are listed under "Left out".

The shown Go files do not agree with each other in two places, and the
model follows the signatures the files themselves declare:

- `db.go` calls `NewDataFile` without the directory argument that
  `datafile.go` declares. The engine therefore takes its directory as a
  field and passes it on. `Open` takes that directory as its parameter.
- `db.go` expects two results from `DataFile.ReadAt`, which returns three.
  `Bitcask.GetAt` returns the decoded entry.

## Model

| member | source | states |
|---|---|---|
| Bytes.ToUint32 | entry.go:26 | a Go uint32 conversion keeps every value that fits in 32 bits |
| Bytes.ToUint64 | entry.go:27 | a Go uint64 conversion keeps every value that fits in 64 bits |
| Bytes.ToInt64 | datafile.go:113 | int64 arithmetic keeps every result in the int64 range (wraps otherwise) |
| Bytes.BigEndian | entry.go:39-40 | PutUint32/PutUint64 write exactly `width` bytes |
| Bytes.FromBigEndian | entry.go:49-51 | Uint32/Uint64 read a number below 256^n from n bytes |
| Bytes.FromBigEndianOfBigEndian | entry.go:49-51 | reading big-endian bytes gives back the number written, when it fits the width |
| Bytes.BigEndianOfFromBigEndian | entry.go:49-51 | writing the number read gives back the bytes |
| Bytes.GetUint32OfBigEndian | entry.go:49-50 | Uint32 over 4 bytes from PutUint32 is the number put |
| Bytes.GetUint64OfBigEndian | entry.go:51 | Uint64 over 8 bytes from PutUint64 is the number put |
| Bytes.Fill | entry.go:55-58 | make-then-copy gives n bytes: the source's bytes where it has them, zeros after |
| Bytes.CopyOver | hint.go:135 | copy into existing storage keeps its length and overwrites its first min(len) bytes |
| Bytes.CopyOverIsSource | hint.go:135 | such a copy leaves exactly the source iff the two lengths are equal |
| Bytes.Zeros | entry.go:38 | make([]byte, n) holds n zero bytes |
| Bytes.FillIsPrefixAndZeros | entry.go:41-42 | a copied field is the source's prefix followed by zero padding |
| Bytes.WriteAfter | entry.go:39-42 | a write at or past the written prefix of a zeroed buffer leaves prefix, zeros, data, zeros |
| Bytes.CopyAt | entry.go:39-41 | writing into a sub-slice sets exactly those bytes and keeps every other byte |
| Bytes.CopyOntoZeros | entry.go:38-42 | the buffer after each of Encode's copies holds what was written so far and zeros |
| Bytes.CopyOntoFront | entry.go:44 | writing the crc in front of the payload gives crc followed by payload |
| Files.Directory.constructor | datafile.go:23 | a directory holds its path and its files' contents |
| Files.OpenFile | datafile.go:34-37 | O_CREATE creates a missing file empty and keeps an existing one; a read-only open of a missing file fails with ErrNotExist and changes nothing |
| Files.ReadBytes | datafile.go:81-84 | ReadAt succeeds iff the offset is non-negative and all n bytes lie in the file, and then gives those bytes |
| Files.ReadBytesExtend | datafile.go:81 | a read that succeeds reads the same bytes after more are appended |
| Files.Append | datafile.go:112 | the write adds the bytes at the end of the handle's file and changes no other file |
| Files.Appended | datafile.go:112 | an append keeps the set of files, every other file, and adds data only through a writable handle |
| FileNames.Digits | datafile.go:13 | "%d" of a natural number is a non-empty string of decimal digits |
| FileNames.Itoa | util.go:30 | Itoa has no '.', and starts with a digit or, for a negative number, with '-' |
| FileNames.DecimalValueOfDigits | util.go:19 | the value of the printed digits is the number |
| FileNames.AtoiOfItoa | util.go:19 | Atoi(Itoa(n)) == n for every int64 |
| FileNames.LastIndex | util.go:18 | LastIndex is -1 iff the character is absent; otherwise it is a position of it with none after |
| FileNames.GetFileIDWithoutDot | util.go:17-21 | without a '.', getFileID parses the whole name |
| FileNames.DigitRun | util.go:19 | the digits strconv reads before it stops: a prefix of the text, all digits, and followed by a non-digit or by nothing |
| FileNames.AtoiOfNumber | util.go:19 | Atoi of a sign and digits is their value, clamped to the int64 range |
| FileNames.AtoiOverflow | util.go:19 | once the digits read pass math.MaxUint64, Atoi gives math.MaxInt64 (math.MinInt64 after '-') whatever follows them |
| FileNames.AtoiNotANumber | util.go:19 | text that is not a sign and digits gives 0 when its leading digits do not overflow (the Atoi error is dropped) |
| FileNames.GetFileIDNotANumber | util.go:17-21 | getFileID is 0 when the text after the last '.' is not a sign and digits and its leading digits do not pass math.MaxUint64 |
| FileNames.GetFileIDOverflow | util.go:17-21 | getFileID is math.MaxInt64 (math.MinInt64 after '-') when the digits after the last '.' pass math.MaxUint64, whatever follows them |
| FileNames.GetFileIDOverflowExample | util.go:17-21 | getFileID of "a." + twenty '9's + "z" is math.MaxInt64, and Atoi of "-" + twenty '9's + "z" is math.MinInt64 |
| FileNames.GetFileIDOfName | util.go:17-21 | getFileID of any prefix ending in '.' followed by "%d" of id is id |
| FileNames.LastIndexPastSuffix | util.go:18 | the last '.' of a name is the one that ends its prefix when the id has none |
| FileNames.TrimPrefix | util.go:24 | TrimPrefix removes a matching prefix exactly and otherwise returns the string |
| FileNames.GetOriginFileName | util.go:23-25 | the name relative to dir when dir is its prefix, the name unchanged otherwise |
| FileNames.ReplaceAllAfter | util.go:30 | Replace leaves a prefix alone when none of its characters can start the pattern |
| FileNames.ReplaceAllOfEnding | util.go:30 | Replace on a name that ends in the pattern, once, replaces that ending only |
| FileNames.RenumberOfName | util.go:29-30 | renumbering "prefix.id" gives "prefix.(id+delta)" in int64 arithmetic |
| FileNames.GetNewFileNameRenumbers | util.go:27-32 | getNewFileName moves "prefix.id" from the old directory to "prefix.(id+delta)" in the new one |
| FileNames.OriginOfJoin | util.go:28 | a name joined under dir and then made relative to dir keeps the separating '/' |
| FileNames.JoinRooted | util.go:31 | joining the rooted and the relative form of a name gives the same path |
| FileNames.GetNewFileNameExample | db_test.go:110 | data file 0 of "/tmp/bitcask/tmp_db" renumbered by 3 is "/tmp/bitcask/bitcask.data.3" |
| Entries.Record.Size | entry.go:33-35 | Size is 16 + keySize + valueSize whenever that fits in uint64 |
| Entries.NewRecord | entry.go:23-31 | NewEntry keeps key and value, has crc 0, and sizes equal to the lengths when they fit |
| Entries.Payload | entry.go:39-42 | the bytes after the crc are 8 + 4 + keySize + valueSize long |
| Entries.Encoding | entry.go:37-46 | the encoded record is 16 + keySize + valueSize bytes long |
| Entries.Decode | entry.go:61-71 | Decode succeeds iff the buffer holds a header and the key fits (its uint32 sum not wrapping); a short buffer or a key past its end panics; key and value have the decoded sizes |
| Entries.DecodedMeta | entry.go:48-52 | DecodeMeta leaves key and value alone |
| Entries.DecodedKV | entry.go:54-59 | DecodeKV keeps the header fields and gives key and value their sizes |
| Entries.EncodingLayout | entry.go:39-44 | crc of bytes [4..) in [0,4), keySize in [4,8), valueSize in [8,16), key, then value |
| Entries.Stored | entry.go:43 | the stored record keeps both sizes and has key and value of those sizes |
| Entries.DecodeEncoding | entry.go:61-71 | Decode of an encoding gives the sizes, key, value and the crc Encode computed |
| Entries.EncodedHeader | entry.go:48-52 | DecodeMeta on an encoded header reads the crc and both sizes |
| Entries.EncodedBody | entry.go:54-59 | DecodeKV on an encoded body, after its header, gives the stored record |
| Entries.NewEntryRoundTrip | entry_test.go:10-14 | Decode(Encode(NewEntry(k, v))) gives k, v, their lengths and the computed crc |
| Entries.SplitDecode | entry.go:48-59 | DecodeMeta then DecodeKV agrees with Decode, and differs only where Decode's uint32 sum wraps |
| Entries.DecodeIgnoresChecksum | entry.go:63 | any four bytes in the crc's place decode the same way, with that crc: the crc is never checked |
| Entries.Entry.Empty | entry.go:62 | &Entry{} has every field zero |
| Entries.Entry.constructor | entry.go:23-31 | NewEntry's fields are NewRecord's |
| Entries.Entry.Encode | entry.go:37-46 | Encode returns Size() and a fresh buffer of that length holding the encoding, and sets crc to the CRC of bytes [4..) |
| Entries.Entry.DecodeMeta | entry.go:48-52 | DecodeMeta overwrites exactly the three header fields with the values read |
| Entries.Entry.DecodeKV | entry.go:54-59 | DecodeKV overwrites exactly key and value with the bytes read |
| Entries.BufferAfterCopies | entry.go:38-43 | after the copies, Encode's buffer is four zeros followed by the payload the crc covers |
| DataFiles.DataFileNameId | datafile.go:13 | getFileID of "bitcask.data.<id>" is id |
| DataFiles.DataFilePathInjective | datafile.go:33 | different ids give different data file paths |
| DataFiles.RecordAt | datafile.go:75-95 | ReadAt fails when fewer than 16 bytes remain after the offset, and succeeds only inside the file |
| DataFiles.BodyAt | datafile.go:88-94 | a body length past math.MaxInt64 panics; a readable body shorter than keySize panics; success iff the length fits, the body is readable and holds the key; a body read gives key and value of the header's sizes |
| DataFiles.RecordAtHeader | datafile.go:80-86 | with 16 bytes at o, ReadAt reads the body under the header found there |
| DataFiles.BodyAtFits | datafile.go:88-94 | a body inside the file reads whole and the record takes 16 + keySize + valueSize bytes |
| DataFiles.BodyAtShort | datafile.go:89-92 | a body running past the end of the file fails to read |
| DataFiles.BodyAtExtend | datafile.go:89 | a body read that succeeds reads the same after an append |
| DataFiles.RecordAtShortBody | datafile.go:88-92 | ReadAt fails when the header's body does not fit in what is left |
| DataFiles.RecordAtIsDecode | datafile.go:75-95 | a record ReadAt reads is Decode of the bytes it consumed, and o + consumed lies inside the file |
| DataFiles.BodyFitsOfOk | datafile.go:89-92 | a body read that succeeds lies inside the file |
| DataFiles.DecodeOfParts | datafile.go:86-93 | a buffer holding exactly a header and its body decodes as that header with the body |
| DataFiles.RecordAtAppend | datafile_test.go:16-27 | the record Write appended reads back at the offset it was written to, with key, value, sizes and crc |
| DataFiles.RecordAtAppendBytes | datafile.go:80-94 | bytes appended whose header and body read as a record read back as it from the old end |
| DataFiles.RecordAtExtend | datafile.go:75-95 | appending to a file changes no record already readable in it |
| DataFiles.WriteOverflowsExactly | datafile.go:106 | Write's uint64 guard refuses exactly the writes that would end past math.MaxInt64 |
| DataFiles.DataFile.constructor | datafile.go:38-43 | a new DataFile has its handle, its id, offset 0 and the given active flag |
| DataFiles.DataFile.Size | datafile.go:71-73 | Size is the offset |
| DataFiles.DataFile.ReadAt | datafile.go:75-95 | ReadAt gives the consumed count and a fresh entry exactly as RecordAt reads the file's current contents, and RecordAt's error otherwise |
| DataFiles.DataFile.Write | datafile.go:99-115 | a refused write returns the offset, appends nothing and deactivates; an accepted one returns the old offset, appends the encoding and advances the offset by Size(); both set the entry's crc |
| DataFiles.NewDataFile | datafile.go:23-44 | opens "bitcask.data.<id>" with offset 0 and the given flag; an active open creates the file when missing, a read-only open fails iff it is missing |
| DataFiles.NewDataFileAtPath | datafile.go:46-65 | newDataFile opens by path, leaves the id 0 and always marks the file active |
| KeyIndex.Find | db.go:52-56 | a key absent from the index reads as ErrNoKey |
| KeyIndex.FindOnValidIndex | db.go:52-66 | on a valid index a read succeeds iff the key is indexed, and gives the value of the record its item points at |
| KeyIndex.RecordAtPut | db.go:104-117 | the record put appends reads back at the file's old end with the key, the value and their lengths |
| KeyIndex.AppendKeepsRecords | datafile.go:112 | an append moves no readable record |
| KeyIndex.CreateKeepsRecords | db.go:83 | creating a missing file moves no readable record |
| KeyIndex.FindAfterGrowth | db.go:68-98 | with records kept and more files open, the index stays valid and every key reads as before |
| KeyIndex.FindAfterAppend | db.go:112 | an append after such changes keeps the index valid and every key reading as before |
| KeyIndex.FindAfterInsert | db.go:48 | pointing a key at a record of it keeps the index valid, makes the key read that value, and no other key changes |
| Hints.HintFileNameId | hint.go:14 | getFileID of "bitcask.hint.<id>" is id |
| Hints.HintFilePathInjective | hint.go:62 | different ids give different hint file paths |
| Hints.NewHintRecord | hint.go:108-114 | newHintEntry keeps the key, sets keySize to its length when it fits, and reinterprets a negative offset as offset + 2^64 |
| Hints.HintSize | hint.go:116-118 | Size is 12 + keySize, except that the uint32 sum wraps below 12 for keys within 12 bytes of 2^32 |
| Hints.HintEncoding | hint.go:120-129 | an encoded hint is 12 + keySize bytes long |
| Hints.DecodedHint | hint.go:131-136 | Decode keeps the length of the key storage the entry already has |
| Hints.HintEncodingLayout | hint.go:123-126 | keySize in [0,4), offset in [4,12), then the key cut or padded to keySize |
| Hints.HintRoundTrip | hint.go:131-136 | Decode(Encode(h)) recovers keySize and offset exactly; the key comes back iff the receiver's key storage already has keySize bytes |
| Hints.NewHintRoundTrip | hint.go:108-114 | a new hint decoded into storage of the key's length gives the key and the offset back |
| Hints.HintEntry.Empty | hint.go:94 | &HintEntry{} has every field zero |
| Hints.HintEntry.constructor | hint.go:108-114 | newHintEntry's fields are NewHintRecord's |
| Hints.HintEntry.Encode | hint.go:120-129 | Encode returns Size() and a fresh buffer of that length holding the encoding |
| Hints.HintEntry.Decode | hint.go:131-136 | Decode leaves exactly what DecodedHint says |
| Hints.HintAt | hint.go:84-106 | ReadAt takes 12 + keySize bytes, all of them inside the file, and returns the key empty |
| Hints.HintAtAppend | hint.go:84-106 | a hint appended to a file reads back from its offset with keySize and offset, and without its key |
| Hints.BufWrite | hint.go:72 | bufio.Writer.Write passes on and keeps bytes that together are the old buffer and the new bytes, keeps at most 4096, and passes nothing on while all fit |
| Hints.FlushState | hint.go:77-82 | Flush is a no-op without a file or a writer; otherwise it empties the buffer; file, id and offset stay |
| Hints.FlushKeepsHints | hint.go:77-82 | flushing keeps the writer's invariant and no file's hints change |
| Hints.WriteHintAsWritten | hint.go:50-75 | WriteHint rebinds iff no file is open or the id differs, then has fileID set and a writer; offset grows by the hint's size and is never reset; a reused OpenHintFile handle has no writer and panics |
| Hints.WriteEncoded | hint.go:55-73 | the same for any encoded hint: rebind, write through the writer, add the size to the running offset |
| Hints.WriteWithoutLoss | hint.go:55-73 | when no buffered bytes are left behind, a write adds the hint to its own file's hints and no other file's hints change |
| Hints.WriteReboundWithoutLoss | hint.go:55-73 | the same after a rebind with an empty buffer |
| Hints.WriteInPlaceWithoutLoss | hint.go:70-73 | the same when the writer already targets the hint's file |
| Hints.WriteHintFlushingKeepsHints | hint.go:55-73 | with a flush before a rebind, WriteHint adds the hint to its own file and loses nothing |
| Hints.WriteHintAsWrittenDropsHints | hint.go:56-68 | as written, moving to another file while the writer buffers bytes loses those bytes |
| Hints.WriteHintLosesBufferedHint | hint.go:56-68 | one buffered hint for file 1, then a hint for file 2: file 1 ends up empty |
| Hints.HintFile.constructor | hint.go:33-35 | NewHintFile has no file, no writer, id and offset 0 |
| Hints.HintFile.Opened | hint.go:43-47 | the HintFile OpenHintFile returns has the file, its id, offset 0 and no writer |
| Hints.HintFile.Bind | hint.go:62-68 | the rebind opens the hint file of the id for writing (creating it), sets fileID and a new empty writer, and keeps the offset |
| Hints.HintFile.Flush | hint.go:77-82 | Flush does what FlushState says to the fields and the files |
| Hints.HintFile.ReadAt | hint.go:84-106 | ReadAt gives what HintAt gives on the file's contents, and fails on a HintFile without a file |
| Hints.OpenHintFile | hint.go:37-48 | opening read-only succeeds iff the hint file exists, with offset 0 and no writer; nothing changes on disk |
| Hints.WriteBuffered | hint.go:72 | a buffered write sends BufWrite's flushed part to the target file and keeps the rest |
| Hints.WriteHint | hint.go:50-75 | WriteHint on a nil receiver fails; otherwise its result, fields and files are WriteHintAsWritten's, and the hint file's invariant holds again |
| Hints.WriteHintKeepsInv | hint.go:50-75 | writing as written keeps the hint file's invariant whatever was buffered, so writes chain |
| Hints.WriteHintAfterFlush | hint.go:55-69 | the corrected WriteHint: result, fields and files are WriteHintFlushing's |
| Engine.DueSumFits | db.go:71 | an int64 sum size + add that overflows wraps negative, so a due rotation never overflowed |
| Engine.AppendKeepsLayout | db.go:112 | appending to a file keeps every open data file the file of its id |
| Engine.RotationKeepsLayout | db.go:81-95 | rotation keeps that layout, with the next id's file created empty |
| Engine.Bitcask.constructor | db.go:22-26 | a new database has an empty index, currID 0 and one data file at id 0 |
| Engine.Bitcask.Get | db.go:52-66 | Get returns exactly Lookup: ErrNoKey, ErrNoDataFile, the read error, or the record's value |
| Engine.Bitcask.GetAt | db.go:100-102 | get returns the entry ReadAt decodes, or its error |
| Engine.Bitcask.RotateIfNeeded | db.go:68-98 | below the limit nothing changes; at the limit currID grows by 1, a fresh active file at offset 0 takes the new id, the old id is reopened inactive, no other map entry changes; Valid and every key's record are kept |
| Engine.Bitcask.WriteToActive | db.go:112-116 | the write succeeds iff the record fits below math.MaxInt64, returns the old offset, advances it by the record's size, and the record then reads back there in file currID; a failed write changes no file |
| Engine.Bitcask.PutRecord | db.go:104-117 | put fails with ErrInactive on an inactive file; it succeeds iff the active file is active and the record fits; the record then reads back at the returned offset of file currID and ends at the active file's end; the index is unchanged and every key reads as before |
| Engine.Bitcask.Put | db.go:38-50 | on success index[key] is (currID, the offset Write returned), the record there holds key and value and ends at the active file's end, and Lookup(key) is the value; on failure the index is unchanged; no other key changes; Valid is kept |
| Engine.Bitcask.Point | db.go:44-48 | the index update points key at the item, makes it read the record's value and leaves other keys alone |
| Engine.Open | db.go:21-36 | Open gives an empty index, currID 0 and an active data file 0 at offset 0 registered as datafiles[0]; Valid holds for a directory without data files |
| Engine.PutTwiceThenGet | db_test.go:23-38 | after Put("key", "value") and Put("key1", "value2") (which rotates), Get returns each key's own value |
| Engine.OpenThenPut | db_test.go:23-25 | a put on a database just opened reads back, for any key and value Put accepts, even one larger than a data file |

## Left out

- Operating-system failures other than a missing file are left out: permissions, a full disk, and errors from `Close`. `os.OpenFile` with `O_CREATE` always succeeds, so `checkIfNeeded` and `Open` cannot fail in the model. `DataFile.Close` and `HintFile`'s closing of its previous file are not modelled.
- `bufio.Writer` write errors are not modelled. Its buffering is modelled (`Hints.BufWrite`).
- Durability is not modelled. The source never calls fsync, so bytes in the directory map are what a reader of the file sees.
- `path.Join` is modelled for clean inputs: one '/' between a directory and a name (`FileNames.Join`). Lexical cleaning of "..", "." and repeated slashes is not.
- `Crc32.ChecksumIEEE` is defined bit by bit and is used only through where it is placed and what it covers. Nothing is proved about the polynomial arithmetic.
- Concurrency is left out: the shown engine has no locks.
- Entries.Decode: the Go runtime's allocation limit is not modelled. `make([]byte, valueSize)` panics for a length above that limit (2^48 bytes on 64-bit Linux) and fails for lack of memory well below it; the model returns the zero-padded value instead.
- DataFiles.BodyAt: the same allocation limit is not modelled for `make([]byte, keySize + valueSize)`. Only a body length past math.MaxInt64 panics; a smaller huge length goes on to the read, which fails with ErrEOF unless the file holds that many bytes. DataFiles.RecordAt and DataFiles.DataFile.ReadAt inherit this.
- Entries.Entry.DecodeMeta: requires at least 16 bytes. The source panics on a shorter buffer, but its only caller, `DataFile.ReadAt`, always passes 16 bytes.
- Entries.Entry.DecodeKV: requires at least keySize bytes. The source panics on fewer, but `DataFile.ReadAt` returns `ErrPanic` before it calls `DecodeKV` on such a body.
- Hints.HintEntry.Decode: requires at least 12 bytes. The source panics on fewer; nothing in the shown sources calls it.
- `strconv.Atoi` is modelled for a 64-bit `int`, where it parses through `strconv.ParseInt` with 64 bits.
- Entries.Entry.DecodeKV: the allocations `make([]byte, keySize)` and `make([]byte, valueSize)` are assumed to succeed, as for Entries.Decode.
- Entries.Entry.Encode: the allocation of `make([]byte, e.Size())` is assumed to succeed for every entry that satisfies `Encodable`, however large.
- `Del`, `merge`, record flags, rebuilding the index from hint files at start-up, `Keys` and `filepath.Glob` are used by the tests but are not in the shown sources.
- The logrus set-up in `util.go`, benchmarks and profiling are not modelled.
- Engine.Bitcask.Put: requires a key and value that the uint32 and uint64 size fields hold, whose record fits in math.MaxInt64, and `currID < MaxInt64`. The source does not check these; with larger sizes its `Encode` panics or its sums wrap.
- Engine.Bitcask.PutRecord: has the same requires as `Put`.
- Entries.Entry.Encode: requires `Encodable`: valueSize under the bound documented on the struct, and a uint32 sum 16 + keySize that does not wrap. The source panics otherwise.
- DataFiles.DataFile.Write: requires `Encodable` of the entry, for the same reason.
- Hints.HintEntry.Encode: requires a Size that does not wrap. With a wrapped size the buffer is shorter than 12 bytes and the source panics.
- Engine.Open: promises `Valid` only for a directory that holds no data files. `NewDataFile` sets offset 0 even for a file that already holds records, so an existing data file 0 breaks the offset invariant.
- Engine.Bitcask.Get: requires `FilesOpen`, that every open data file is the file of its id (part of `Valid`). Without it, `Lookup` would not describe what the open handles read.
- Hints.WriteHint: requires `HintInv`: the writer, when there is one, targets the open file of the current id. It also requires a key within the uint32 limit. The model does not cover a `HintFile` moved between directories.
- Hints.HintFile.Bind, Hints.WriteEncoded, Engine.Bitcask.WriteToActive, Engine.Bitcask.Point and Engine.OpenThenPut are parts of inline code in the source, split out so that each can be proved on its own.

## Findings

| source | as written | input that shows it | evidently intended | confidence | as-written member | corrected member |
|---|---|---|---|---|---|---|
| hint.go:56-68 | when `WriteHint` moves to another file id it closes the old file and replaces its `bufio.Writer` without flushing it, so hints still buffered for the old file never reach it | `WriteHint(dir, 1, "", 0)` followed by `WriteHint(dir, 2, "", 12)`: the 12-byte hint for file 1 stays in the dropped buffer and file 1 remains empty | flush the writer before closing the old file, so every hint written reaches its own file | not executed; follows from the code as written | Hints.WriteHintAsWrittenDropsHints, Hints.WriteHintLosesBufferedHint | Hints.WriteHintFlushingKeepsHints, Hints.WriteHintAfterFlush |
