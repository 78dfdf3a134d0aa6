/** The operating system as the engine sees it: a directory of named byte
    sequences, and open-file handles that read at an offset and append. */
module Files {
  import opened Bytes
  import opened Errors

  /** A directory: its path and the contents of every file in it, by full path. */
  class Directory {
    const path: string
    var files: map<string, seq<byte>>

    constructor (path: string, files: map<string, seq<byte>>)
      ensures this.path == path && this.files == files
    {
      this.path := path;
      this.files := files;
    }
  }

  /** An open *os.File: the file it names and whether it was opened for writing
      (O_RDWR) or read-only (O_RDONLY). */
  datatype Handle = Handle(dir: Directory, name: string, writable: bool)

  /** os.OpenFile. With O_CREATE a missing file is created empty and an existing
      one keeps its contents; without it, a missing file is an error. */
  method OpenFile(dir: Directory, name: string, create: bool, writable: bool) returns (r: Result<Handle>)
    modifies dir
    ensures create ==> r == Ok(Handle(dir, name, writable))
    ensures create ==> dir.files == old(dir.files)[name := if name in old(dir.files) then old(dir.files)[name] else []]
    ensures !create ==> dir.files == old(dir.files)
    ensures !create ==> (r == Ok(Handle(dir, name, writable)) <==> name in dir.files)
    ensures !create && name !in dir.files ==> r == Err(ErrNotExist)
  {
    if name in dir.files {
      r := Ok(Handle(dir, name, writable));
    } else if create {
      dir.files := dir.files[name := []];
      r := Ok(Handle(dir, name, writable));
    } else {
      r := Err(ErrNotExist);
    }
  }

  /** os.File.ReadAt of n bytes at `off` on contents `file`: a negative offset is
      an error; reading nothing always succeeds; a read that does not fill all
      n bytes is an error (io.EOF). */
  function ReadBytes(file: seq<byte>, off: int, n: nat): (r: Result<seq<byte>>)
    ensures r.Ok? <==> 0 <= off && (n == 0 || off + n <= |file|)
    ensures r.Ok? ==> |r.value| == n
    ensures r.Ok? && n > 0 ==> r.value == file[off..off + n]
  {
    if off < 0 then Err(ErrNegativeOffset)
    else if n == 0 then Ok([])
    else if off + n > |file| then Err(ErrEOF)
    else Ok(file[off..off + n])
  }

  /** A read that succeeds reads the same bytes once more are appended. */
  lemma ReadBytesExtend(file: seq<byte>, more: seq<byte>, off: int, n: nat)
    requires ReadBytes(file, off, n).Ok?
    ensures ReadBytes(file + more, off, n) == ReadBytes(file, off, n)
  {
    if n > 0 {
      assert (file + more)[off..off + n] == file[off..off + n];
    }
  }

  /** Reading through a handle reads the current contents of its file. */
  function ReadFileAt(h: Handle, off: int, n: nat): Result<seq<byte>>
    reads h.dir
  {
    if h.name in h.dir.files then ReadBytes(h.dir.files[h.name], off, n) else Err(ErrNotExist)
  }

  /** os.File.Write on a file opened with O_APPEND: the bytes go to the end of the
      file. On a read-only handle the write fails; every caller in the source
      drops that error, so the model only records that nothing is written. */
  method Append(h: Handle, data: seq<byte>)
    modifies h.dir
    ensures h.dir.files == Appended(h, old(h.dir.files), data)
  {
    if h.writable && h.name in h.dir.files {
      h.dir.files := h.dir.files[h.name := h.dir.files[h.name] + data];
    }
  }

  /** What an append through h makes of the files: data added at the end of
      h's file when h may write to it, every other file as it was. */
  function Appended(h: Handle, files: map<string, seq<byte>>, data: seq<byte>): (r: map<string, seq<byte>>)
    ensures r.Keys == files.Keys
    ensures forall name :: name in files && name != h.name ==> r[name] == files[name]
    ensures h.name in files ==> r[h.name] == files[h.name] + (if h.writable then data else [])
  {
    if h.writable && h.name in files then files[h.name := files[h.name] + data] else files
  }
}
