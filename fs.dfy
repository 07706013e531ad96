/** The part of the operating system the updater touches: a file system of named
    files and directories, together with the calls the operating system refuses.
    Paths are canonical strings relative to the working directory. */
module Fs {

  datatype Option<+T> = None | Some(value: T)

  datatype Result<+T> = Ok(value: T) | Err(error: Error)

  type Path = string

  newtype byte = x: int | 0 <= x < 256

  type Bytes = seq<byte>

  /** The file-system calls the updater makes. */
  datatype Op = DirCreation | FileCreation | Opening | Writing | Reading | Renaming

  /** A call the operating system refuses (permission denied, file locked, disk full, ...).
      A refusal lasts for the whole run. A rename is refused for one source and destination. */
  datatype Refusal =
    | Refuse(op: Op, path: Path)
    | RefuseRename(from: Path, to: Path)

  /** Every failure the updater propagates with `?`. The Rust code boxes them all into one
      error value; here each keeps the kind of library it came from. An I/O error names the
      call and the path it was about (for a rename, the destination). */
  datatype Error =
    | IoError(op: Op, path: Path)
    | HttpError
    | JsonError
    | TomlError
    | ZipError
    | UpdateError(message: string)

  /** Joins a directory and a file name; the empty directory is the working directory. */
  function Join(dir: Path, name: string): (p: Path)
  {
    if dir == "" then name else dir + "/" + name
  }

  /** The contents of a file after writing `data` at offset 0 without truncating it. */
  function Overwrite(prior: Bytes, data: Bytes): (r: Bytes)
    ensures |r| == if |prior| <= |data| then |data| else |prior|
    ensures r[..|data|] == data
    ensures forall i :: |data| <= i < |r| ==> r[i] == prior[i]
  {
    if |prior| <= |data| then data else data + prior[|data|..]
  }

  /** Writing without truncation leaves exactly the new bytes in the file precisely when the
      old contents were no longer than them. */
  lemma {:induction false} OverwriteIsExact(prior: Bytes, data: Bytes)
    ensures Overwrite(prior, data) == data <==> |prior| <= |data|
  {
    if |data| < |prior| {
      assert |Overwrite(prior, data)| == |prior| != |data|;
    }
  }

  /** The two file maps hold the same files with the same bytes everywhere outside `changed`. */
  ghost predicate SameOutside(a: map<Path, Bytes>, b: map<Path, Bytes>, changed: set<Path>)
  {
    forall p :: p !in changed ==> (p in a <==> p in b) && (p in a ==> a[p] == b[p])
  }

  /** What the file system holds: a map from file paths to their bytes, the set of directory
      paths, and the calls the operating system refuses. */
  datatype Disk = Disk(files: map<Path, Bytes>, dirs: set<Path>, refused: set<Refusal>)
  {
    /** No path is both a file and a directory. */
    predicate Valid()
    {
      files.Keys !! dirs
    }

    /** `fs::create_dir`: fails when the path exists already. */
    function CreateDir(p: Path): (r: Run<()>)
      ensures Valid() ==> r.disk.Valid()
    {
      if Refuse(DirCreation, p) in refused || p in files || p in dirs then
        Run(this, Err(IoError(DirCreation, p)))
      else
        Run(this.(dirs := dirs + {p}), Ok(()))
    }

    /** `File::create`: creates the file or truncates an existing one. */
    function CreateFile(p: Path): (r: Run<()>)
      ensures Valid() ==> r.disk.Valid()
    {
      if Refuse(FileCreation, p) in refused || p in dirs then
        Run(this, Err(IoError(FileCreation, p)))
      else
        Run(this.(files := files[p := []]), Ok(()))
    }

    /** `File::open`: opens an existing file for reading. */
    function Open(p: Path): Result<()>
    {
      if Refuse(Opening, p) in refused || p !in files then Err(IoError(Opening, p)) else Ok(())
    }

    /** `OpenOptions::new().read(true).write(true).create(true).open`: opens the file,
        creating it empty when absent and keeping its contents otherwise. */
    function OpenOrCreate(p: Path): (r: Run<()>)
      ensures Valid() ==> r.disk.Valid()
    {
      if Refuse(Opening, p) in refused || p in dirs then
        Run(this, Err(IoError(Opening, p)))
      else if p in files then
        Run(this, Ok(()))
      else
        Run(this.(files := files[p := []]), Ok(()))
    }

    /** `write_all` (or `io::copy`) on a handle positioned at offset 0. */
    function Write(p: Path, data: Bytes): (r: Run<()>)
      ensures Valid() ==> r.disk.Valid()
    {
      if Refuse(Writing, p) in refused || p !in files then
        Run(this, Err(IoError(Writing, p)))
      else
        Run(this.(files := files[p := Overwrite(files[p], data)]), Ok(()))
    }

    /** `fs::read_to_string`, before its bytes are decoded. */
    function Read(p: Path): Result<Bytes>
    {
      if Refuse(Reading, p) in refused || p !in files then Err(IoError(Reading, p)) else Ok(files[p])
    }

    /** `fs::rename`: moves the bytes of `from` to `to`, replacing a file at `to`. */
    function Rename(from: Path, to: Path): (r: Run<()>)
      ensures Valid() ==> r.disk.Valid()
    {
      if RefuseRename(from, to) in refused || from !in files || to in dirs then
        Run(this, Err(IoError(Renaming, to)))
      else
        Run(this.(files := (files - {from})[to := files[from]]), Ok(()))
    }
  }

  /** The disk after an operation, and what the operation returned. */
  datatype Run<+T> = Run(disk: Disk, result: Result<T>)
  {
    /** The same failure, as the failure of an operation with another result type (`?`). */
    function Propagate<U>(): Run<U>
      requires result.Err?
    {
      Run(disk, Err(result.error))
    }
  }

  /** The file system as shared, mutable state. Each method performs one call and is proved
      to have the effect of the matching `Disk` function. */
  class FileSystem {
    var files: map<Path, Bytes>
    var dirs: set<Path>
    const refused: set<Refusal>

    function State(): Disk
      reads this
    {
      Disk(files, dirs, refused)
    }

    constructor (d: Disk)
      ensures State() == d
    {
      files, dirs, refused := d.files, d.dirs, d.refused;
    }

    method CreateDir(p: Path) returns (r: Result<()>)
      modifies this
      ensures Run(State(), r) == old(State()).CreateDir(p)
    {
      if Refuse(DirCreation, p) in refused || p in files || p in dirs {
        r := Err(IoError(DirCreation, p));
      } else {
        dirs := dirs + {p};
        r := Ok(());
      }
    }

    method CreateFile(p: Path) returns (r: Result<()>)
      modifies this
      ensures Run(State(), r) == old(State()).CreateFile(p)
    {
      if Refuse(FileCreation, p) in refused || p in dirs {
        r := Err(IoError(FileCreation, p));
      } else {
        files := files[p := []];
        r := Ok(());
      }
    }

    method Open(p: Path) returns (r: Result<()>)
      ensures r == State().Open(p)
    {
      if Refuse(Opening, p) in refused || p !in files {
        r := Err(IoError(Opening, p));
      } else {
        r := Ok(());
      }
    }

    method OpenOrCreate(p: Path) returns (r: Result<()>)
      modifies this
      ensures Run(State(), r) == old(State()).OpenOrCreate(p)
    {
      if Refuse(Opening, p) in refused || p in dirs {
        return Err(IoError(Opening, p));
      }
      if p !in files {
        files := files[p := []];
      }
      r := Ok(());
    }

    method Write(p: Path, data: Bytes) returns (r: Result<()>)
      modifies this
      ensures Run(State(), r) == old(State()).Write(p, data)
    {
      if Refuse(Writing, p) in refused || p !in files {
        r := Err(IoError(Writing, p));
      } else {
        files := files[p := Overwrite(files[p], data)];
        r := Ok(());
      }
    }

    method Read(p: Path) returns (r: Result<Bytes>)
      ensures r == State().Read(p)
    {
      if Refuse(Reading, p) in refused || p !in files {
        r := Err(IoError(Reading, p));
      } else {
        r := Ok(files[p]);
      }
    }

    method Rename(from: Path, to: Path) returns (r: Result<()>)
      modifies this
      ensures Run(State(), r) == old(State()).Rename(from, to)
    {
      if RefuseRename(from, to) in refused || from !in files || to in dirs {
        r := Err(IoError(Renaming, to));
      } else {
        var moved := files[from];
        files := (files - {from})[to := moved];
        r := Ok(());
      }
    }
  }
}
