/** The locally installed version record, kept in `Version.toml`, and the helpers that make
    sure a directory or a file exists. */
module Utility {
  import opened Fs

  /** The platform's pointer-sized unsigned integer, on a 64-bit target. */
  type usize = x: int | 0 <= x < 0x1_0000_0000_0000_0000

  /** The record of the installed release; `binaryId` 0 means nothing was installed yet. */
  datatype Version = Version(binaryId: usize, versionLabel: string)

  /** The whole document of `Version.toml`: one `version` table. */
  datatype Data = Data(version: Version)

  /** TOML serialisation (`toml::to_string`, then the UTF-8 bytes) and parsing
      (UTF-8 decoding, then `toml::from_str`), supplied from outside the model. */
  datatype Toml = Toml(render: Data -> Bytes, parse: Bytes -> Option<Data>)

  /** TOML integers are signed 64-bit (TOML v1.0.0), so only ids below 2^63 can be written. */
  const TOML_INT_LIMIT := 0x8000_0000_0000_0000

  /** Parsing what was printed gives the document back, for every record whose id TOML
      can hold. */
  ghost predicate RoundTrips(toml: Toml)
  {
    forall data: Data :: data.version.binaryId < TOML_INT_LIMIT ==> toml.parse(toml.render(data)) == Some(data)
  }

  const VERSION_FILE: Path := "Version.toml"

  /** `Version::default()`. */
  function DefaultVersion(): (v: Version)
    ensures v.binaryId == 0 && v.versionLabel == "unset"
  {
    Version(0, "unset")
  }

  /** `dir_exists`: creates the directory unless it is one already. */
  function DirExistsSpec(d: Disk, path: Path): (r: Run<()>)
    ensures r.disk.files == d.files && r.disk.refused == d.refused
    ensures r.result.Ok? <==> path in r.disk.dirs
    ensures r.disk.dirs - {path} == d.dirs - {path}
    ensures path in d.dirs ==> r == Run(d, Ok(()))
    ensures d.Valid() ==> r.disk.Valid()
  {
    if path in d.dirs then Run(d, Ok(())) else d.CreateDir(path)
  }

  /** Calling `dir_exists` a second time changes nothing and answers the same. */
  lemma DirExistsIdempotent(d: Disk, path: Path)
    ensures var once := DirExistsSpec(d, path);
            DirExistsSpec(once.disk, path) == once
  {
  }

  /** `file_exists`: creates the file with `defaultRaw` unless it is one already. A write that
      fails after the creation leaves an empty file behind. */
  function FileExistsSpec(d: Disk, path: Path, defaultRaw: Bytes): (r: Run<()>)
    ensures r.disk.dirs == d.dirs && r.disk.refused == d.refused
    ensures r.disk.files - {path} == d.files - {path}
    ensures path in d.files ==> r == Run(d, Ok(()))
    ensures path !in d.files && r.result.Ok? ==> r.disk.files == d.files[path := defaultRaw]
    ensures d.Valid() ==> r.disk.Valid()
  {
    if path in d.files then
      Run(d, Ok(()))
    else
      var created := d.CreateFile(path);
      if created.result.Err? then created else created.disk.Write(path, defaultRaw)
  }

  /** `file_exists` succeeds exactly when the file is there or it could be created and written. */
  lemma FileExistsSucceeds(d: Disk, path: Path, defaultRaw: Bytes)
    ensures FileExistsSpec(d, path, defaultRaw).result.Ok? <==>
              path in d.files ||
              (path !in d.dirs && Refuse(FileCreation, path) !in d.refused && Refuse(Writing, path) !in d.refused)
  {
  }

  /** A second call of `file_exists` leaves the disk as the first one did, and when the first
      succeeded the second succeeds too. */
  lemma {:induction false} FileExistsIdempotent(d: Disk, path: Path, defaultRaw: Bytes)
    ensures var once := FileExistsSpec(d, path, defaultRaw);
            var twice := FileExistsSpec(once.disk, path, defaultRaw);
            twice.disk == once.disk && (once.result.Ok? ==> twice.result.Ok?)
  {
    var once := FileExistsSpec(d, path, defaultRaw);
    if path !in d.files && d.CreateFile(path).result.Ok? {
      assert path in once.disk.files;
    }
  }

  /** `get_version`: makes sure `Version.toml` exists, holding the default record when it had
      to be created, then reads and parses it. */
  function GetVersionSpec(d: Disk, toml: Toml): (r: Run<Version>)
    ensures r.disk.dirs == d.dirs && r.disk.refused == d.refused
    ensures r.disk.files - {VERSION_FILE} == d.files - {VERSION_FILE}
    ensures r.result.Ok? ==> VERSION_FILE in r.disk.files
    ensures d.Valid() ==> r.disk.Valid()
  {
    var ensured := FileExistsSpec(d, VERSION_FILE, toml.render(Data(DefaultVersion())));
    if ensured.result.Err? then Run(ensured.disk, Err(ensured.result.error)) else
    match ensured.disk.Read(VERSION_FILE)
    case Err(e) => Run(ensured.disk, Err(e))
    case Ok(contents) =>
      match toml.parse(contents)
      case None => Run(ensured.disk, Err(TomlError))
      case Some(data) => Run(ensured.disk, Ok(data.version))
  }

  /** With `Version.toml` absent and the disk cooperating, `get_version` writes the default
      record and returns it: `{binaryId: 0, versionLabel: "unset"}`. */
  lemma GetVersionCreatesDefault(d: Disk, toml: Toml)
    requires RoundTrips(toml)
    requires VERSION_FILE !in d.files && VERSION_FILE !in d.dirs
    requires Refuse(FileCreation, VERSION_FILE) !in d.refused
    requires Refuse(Writing, VERSION_FILE) !in d.refused
    requires Refuse(Reading, VERSION_FILE) !in d.refused
    ensures GetVersionSpec(d, toml).disk.files == d.files[VERSION_FILE := toml.render(Data(DefaultVersion()))]
    ensures GetVersionSpec(d, toml).result == Ok(Version(0, "unset"))
  {
    assert toml.parse(toml.render(Data(DefaultVersion()))) == Some(Data(DefaultVersion()));
  }

  /** With `Version.toml` present, `get_version` does not write and returns what it holds. */
  lemma GetVersionReadsExisting(d: Disk, toml: Toml)
    requires VERSION_FILE in d.files
    ensures GetVersionSpec(d, toml).disk == d
    ensures GetVersionSpec(d, toml).result.Ok? <==>
              Refuse(Reading, VERSION_FILE) !in d.refused && toml.parse(d.files[VERSION_FILE]).Some?
    ensures GetVersionSpec(d, toml).result.Ok? ==>
              Some(Data(GetVersionSpec(d, toml).result.value)) == toml.parse(d.files[VERSION_FILE])
  {
  }

  /** `set_version`: opens `Version.toml` for writing, creating it if absent but never
      truncating it, and writes `newRaw` from offset 0. */
  function SetVersionSpec(d: Disk, newRaw: Bytes): (r: Run<()>)
    ensures r.disk.dirs == d.dirs && r.disk.refused == d.refused
    ensures r.disk.files - {VERSION_FILE} == d.files - {VERSION_FILE}
    ensures r.result.Ok? ==> VERSION_FILE in r.disk.files
    ensures d.Valid() ==> r.disk.Valid()
  {
    var handle := d.OpenOrCreate(VERSION_FILE);
    if handle.result.Err? then handle else handle.disk.Write(VERSION_FILE, newRaw)
  }

  /** After a successful `set_version`, the file holds `newRaw` followed by whatever the old
      contents had beyond its length; it holds exactly `newRaw` precisely when the old contents
      (none, if the file was absent) were no longer than `newRaw`. */
  lemma {:induction false} SetVersionKeepsTail(d: Disk, newRaw: Bytes)
    requires SetVersionSpec(d, newRaw).result.Ok?
    ensures var prior := if VERSION_FILE in d.files then d.files[VERSION_FILE] else [];
            var after := SetVersionSpec(d, newRaw).disk.files[VERSION_FILE];
            && after == Overwrite(prior, newRaw)
            && (after == newRaw <==> |prior| <= |newRaw|)
  {
    var prior := if VERSION_FILE in d.files then d.files[VERSION_FILE] else [];
    OverwriteIsExact(prior, newRaw);
  }

  /** `set_version` succeeds exactly when `Version.toml` can be opened and written. */
  lemma SetVersionSucceeds(d: Disk, newRaw: Bytes)
    ensures SetVersionSpec(d, newRaw).result.Ok? <==>
              VERSION_FILE !in d.dirs && Refuse(Opening, VERSION_FILE) !in d.refused &&
              Refuse(Writing, VERSION_FILE) !in d.refused
  {
  }

  /** Saving a record and loading it back gives the record, provided its id fits a TOML
      integer, the old file was no longer than the new serialisation (the write does not
      truncate) and the disk cooperates. */
  lemma {:induction false} SetThenGetVersion(d: Disk, toml: Toml, v: Version)
    requires RoundTrips(toml) && v.binaryId < TOML_INT_LIMIT
    requires VERSION_FILE in d.files ==> |d.files[VERSION_FILE]| <= |toml.render(Data(v))|
    requires VERSION_FILE !in d.dirs
    requires Refuse(Opening, VERSION_FILE) !in d.refused && Refuse(Writing, VERSION_FILE) !in d.refused
    requires Refuse(Reading, VERSION_FILE) !in d.refused
    ensures SetVersionSpec(d, toml.render(Data(v))).result.Ok?
    ensures GetVersionSpec(SetVersionSpec(d, toml.render(Data(v))).disk, toml).result == Ok(v)
  {
    var raw := toml.render(Data(v));
    var saved := SetVersionSpec(d, raw);
    SetVersionSucceeds(d, raw);
    SetVersionKeepsTail(d, raw);
    assert saved.disk.files[VERSION_FILE] == raw;
    GetVersionReadsExisting(saved.disk, toml);
    assert toml.parse(raw) == Some(Data(v));
  }

  /** `dir_exists` */
  method DirExists(fs: FileSystem, path: Path) returns (r: Result<()>)
    modifies fs
    ensures Run(fs.State(), r) == DirExistsSpec(old(fs.State()), path)
  {
    if path in fs.dirs {
      return Ok(());
    }
    r := fs.CreateDir(path);
  }

  /** `file_exists` */
  method FileExists(fs: FileSystem, path: Path, defaultRaw: Bytes) returns (r: Result<()>)
    modifies fs
    ensures Run(fs.State(), r) == FileExistsSpec(old(fs.State()), path, defaultRaw)
  {
    if path in fs.files {
      return Ok(());
    }
    r := fs.CreateFile(path);
    if r.Err? {
      return;
    }
    r := fs.Write(path, defaultRaw);
  }

  /** `get_version` */
  method GetVersion(fs: FileSystem, toml: Toml) returns (r: Result<Version>)
    modifies fs
    ensures Run(fs.State(), r) == GetVersionSpec(old(fs.State()), toml)
  {
    var ensured := FileExists(fs, VERSION_FILE, toml.render(Data(DefaultVersion())));
    if ensured.Err? {
      return Err(ensured.error);
    }
    var contents := fs.Read(VERSION_FILE);
    if contents.Err? {
      return Err(contents.error);
    }
    match toml.parse(contents.value) {
      case None => r := Err(TomlError);
      case Some(data) => r := Ok(data.version);
    }
  }

  /** `set_version` */
  method SetVersion(fs: FileSystem, newRaw: Bytes) returns (r: Result<()>)
    modifies fs
    ensures Run(fs.State(), r) == SetVersionSpec(old(fs.State()), newRaw)
  {
    r := fs.OpenOrCreate(VERSION_FILE);
    if r.Err? {
      return;
    }
    r := fs.Write(VERSION_FILE, newRaw);
  }
}
