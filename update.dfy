/** The update check and the binary swap: decide from the stored record, the network and the
    latest release whether to install, then download the release archive, stage its first
    entry and move it over the running executable, keeping the old one as a rollback copy. */
module Update {
  import opened Fs
  import opened Utility
  import opened Process

  const GITHUB_REPO := "https://github.com/TuuKeZu/github-actions"

  /** The three asset suffixes as the source names them. `MAC_BINARY` is never used, and the
      Linux download uses `LINUX_BINARY`, whose value is the Darwin archive name. */
  const MAC_BINARY := "x86_64-unknown-linux-musl.zip"
  const WINDOWS_BINARY := "x86_64-pc-windows-gnu.zip"
  const LINUX_BINARY := "x86_64-apple-darwin.zip"

  const TMP_DIR: Path := "version-tmp"
  const CACHE_DIR: Path := "version-cache"
  const ROLLBACK: Path := "version-cache/last.exe"

  const INIT_FAILURE := "Failed to initilize binary: Network error"
  const ABORTED := "Update aborted"
  const UNSUPPORTED_OS := "Unsupported operating system"
  const UNWRAP_NONE := "called `Option::unwrap()` on a `None` value"

  // ---------------------------------------------------------------------------------------
  // Integer widths

  type i64 = x: int | -0x8000_0000_0000_0000 <= x < 0x8000_0000_0000_0000

  const TWO_TO_64 := 0x1_0000_0000_0000_0000

  /** `x as i64` for a `usize`: the same 64 bits read as two's complement. */
  function UsizeToI64(x: usize): (r: i64)
    ensures (x - r) % TWO_TO_64 == 0
  {
    if x < 0x8000_0000_0000_0000 then x else x - TWO_TO_64
  }

  /** `y as usize` for an `i64`: the same 64 bits read as unsigned. */
  function I64ToUsize(y: i64): (r: usize)
    ensures (r - y) % TWO_TO_64 == 0
  {
    if 0 <= y then y else y + TWO_TO_64
  }

  /** The two casts undo each other, so comparing after casting the stored id to `i64` is the
      same as comparing with the remote id cast to `usize`. */
  lemma CastsAreInverse(x: usize, y: i64)
    ensures I64ToUsize(UsizeToI64(x)) == x
    ensures UsizeToI64(I64ToUsize(y)) == y
    ensures UsizeToI64(x) == y <==> x == I64ToUsize(y)
  {
  }

  // ---------------------------------------------------------------------------------------
  // The answer to the offline prompt

  /** Unicode White_Space, the set `char::is_whitespace` tests. */
  predicate IsWhitespace(c: char)
  {
    || ('\t' <= c <= '\r') || c == ' ' || c == '\U{0085}' || c == '\U{00A0}' || c == '\U{1680}'
    || ('\U{2000}' <= c <= '\U{200A}') || c == '\U{2028}' || c == '\U{2029}' || c == '\U{202F}'
    || c == '\U{205F}' || c == '\U{3000}'
  }

  /** `str::trim_start`: the longest suffix that does not start with whitespace. */
  function TrimStart(s: string): (r: string)
    ensures |r| <= |s| && r == s[|s| - |r|..]
    ensures forall i :: 0 <= i < |s| - |r| ==> IsWhitespace(s[i])
    ensures r == [] || !IsWhitespace(r[0])
  {
    if s != [] && IsWhitespace(s[0]) then TrimStart(s[1..]) else s
  }

  /** `str::trim_end`: the longest prefix that does not end with whitespace. */
  function TrimEnd(s: string): (r: string)
    ensures |r| <= |s| && r == s[..|r|]
    ensures forall i :: |r| <= i < |s| ==> IsWhitespace(s[i])
    ensures r == [] || !IsWhitespace(r[|r| - 1])
  {
    if s != [] && IsWhitespace(s[|s| - 1]) then TrimEnd(s[..|s| - 1]) else s
  }

  /** `str::trim`. */
  function Trim(s: string): (r: string)
    ensures r == [] || (!IsWhitespace(r[0]) && !IsWhitespace(r[|r| - 1]))
  {
    TrimEnd(TrimStart(s))
  }

  /** The trimmed answer is the input with its leading and trailing whitespace cut away: a
      slice of it, starting where `TrimStart` starts, with only whitespace on either side. */
  lemma {:induction false} TrimIsSlice(s: string)
    ensures var i, r := |s| - |TrimStart(s)|, Trim(s);
            && i + |r| <= |s| && r == s[i..i + |r|]
            && (forall j :: 0 <= j < i ==> IsWhitespace(s[j]))
            && (forall j :: i + |r| <= j < |s| ==> IsWhitespace(s[j]))
  {
    hide TrimStart, TrimEnd;  // their contracts suffice; unfolding them only slows the proof
    var t := TrimStart(s);
    var i, r := |s| - |t|, TrimEnd(t);
    assert Trim(s) == r;
    assert t == s[i..];
    assert r == t[..|r|];
    assert r == s[i..i + |r|];
    forall j | i + |r| <= j < |s|
      ensures IsWhitespace(s[j])
    {
      assert s[j] == t[j - i];
    }
  }

  /** Trimming a trimmed answer changes nothing. */
  lemma {:induction false} TrimIdempotent(s: string)
    ensures Trim(Trim(s)) == Trim(s)
  {
    var t := Trim(s);
    assert TrimStart(t) == t;
    assert TrimEnd(t) == t;
  }

  /** Trimming strips leading whitespace through to the end: `TrimStart` of a string with one
      whitespace character added is `TrimStart` of the string with it added, unless nothing
      but whitespace is left. */
  lemma {:induction false} TrimStartAppend(s: string, w: char)
    requires IsWhitespace(w)
    ensures TrimStart(s + [w]) == (if TrimStart(s) == [] then [] else TrimStart(s) + [w])
    decreases |s|
  {
    if s != [] && IsWhitespace(s[0]) {
      assert (s + [w])[1..] == s[1..] + [w];
      TrimStartAppend(s[1..], w);
    } else if s == [] {
      assert TrimStart([w]) == TrimStart([]);
    }
  }

  /** One more whitespace character at the end changes nothing after trimming. */
  lemma {:induction false} TrimDropsTrailingWhitespace(s: string, w: char)
    requires IsWhitespace(w)
    ensures Trim(s + [w]) == Trim(s)
  {
    TrimStartAppend(s, w);
    var t := TrimStart(s);
    if t != [] {
      assert (t + [w])[..|t|] == t;
    }
  }

  /** The line read from the terminal still carries its line break, "\n" or, on Windows,
      "\r\n"; trimming removes either, so the answer compares as if typed without it. */
  lemma LineBreakIsTrimmed(s: string)
    ensures Trim(s + "\n") == Trim(s)
    ensures Trim(s + "\r\n") == Trim(s)
  {
    assert Trim(s + "\n") == Trim(s) by {
      assert s + "\n" == s + ['\n'];
      TrimDropsTrailingWhitespace(s, '\n');
    }
    assert Trim(s + "\r\n") == Trim(s) by {
      var cr := s + ['\r'];
      assert s + "\r\n" == cr + ['\n'];
      TrimDropsTrailingWhitespace(s, '\r');
      TrimDropsTrailingWhitespace(cr, '\n');
    }
  }

  /** Trimming changes no character between the ends, so no case is folded: an answer with
      no whitespace at either end, such as "Yes", is compared as typed. */
  lemma {:induction false} CaseIsKept(s: string)
    requires s == [] || (!IsWhitespace(s[0]) && !IsWhitespace(s[|s| - 1]))
    ensures Trim(s) == s && Trim(s + "\n") == s
  {
    assert TrimStart(s) == s;
    assert TrimEnd(s) == s;
    LineBreakIsTrimmed(s);
  }

  // ---------------------------------------------------------------------------------------
  // The decision

  /** The reply of `GET releases/latest`, after `send`, `text` and `serde_json::from_str`.
      `id` is `json["id"].as_i64()` and `tagName` is `json["tag_name"].as_str()`. */
  datatype ApiReply =
    | Unreachable
    | NotJson
    | Release(id: Option<i64>, tagName: Option<string>)

  /** What `check_for_updates` does after loading the stored record. */
  datatype Decision =
    | NetworkInitFailure
    | ContinueOffline
    | Aborted
    | ApiFailure(error: Error)
    | MissingField
    | UpToDate
    | UnsupportedOs
    | Install(url: string, record: Version)

  /** The archive name of a release for a platform; there is none for an unsupported one. */
  function AssetSuffix(os: ProcessType): (suffix: Option<string>)
    ensures suffix.None? <==> os == Unsupported
    ensures os == Linux ==> suffix == Some("x86_64-apple-darwin.zip")
    ensures os == Windows ==> suffix == Some("x86_64-pc-windows-gnu.zip")
  {
    match os
    case Windows => Some(WINDOWS_BINARY)
    case Linux => Some(LINUX_BINARY)
    case Unsupported => None
  }

  /** `{GITHUB_REPO}/releases/download/{tag}/{BINARY_NAME}_{tag}_{suffix}`. */
  function AssetUrl(tag: string, pkg: string, suffix: string): (url: string)
    ensures GITHUB_REPO + "/releases/download/" <= url
  {
    GITHUB_REPO + "/releases/download/" + tag + "/" + pkg + "_" + tag + "_" + suffix
  }

  /** The branching of `check_for_updates`, from the stored record, whether the network is up,
      the answer typed at the offline prompt, the metadata reply, the platform and the package
      name. */
  function Decide(stored: Version, online: bool, answer: string, api: ApiReply, os: ProcessType, pkg: string): (dec: Decision)
    ensures !online && stored.binaryId == 0 ==> dec == NetworkInitFailure
    ensures !online && stored.binaryId != 0 ==>
              dec == (if Trim(answer) == "yes" || Trim(answer) == "y" then ContinueOffline else Aborted)
    ensures online && api == Unreachable ==> dec == ApiFailure(HttpError)
    ensures online && api == NotJson ==> dec == ApiFailure(JsonError)
    ensures online && api.Release? && (api.id.None? || api.tagName.None?) ==> dec == MissingField
    ensures dec == UpToDate <==>
              online && api.Release? && api.id.Some? && api.tagName.Some? && stored.binaryId == I64ToUsize(api.id.value)
    ensures dec.Install? <==>
              && online && api.Release? && api.id.Some? && api.tagName.Some?
              && stored.binaryId != I64ToUsize(api.id.value) && os != Unsupported
    ensures dec.Install? ==>
              dec == Install(AssetUrl(api.tagName.value, pkg, AssetSuffix(os).value),
                             Version(I64ToUsize(api.id.value), api.tagName.value))
  {
    if !online then
      if stored.binaryId == 0 then NetworkInitFailure
      else if Trim(answer) == "yes" || Trim(answer) == "y" then ContinueOffline
      else Aborted
    else
      match api
      case Unreachable => ApiFailure(HttpError)
      case NotJson => ApiFailure(JsonError)
      case Release(id, tagName) =>
        if id.None? || tagName.None? then MissingField
        else if UsizeToI64(stored.binaryId) == id.value then UpToDate
        else
          match AssetSuffix(os)
          case None => UnsupportedOs
          case Some(suffix) =>
            Install(AssetUrl(tagName.value, pkg, suffix), Version(I64ToUsize(id.value), tagName.value))
  }

  /** Offline with nothing installed is fatal, whatever else holds. */
  lemma DecideOfflineFreshInstall(stored: Version, answer: string, api: ApiReply, os: ProcessType, pkg: string)
    requires stored.binaryId == 0
    ensures Decide(stored, false, answer, api, os, pkg) == NetworkInitFailure
  {
  }

  /** Offline with an installed version, the user continues exactly by answering "yes" or "y"
      (around whitespace) and aborts otherwise. */
  lemma DecideOffline(stored: Version, answer: string, api: ApiReply, os: ProcessType, pkg: string)
    requires stored.binaryId != 0
    ensures var dec := Decide(stored, false, answer, api, os, pkg);
            && (dec == ContinueOffline <==> Trim(answer) == "yes" || Trim(answer) == "y")
            && (dec == Aborted <==> Trim(answer) != "yes" && Trim(answer) != "y")
  {
  }

  /** Online, with a well-formed release, the record is up to date exactly when the ids are
      equal: a remote id smaller than the stored one is installed too. */
  lemma DecideUpToDate(stored: Version, answer: string, id: i64, tag: string, os: ProcessType, pkg: string)
    ensures Decide(stored, true, answer, Release(Some(id), Some(tag)), os, pkg) == UpToDate <==>
              stored.binaryId == I64ToUsize(id)
  {
    CastsAreInverse(stored.binaryId, id);
  }

  /** Only an online check with a well-formed, different release on a supported platform
      installs, from the platform's asset URL, recording the remote id and tag. */
  lemma DecideInstall(stored: Version, online: bool, answer: string, api: ApiReply, os: ProcessType, pkg: string)
    requires Decide(stored, online, answer, api, os, pkg).Install?
    ensures var dec := Decide(stored, online, answer, api, os, pkg);
            && online && api.Release? && api.id.Some? && api.tagName.Some?
            && stored.binaryId != I64ToUsize(api.id.value)
            && dec.record == Version(I64ToUsize(api.id.value), api.tagName.value)
            && (os == Windows ==> dec.url == AssetUrl(api.tagName.value, pkg, "x86_64-pc-windows-gnu.zip"))
            && (os == Linux ==> dec.url == AssetUrl(api.tagName.value, pkg, "x86_64-apple-darwin.zip"))
            && os != Unsupported
  {
    CastsAreInverse(stored.binaryId, api.id.value);
  }

  /** Conversely, online with a well-formed, different release on a supported platform, the
      check installs from that platform's asset URL. */
  lemma DecideInstallsWhen(stored: Version, answer: string, id: i64, tag: string, os: ProcessType, pkg: string)
    requires os != Unsupported && stored.binaryId != I64ToUsize(id)
    ensures Decide(stored, true, answer, Release(Some(id), Some(tag)), os, pkg) ==
              Install(AssetUrl(tag, pkg, AssetSuffix(os).value), Version(I64ToUsize(id), tag))
  {
    CastsAreInverse(stored.binaryId, id);
  }

  /** The asset URL is the repository's download path, then the tag, and it ends with the
      platform's archive name. */
  lemma AssetUrlLayout(tag: string, pkg: string, suffix: string)
    ensures var prefix, url := GITHUB_REPO + "/releases/download/", AssetUrl(tag, pkg, suffix);
            && |url| == |prefix| + 2 * |tag| + |pkg| + |suffix| + 3
            && url[..|prefix|] == prefix
            && url[|prefix|..|prefix| + |tag|] == tag
            && url[|url| - |suffix|..] == suffix
  {
  }

  /** Releases with different tags have different asset URLs, for the same package and
      platform: the URL names the release. */
  lemma AssetUrlNamesRelease(tag1: string, tag2: string, pkg: string, suffix: string)
    ensures AssetUrl(tag1, pkg, suffix) == AssetUrl(tag2, pkg, suffix) <==> tag1 == tag2
  {
    var prefix := GITHUB_REPO + "/releases/download/";
    AssetUrlLayout(tag1, pkg, suffix);
    AssetUrlLayout(tag2, pkg, suffix);
    if AssetUrl(tag1, pkg, suffix) == AssetUrl(tag2, pkg, suffix) {
      assert |tag1| == |tag2|;
      assert tag1 == AssetUrl(tag1, pkg, suffix)[|prefix|..|prefix| + |tag1|];
    }
  }

  /** An unsupported platform panics before anything is downloaded. */
  lemma DecideUnsupported(stored: Version, answer: string, id: i64, tag: string, pkg: string)
    requires stored.binaryId != I64ToUsize(id)
    ensures Decide(stored, true, answer, Release(Some(id), Some(tag)), Unsupported, pkg) == UnsupportedOs
  {
    CastsAreInverse(stored.binaryId, id);
  }

  // ---------------------------------------------------------------------------------------
  // The download and the swap

  /** The reply of `reqwest::get(url)`; `body` is `None` when reading it fails. */
  datatype HttpReply = TransportFailure | Reply(status: int, body: Option<Bytes>)

  /** The package name (`BINARY_NAME`) and where the running executable lies. */
  datatype Host = Host(pkg: string, exeDir: Path, exeName: string)

  function ArchivePath(pkg: string): (p: Path)
  {
    TMP_DIR + "/" + pkg + ".zip"
  }

  /** `tmp-{BINARY_NAME}.exe`, staged in the working directory. */
  function StagedName(pkg: string): (p: Path)
  {
    "tmp-" + pkg + ".exe"
  }

  /** The staged file moved beside the running executable. */
  function StagedBeside(h: Host): (p: Path)
  {
    Join(h.exeDir, StagedName(h.pkg))
  }

  /** `env::current_exe()`. */
  function ExePath(h: Host): (p: Path)
  {
    Join(h.exeDir, h.exeName)
  }

  /** The running executable is none of the updater's own files, and the staged copy beside it
      is neither the archive, the rollback copy nor the version file. */
  predicate Separate(h: Host)
  {
    var exe := ExePath(h);
    var beside := StagedBeside(h);
    && exe != StagedName(h.pkg) && exe != beside && exe != ROLLBACK
    && exe != ArchivePath(h.pkg) && exe != VERSION_FILE
    && beside != ROLLBACK && beside != ArchivePath(h.pkg) && beside != VERSION_FILE
    && beside != TMP_DIR && beside != CACHE_DIR
  }

  /** The fixed working files never coincide. */
  lemma FixedPathsDistinct(pkg: string)
    ensures ArchivePath(pkg) != StagedName(pkg) && ArchivePath(pkg) != ROLLBACK
    ensures StagedName(pkg) != ROLLBACK
    ensures VERSION_FILE !in {ArchivePath(pkg), StagedName(pkg), ROLLBACK}
    ensures ROLLBACK != TMP_DIR && ROLLBACK != CACHE_DIR
    ensures ArchivePath(pkg) !in {TMP_DIR, CACHE_DIR} && StagedName(pkg) !in {TMP_DIR, CACHE_DIR}
  {
    assert ArchivePath(pkg)[0] == 'v' && ArchivePath(pkg)[8] == 't';
    assert StagedName(pkg)[0] == 't';
    assert ROLLBACK[0] == 'v' && ROLLBACK[8] == 'c';
    assert VERSION_FILE[0] == 'V';
  }

  /** Lines 92-116 of `download_binary`: make the staging directories, fetch the archive,
      store it, and write its entry 0 to the staged file. The result is that entry. */
  function StageSpec(d: Disk, url: string, h: Host, reply: HttpReply, unzip: Bytes -> Option<seq<Bytes>>): (r: Run<Bytes>)
    ensures r.disk.refused == d.refused
    ensures d.dirs <= r.disk.dirs <= d.dirs + {TMP_DIR, CACHE_DIR}
    ensures SameOutside(r.disk.files, d.files, {ArchivePath(h.pkg), StagedName(h.pkg)})
    ensures d.Valid() ==> r.disk.Valid()
  {
    var tmp := DirExistsSpec(d, TMP_DIR);
    if tmp.result.Err? then tmp.Propagate() else
    var cache := DirExistsSpec(tmp.disk, CACHE_DIR);
    if cache.result.Err? then cache.Propagate() else
    var ready := cache.disk;
    match reply
    case TransportFailure => Run(ready, Err(HttpError))
    case Reply(status, body) =>
      if status != 200 then
        Run(ready, Err(UpdateError("Failed to access installation binary <" + url + ">")))
      else
        var archive := ArchivePath(h.pkg);
        var created := ready.CreateFile(archive);
        if created.result.Err? then created.Propagate()
        else if body.None? then Run(created.disk, Err(HttpError))
        else
          var stored := created.disk.Write(archive, body.value);
          if stored.result.Err? then stored.Propagate() else
          var saved := stored.disk;
          match saved.Open(archive)
          case Err(e) => Run(saved, Err(e))
          case Ok(_) =>
            match unzip(saved.files[archive])
            case None => Run(saved, Err(ZipError))
            case Some(entries) =>
              if |entries| == 0 then Run(saved, Err(ZipError))
              else
                var staged := saved.CreateFile(StagedName(h.pkg));
                if staged.result.Err? then staged.Propagate() else
                var written := staged.disk.Write(StagedName(h.pkg), entries[0]);
                if written.result.Err? then written.Propagate() else
                Run(written.disk, Ok(entries[0]))
  }

  /** Lines 124-130 of `download_binary`: move the staged file beside the executable, move the
      executable to the rollback path, then move the staged file onto the executable's path.
      The first failure stops the sequence and nothing is undone. */
  function SwapSpec(d: Disk, h: Host): (r: Run<()>)
    ensures r.disk.refused == d.refused && r.disk.dirs == d.dirs
    ensures SameOutside(r.disk.files, d.files, {StagedName(h.pkg), StagedBeside(h), ExePath(h), ROLLBACK})
    ensures d.Valid() ==> r.disk.Valid()
  {
    var moved := d.Rename(StagedName(h.pkg), StagedBeside(h));
    if moved.result.Err? then moved else
    var cached := moved.disk.Rename(ExePath(h), ROLLBACK);
    if cached.result.Err? then cached else
    cached.disk.Rename(StagedBeside(h), ExePath(h))
  }

  /** `download_binary`. */
  function DownloadBinarySpec(d: Disk, url: string, h: Host, reply: HttpReply, unzip: Bytes -> Option<seq<Bytes>>): (r: Run<()>)
    ensures r.disk.refused == d.refused
    ensures d.dirs <= r.disk.dirs <= d.dirs + {TMP_DIR, CACHE_DIR}
    ensures SameOutside(r.disk.files, d.files,
                        {ArchivePath(h.pkg), StagedName(h.pkg), StagedBeside(h), ExePath(h), ROLLBACK})
    ensures d.Valid() ==> r.disk.Valid()
  {
    var staged := StageSpec(d, url, h, reply, unzip);
    if staged.result.Err? then staged.Propagate() else SwapSpec(staged.disk, h)
  }

  /** The staging directories can be had: each is a directory already, or can be created. */
  predicate StagingDirsPossible(d: Disk)
  {
    && (TMP_DIR in d.dirs || (TMP_DIR !in d.files && Refuse(DirCreation, TMP_DIR) !in d.refused))
    && (CACHE_DIR in d.dirs || (CACHE_DIR !in d.files && Refuse(DirCreation, CACHE_DIR) !in d.refused))
  }

  /** A download answered with a status other than 200 fails with an error naming the URL,
      after the staging directories were made and before any file is written. */
  lemma StageRejectsStatus(d: Disk, url: string, h: Host, status: int, body: Option<Bytes>, unzip: Bytes -> Option<seq<Bytes>>)
    requires StagingDirsPossible(d)
    requires status != 200
    ensures var r := DownloadBinarySpec(d, url, h, Reply(status, body), unzip);
            && r.result == Err(UpdateError("Failed to access installation binary <" + url + ">"))
            && r.disk.files == d.files
            && r.disk.dirs == d.dirs + {TMP_DIR, CACHE_DIR}
  {
  }

  /** When staging succeeds, the reply was a 200 whose body is a readable archive with at least
      one entry; the archive file holds the body and the staged file holds entry 0. */
  lemma {:induction false} StageSucceeds(d: Disk, url: string, h: Host, reply: HttpReply, unzip: Bytes -> Option<seq<Bytes>>)
    requires StageSpec(d, url, h, reply, unzip).result.Ok?
    ensures var r := StageSpec(d, url, h, reply, unzip);
            && reply.Reply? && reply.status == 200 && reply.body.Some?
            && unzip(reply.body.value).Some? && |unzip(reply.body.value).value| > 0
            && r.result.value == unzip(reply.body.value).value[0]
            && r.disk.files == d.files[ArchivePath(h.pkg) := reply.body.value][StagedName(h.pkg) := r.result.value]
            && r.disk.dirs == d.dirs + {TMP_DIR, CACHE_DIR}
  {
    FixedPathsDistinct(h.pkg);
    var archive := ArchivePath(h.pkg);
    var ready := DirExistsSpec(DirExistsSpec(d, TMP_DIR).disk, CACHE_DIR).disk;
    var saved := ready.CreateFile(archive).disk.Write(archive, reply.body.value).disk;
    assert saved.files[archive] == reply.body.value;
  }

  /** Staging succeeds when the disk cooperates and the archive is readable and not empty. */
  lemma {:induction false} StageSucceedsWhen(d: Disk, url: string, h: Host, body: Bytes, unzip: Bytes -> Option<seq<Bytes>>)
    requires StagingDirsPossible(d)
    requires ArchivePath(h.pkg) !in d.dirs && StagedName(h.pkg) !in d.dirs
    requires forall op :: Refuse(op, ArchivePath(h.pkg)) !in d.refused && Refuse(op, StagedName(h.pkg)) !in d.refused
    requires unzip(body).Some? && |unzip(body).value| > 0
    ensures StageSpec(d, url, h, Reply(200, Some(body)), unzip).result == Ok(unzip(body).value[0])
  {
    FixedPathsDistinct(h.pkg);
    var archive := ArchivePath(h.pkg);
    var ready := DirExistsSpec(DirExistsSpec(d, TMP_DIR).disk, CACHE_DIR).disk;
    assert Refuse(FileCreation, archive) !in d.refused && Refuse(Writing, archive) !in d.refused;
    assert Refuse(Opening, archive) !in d.refused;
    assert Refuse(FileCreation, StagedName(h.pkg)) !in d.refused && Refuse(Writing, StagedName(h.pkg)) !in d.refused;
    assert ready.dirs == d.dirs + {TMP_DIR, CACHE_DIR};
    var created := ready.CreateFile(archive);
    assert created.result.Ok?;
    var stored := created.disk.Write(archive, body);
    assert stored.result.Ok?;
    var saved := stored.disk;
    assert saved.files[archive] == body;
    assert saved.Open(archive).Ok?;
    var staged := saved.CreateFile(StagedName(h.pkg));
    assert staged.result.Ok?;
    assert staged.disk.Write(StagedName(h.pkg), unzip(body).value[0]).result.Ok?;
  }

  /** A complete swap leaves the entry on the executable's path, the old executable at the
      rollback path and no staged file in either place; it happens exactly when both files
      exist, no rename is refused and no destination is a directory. */
  lemma {:induction false} SwapSucceeds(d: Disk, h: Host)
    requires Separate(h)
    ensures var exe, staged, beside := ExePath(h), StagedName(h.pkg), StagedBeside(h);
            var r := SwapSpec(d, h);
            && (r.result.Ok? <==>
                  && staged in d.files && exe in d.files
                  && RefuseRename(staged, beside) !in d.refused
                  && RefuseRename(exe, ROLLBACK) !in d.refused
                  && RefuseRename(beside, exe) !in d.refused
                  && beside !in d.dirs && ROLLBACK !in d.dirs && exe !in d.dirs)
            && (r.result.Ok? ==>
                  r.disk.files == (d.files - {staged, beside})[ROLLBACK := d.files[exe]][exe := d.files[staged]])
  {
    var exe, staged, beside := ExePath(h), StagedName(h.pkg), StagedBeside(h);
    var r := SwapSpec(d, h);
    if r.result.Ok? {
      var f1 := (d.files - {staged})[beside := d.files[staged]];
      var f2 := (f1 - {exe})[ROLLBACK := d.files[exe]];
      var f3 := (f2 - {beside})[exe := d.files[staged]];
      assert r.disk.files == f3;
      assert f3 == (d.files - {staged, beside})[ROLLBACK := d.files[exe]][exe := d.files[staged]];
    }
  }

  /** When moving the staged file beside the executable fails, nothing has moved. */
  lemma SwapStageMoveFails(d: Disk, h: Host)
    requires Separate(h)
    requires SwapSpec(d, h).result == Err(IoError(Renaming, StagedBeside(h)))
    ensures SwapSpec(d, h).disk == d
  {
  }

  /** When moving the executable to the rollback path fails, the staged file sits beside the
      executable, which is still in place. */
  lemma SwapCacheOutFails(d: Disk, h: Host)
    requires Separate(h)
    requires SwapSpec(d, h).result == Err(IoError(Renaming, ROLLBACK))
    ensures var staged, beside := StagedName(h.pkg), StagedBeside(h);
            && staged in d.files
            && SwapSpec(d, h).disk.files == (d.files - {staged})[beside := d.files[staged]]
            && (ExePath(h) in SwapSpec(d, h).disk.files <==> ExePath(h) in d.files)
  {
  }

  /** When the last rename fails, the executable's path holds no file, the rollback path holds
      the old executable and the new one stays beside it: nothing is rolled back. */
  lemma {:induction false} SwapPromoteFails(d: Disk, h: Host)
    requires Separate(h)
    requires SwapSpec(d, h).result == Err(IoError(Renaming, ExePath(h)))
    ensures var exe, staged, beside := ExePath(h), StagedName(h.pkg), StagedBeside(h);
            var after := SwapSpec(d, h).disk.files;
            && staged in d.files && exe in d.files
            && exe !in after
            && after[ROLLBACK] == d.files[exe]
            && after[beside] == d.files[staged]
            && after == (d.files - {staged, exe})[beside := d.files[staged]][ROLLBACK := d.files[exe]]
  {
    var exe, staged, beside := ExePath(h), StagedName(h.pkg), StagedBeside(h);
    var moved := d.Rename(staged, beside);
    assert moved.result.Ok?;
    var cached := moved.disk.Rename(exe, ROLLBACK);
    assert cached.result.Ok?;
    assert SwapSpec(d, h).disk == cached.disk;
  }

  /** After a complete `download_binary`, the executable's path holds entry 0 of the archive,
      the rollback path holds the executable as it was, the archive stays in `version-tmp`, no
      staged file remains, and nothing else changed. */
  lemma {:induction false} DownloadBinarySucceeds(d: Disk, url: string, h: Host, reply: HttpReply, unzip: Bytes -> Option<seq<Bytes>>)
    requires Separate(h)
    requires DownloadBinarySpec(d, url, h, reply, unzip).result.Ok?
    ensures var r := DownloadBinarySpec(d, url, h, reply, unzip);
            var exe := ExePath(h);
            && reply.Reply? && reply.status == 200 && reply.body.Some?
            && unzip(reply.body.value).Some? && |unzip(reply.body.value).value| > 0
            && exe in d.files
            && r.disk.files ==
                 (d.files[ArchivePath(h.pkg) := reply.body.value] - {StagedName(h.pkg), StagedBeside(h)})
                   [ROLLBACK := d.files[exe]][exe := unzip(reply.body.value).value[0]]
            && r.disk.dirs == d.dirs + {TMP_DIR, CACHE_DIR}
  {
    FixedPathsDistinct(h.pkg);
    var staged := StageSpec(d, url, h, reply, unzip);
    StageSucceeds(d, url, h, reply, unzip);
    SwapSucceeds(staged.disk, h);
    var body := reply.body.value;
    var entry := unzip(body).value[0];
    var exe, name, beside := ExePath(h), StagedName(h.pkg), StagedBeside(h);
    assert staged.disk.files[exe] == d.files[exe];
    assert (staged.disk.files - {name, beside}) == (d.files[ArchivePath(h.pkg) := body] - {name, beside});
  }

  /** `download_binary` never touches `Version.toml`. */
  lemma DownloadBinaryKeepsVersionFile(d: Disk, url: string, h: Host, reply: HttpReply, unzip: Bytes -> Option<seq<Bytes>>)
    requires Separate(h)
    ensures var after := DownloadBinarySpec(d, url, h, reply, unzip).disk;
            && (VERSION_FILE in after.files <==> VERSION_FILE in d.files)
            && (VERSION_FILE in d.files ==> after.files[VERSION_FILE] == d.files[VERSION_FILE])
  {
    FixedPathsDistinct(h.pkg);
  }

  // ---------------------------------------------------------------------------------------
  // The whole check

  /** How `check_for_updates` ends: `Ok(())`, an `Err`, or a panic. */
  datatype Outcome = Completed | Failed(error: Error) | Panicked(message: string)

  /** Everything outside the process: whether `online::check` succeeds, the line typed at the
      prompt, the metadata reply, `env::consts::OS`, the archive download and ZIP decoding. */
  datatype World = World(
    online: bool,
    answer: string,
    api: ApiReply,
    os: string,
    download: HttpReply,
    unzip: Bytes -> Option<seq<Bytes>>)

  datatype Session = Session(disk: Disk, outcome: Outcome)

  /** `check_for_updates`. */
  function CheckForUpdatesSpec(d: Disk, toml: Toml, h: Host, w: World): (s: Session)
    ensures s.disk.refused == d.refused
    ensures d.Valid() ==> s.disk.Valid()
  {
    var loaded := GetVersionSpec(d, toml);
    if loaded.result.Err? then Session(loaded.disk, Failed(loaded.result.error)) else
    ActSpec(loaded.disk, toml, h, w, Decide(loaded.result.value, w.online, w.answer, w.api, GetOs(w.os), h.pkg))
  }

  /** What `check_for_updates` does once the record is loaded and the branch is known. */
  function ActSpec(current: Disk, toml: Toml, h: Host, w: World, dec: Decision): (s: Session)
    ensures s.disk.refused == current.refused
    ensures current.Valid() ==> s.disk.Valid()
  {
    match dec
    case NetworkInitFailure => Session(current, Failed(UpdateError(INIT_FAILURE)))
    case ContinueOffline => Session(current, Completed)
    case Aborted => Session(current, Failed(UpdateError(ABORTED)))
    case ApiFailure(e) => Session(current, Failed(e))
    case MissingField => Session(current, Panicked(UNWRAP_NONE))
    case UpToDate => Session(current, Completed)
    case UnsupportedOs => Session(current, Panicked(UNSUPPORTED_OS))
    case Install(url, record) => InstallSpec(current, toml, h, w, url, record)
  }

  /** Lines 84-87 of `check_for_updates`: download and swap, then record the new version. */
  function InstallSpec(d: Disk, toml: Toml, h: Host, w: World, url: string, record: Version): (s: Session)
    ensures s.disk.refused == d.refused
    ensures d.Valid() ==> s.disk.Valid()
  {
    RecordSpec(DownloadBinarySpec(d, url, h, w.download, w.unzip), toml, record)
  }

  /** Line 85 of `check_for_updates`: after the download, save the new record, unless the
      download failed, whose error then ends the check. */
  function RecordSpec(fetched: Run<()>, toml: Toml, record: Version): (s: Session)
    ensures s.disk.refused == fetched.disk.refused
    ensures fetched.disk.Valid() ==> s.disk.Valid()
  {
    if fetched.result.Err? then Session(fetched.disk, Failed(fetched.result.error)) else
    var saved := SetVersionSpec(fetched.disk, toml.render(Data(record)));
    if saved.result.Err? then Session(saved.disk, Failed(saved.result.error))
    else Session(saved.disk, Completed)
  }

  /** The new record is written only after `download_binary` succeeded: when the download
      fails, `Version.toml` is untouched; when it succeeds, the file is overwritten (without
      truncation) with the record, and nothing but `Version.toml` changes after the swap. */
  lemma {:induction false} InstallRecordsAfterDownload(d: Disk, toml: Toml, h: Host, w: World, url: string, record: Version)
    requires Separate(h)
    requires VERSION_FILE in d.files
    ensures var fetched := DownloadBinarySpec(d, url, h, w.download, w.unzip);
            var s := InstallSpec(d, toml, h, w, url, record);
            && (fetched.result.Err? ==>
                  s == Session(fetched.disk, Failed(fetched.result.error)) &&
                  VERSION_FILE in s.disk.files && s.disk.files[VERSION_FILE] == d.files[VERSION_FILE])
            && (fetched.result.Ok? ==>
                  && s.disk.files - {VERSION_FILE} == fetched.disk.files - {VERSION_FILE}
                  && (s.outcome == Completed ==>
                        s.disk.files[VERSION_FILE] == Overwrite(d.files[VERSION_FILE], toml.render(Data(record)))))
  {
    var fetched := DownloadBinarySpec(d, url, h, w.download, w.unzip);
    DownloadBinaryKeepsVersionFile(d, url, h, w.download, w.unzip);
    if fetched.result.Ok? && InstallSpec(d, toml, h, w, url, record).outcome == Completed {
      SetVersionKeepsTail(fetched.disk, toml.render(Data(record)));
    }
  }

  /** Offline with nothing installed fails with the network error; nothing is written beyond
      what loading the record wrote, so nothing at all when `Version.toml` existed. */
  lemma CheckOfflineFreshInstall(d: Disk, toml: Toml, h: Host, w: World)
    requires !w.online
    requires GetVersionSpec(d, toml).result.Ok? && GetVersionSpec(d, toml).result.value.binaryId == 0
    ensures var s := CheckForUpdatesSpec(d, toml, h, w);
            && s.outcome == Failed(UpdateError("Failed to initilize binary: Network error"))
            && s.disk == GetVersionSpec(d, toml).disk
            && (VERSION_FILE in d.files ==> s.disk == d)
  {
    if VERSION_FILE in d.files {
      GetVersionReadsExisting(d, toml);
    }
  }

  /** Offline with an installed version: "yes" or "y" ends the check successfully, any other
      answer aborts it; either way nothing is downloaded or recorded. */
  lemma CheckOffline(d: Disk, toml: Toml, h: Host, w: World)
    requires !w.online
    requires GetVersionSpec(d, toml).result.Ok? && GetVersionSpec(d, toml).result.value.binaryId != 0
    ensures var s := CheckForUpdatesSpec(d, toml, h, w);
            && s.disk == GetVersionSpec(d, toml).disk
            && (s.outcome == Completed <==> Trim(w.answer) == "yes" || Trim(w.answer) == "y")
            && (s.outcome != Completed ==> s.outcome == Failed(UpdateError("Update aborted")))
  {
  }

  /** Online with the stored id equal to the remote id, the check ends successfully with no
      download, and `Version.toml` is as loading left it. */
  lemma CheckUpToDate(d: Disk, toml: Toml, h: Host, w: World, id: i64, tag: string)
    requires w.online && w.api == Release(Some(id), Some(tag))
    requires GetVersionSpec(d, toml).result.Ok? && GetVersionSpec(d, toml).result.value.binaryId == I64ToUsize(id)
    ensures var s := CheckForUpdatesSpec(d, toml, h, w);
            && s == Session(GetVersionSpec(d, toml).disk, Completed)
            && (VERSION_FILE in d.files ==> s.disk == d)
  {
    DecideUpToDate(GetVersionSpec(d, toml).result.value, w.answer, id, tag, GetOs(w.os), h.pkg);
    if VERSION_FILE in d.files {
      GetVersionReadsExisting(d, toml);
    }
  }

  /** Online, a failed metadata request ends the check with its error, a reply without an id
      or a tag panics, and so does an unsupported platform when the ids differ: in each case
      nothing is downloaded and `Version.toml` is as loading left it. */
  lemma CheckStopsBeforeDownload(d: Disk, toml: Toml, h: Host, w: World)
    requires w.online
    requires GetVersionSpec(d, toml).result.Ok?
    ensures var s := CheckForUpdatesSpec(d, toml, h, w);
            var stored := GetVersionSpec(d, toml).result.value;
            && (w.api == Unreachable ==> s == Session(GetVersionSpec(d, toml).disk, Failed(HttpError)))
            && (w.api == NotJson ==> s == Session(GetVersionSpec(d, toml).disk, Failed(JsonError)))
            && (w.api.Release? && (w.api.id.None? || w.api.tagName.None?) ==>
                  s == Session(GetVersionSpec(d, toml).disk, Panicked(UNWRAP_NONE)))
            && (w.api.Release? && w.api.id.Some? && w.api.tagName.Some? &&
                stored.binaryId != I64ToUsize(w.api.id.value) && GetOs(w.os) == Unsupported ==>
                  s == Session(GetVersionSpec(d, toml).disk, Panicked(UNSUPPORTED_OS)))
  {
    if w.api.Release? && w.api.id.Some? && w.api.tagName.Some? {
      CastsAreInverse(GetVersionSpec(d, toml).result.value.binaryId, w.api.id.value);
    }
  }

  /** Once loading the record succeeded and the branch is to install, the check is exactly
      the download followed by recording the new version, on the disk as loading left it. */
  lemma CheckInstalls(d: Disk, toml: Toml, h: Host, w: World, url: string, record: Version)
    requires GetVersionSpec(d, toml).result.Ok?
    requires Decide(GetVersionSpec(d, toml).result.value, w.online, w.answer, w.api, GetOs(w.os), h.pkg) == Install(url, record)
    ensures CheckForUpdatesSpec(d, toml, h, w) == InstallSpec(GetVersionSpec(d, toml).disk, toml, h, w, url, record)
  {
    var loaded := GetVersionSpec(d, toml);
    var dec := Decide(loaded.result.value, w.online, w.answer, w.api, GetOs(w.os), h.pkg);
    assert CheckForUpdatesSpec(d, toml, h, w) == ActSpec(loaded.disk, toml, h, w, dec);
  }

  /** Nothing stands in the way of an update: no path is both a file and a directory, the OS
      refuses nothing, the staging directories are not files, and none of the files the
      updater creates is a directory (the executable and `Version.toml`, being files, are not
      directories either on such a disk). */
  predicate Cooperative(d: Disk, h: Host)
  {
    && d.Valid()
    && d.refused == {}
    && TMP_DIR !in d.files && CACHE_DIR !in d.files
    && ArchivePath(h.pkg) !in d.dirs && StagedName(h.pkg) !in d.dirs && StagedBeside(h) !in d.dirs
    && ROLLBACK !in d.dirs
  }

  /** On a cooperating disk, a 200 reply carrying a readable, non-empty archive makes
      `download_binary` succeed: entry 0 replaces the executable and the old executable is
      kept at the rollback path. */
  lemma {:induction false} DownloadBinaryCooperative(d: Disk, url: string, h: Host, body: Bytes, unzip: Bytes -> Option<seq<Bytes>>)
    requires Separate(h) && Cooperative(d, h)
    requires ExePath(h) in d.files
    requires unzip(body).Some? && |unzip(body).value| > 0
    ensures var r := DownloadBinarySpec(d, url, h, Reply(200, Some(body)), unzip);
            && r.result.Ok?
            && r.disk.files[ExePath(h)] == unzip(body).value[0]
            && r.disk.files[ROLLBACK] == d.files[ExePath(h)]
  {
    var reply := Reply(200, Some(body));
    assert ExePath(h) !in d.dirs;
    FixedPathsDistinct(h.pkg);
    StageSucceedsWhen(d, url, h, body, unzip);
    var staged := StageSpec(d, url, h, reply, unzip);
    StageSucceeds(d, url, h, reply, unzip);
    assert staged.disk.refused == {};
    assert StagedName(h.pkg) in staged.disk.files && ExePath(h) in staged.disk.files;
    assert staged.disk.dirs == d.dirs + {TMP_DIR, CACHE_DIR};
    SwapSucceeds(staged.disk, h);
    assert SwapSpec(staged.disk, h).result.Ok?;
    DownloadBinarySucceeds(d, url, h, reply, unzip);
  }

  /** After a successful download, a cooperating `Version.toml` no longer than the new
      serialisation makes the check complete, and loading the record afterwards gives it,
      provided its id fits a TOML integer. */
  lemma {:induction false} RecordSavesRecord(fetched: Run<()>, toml: Toml, record: Version)
    requires RoundTrips(toml) && record.binaryId < TOML_INT_LIMIT
    requires fetched.result.Ok?
    requires var f := fetched.disk;
             && VERSION_FILE in f.files && |f.files[VERSION_FILE]| <= |toml.render(Data(record))|
             && VERSION_FILE !in f.dirs
             && Refuse(Opening, VERSION_FILE) !in f.refused && Refuse(Writing, VERSION_FILE) !in f.refused
             && Refuse(Reading, VERSION_FILE) !in f.refused
    ensures var s := RecordSpec(fetched, toml, record);
            && s.outcome == Completed
            && s.disk.files - {VERSION_FILE} == fetched.disk.files - {VERSION_FILE}
            && GetVersionSpec(s.disk, toml).result == Ok(record)
  {
    SetThenGetVersion(fetched.disk, toml, record);
  }

  /** The install step on a cooperating disk: after a good 200 reply, the executable's path
      holds entry 0 of the archive, the rollback path holds the old executable, and loading
      the record afterwards gives the new one, when its id fits a TOML integer and its
      serialisation is no shorter than the old file. */
  lemma {:induction false} InstallCompletes(d: Disk, toml: Toml, h: Host, w: World, url: string, record: Version, body: Bytes)
    requires RoundTrips(toml) && Separate(h) && Cooperative(d, h)
    requires VERSION_FILE in d.files && |d.files[VERSION_FILE]| <= |toml.render(Data(record))|
    requires record.binaryId < TOML_INT_LIMIT
    requires ExePath(h) in d.files
    requires w.download == Reply(200, Some(body)) && w.unzip(body).Some? && |w.unzip(body).value| > 0
    ensures var s := InstallSpec(d, toml, h, w, url, record);
            && s.outcome == Completed
            && ExePath(h) in s.disk.files && s.disk.files[ExePath(h)] == w.unzip(body).value[0]
            && ROLLBACK in s.disk.files && s.disk.files[ROLLBACK] == d.files[ExePath(h)]
            && GetVersionSpec(s.disk, toml).result == Ok(record)
  {
    var fetched := DownloadBinarySpec(d, url, h, w.download, w.unzip);
    assert VERSION_FILE !in d.dirs;
    DownloadBinaryCooperative(d, url, h, body, w.unzip);
    DownloadBinaryKeepsVersionFile(d, url, h, w.download, w.unzip);
    assert fetched.disk.dirs == d.dirs + {TMP_DIR, CACHE_DIR} by {
      DownloadBinarySucceeds(d, url, h, w.download, w.unzip);
    }
    FixedPathsDistinct(h.pkg);
    RecordSavesRecord(fetched, toml, record);
    var s := InstallSpec(d, toml, h, w, url, record);
    assert s == RecordSpec(fetched, toml, record);
    assert ExePath(h) in fetched.disk.files - {VERSION_FILE};
    assert ROLLBACK in fetched.disk.files - {VERSION_FILE};
    assert s.disk.files[ExePath(h)] == fetched.disk.files[ExePath(h)];
    assert s.disk.files[ROLLBACK] == fetched.disk.files[ROLLBACK];
  }

  /** With the stored record readable and a different release on a supported platform, the
      check is the install step from that platform's URL, with the remote id and tag, on the
      disk as it was. */
  lemma CheckReachesInstall(d: Disk, toml: Toml, h: Host, w: World, stored: Version, id: i64, tag: string)
    requires RoundTrips(toml) && stored.binaryId < TOML_INT_LIMIT
    requires VERSION_FILE in d.files && d.files[VERSION_FILE] == toml.render(Data(stored))
    requires Refuse(Reading, VERSION_FILE) !in d.refused
    requires w.online && w.api == Release(Some(id), Some(tag)) && GetOs(w.os) != Unsupported
    requires stored.binaryId != I64ToUsize(id)
    ensures CheckForUpdatesSpec(d, toml, h, w) ==
              InstallSpec(d, toml, h, w, AssetUrl(tag, h.pkg, AssetSuffix(GetOs(w.os)).value), Version(I64ToUsize(id), tag))
  {
    assert GetVersionSpec(d, toml) == Run(d, Ok(stored)) by {
      GetVersionReadsExisting(d, toml);
      assert toml.parse(toml.render(Data(stored))) == Some(Data(stored));
    }
    DecideInstallsWhen(stored, w.answer, id, tag, GetOs(w.os), h.pkg);
    CheckInstalls(d, toml, h, w, AssetUrl(tag, h.pkg, AssetSuffix(GetOs(w.os)).value), Version(I64ToUsize(id), tag));
  }

  /** A complete update: online, on a supported platform, with a non-negative release id that
      differs from the stored one and a cooperating disk, the check completes; the executable's
      path holds entry 0 of the downloaded archive, the rollback path holds the old executable,
      and loading the record afterwards gives the release's id and tag, provided the new
      record's serialisation is no shorter than the old one. */
  lemma {:induction false} UpdateEndToEnd(d: Disk, toml: Toml, h: Host, w: World, stored: Version, id: i64, tag: string, body: Bytes)
    requires RoundTrips(toml) && Separate(h) && Cooperative(d, h)
    requires VERSION_FILE in d.files && d.files[VERSION_FILE] == toml.render(Data(stored))
    requires ExePath(h) in d.files
    requires w.online && w.api == Release(Some(id), Some(tag)) && GetOs(w.os) != Unsupported
    requires 0 <= id && stored.binaryId < TOML_INT_LIMIT && stored.binaryId != I64ToUsize(id)
    requires |toml.render(Data(stored))| <= |toml.render(Data(Version(I64ToUsize(id), tag)))|
    requires w.download == Reply(200, Some(body)) && w.unzip(body).Some? && |w.unzip(body).value| > 0
    ensures var s := CheckForUpdatesSpec(d, toml, h, w);
            && s.outcome == Completed
            && ExePath(h) in s.disk.files && s.disk.files[ExePath(h)] == w.unzip(body).value[0]
            && ROLLBACK in s.disk.files && s.disk.files[ROLLBACK] == d.files[ExePath(h)]
            && GetVersionSpec(s.disk, toml).result == Ok(Version(I64ToUsize(id), tag))
  {
    var record := Version(I64ToUsize(id), tag);
    var url := AssetUrl(tag, h.pkg, AssetSuffix(GetOs(w.os)).value);
    assert record.binaryId == id < TOML_INT_LIMIT;
    InstallCompletes(d, toml, h, w, url, record, body);
    CheckReachesInstall(d, toml, h, w, stored, id, tag);
    var installed := InstallSpec(d, toml, h, w, url, record);
    assert CheckForUpdatesSpec(d, toml, h, w) == installed;
    assert GetVersionSpec(installed.disk, toml).result == Ok(record);
  }

  // ---------------------------------------------------------------------------------------
  // The imperative code

  /** `download_binary`, performing each call on the shared file system in turn. */
  method DownloadBinary(fs: FileSystem, url: string, h: Host, reply: HttpReply, unzip: Bytes -> Option<seq<Bytes>>)
    returns (r: Result<()>)
    modifies fs
    ensures Run(fs.State(), r) == DownloadBinarySpec(old(fs.State()), url, h, reply, unzip)
  {
    r := DirExists(fs, TMP_DIR);
    if r.Err? {
      return;
    }
    r := DirExists(fs, CACHE_DIR);
    if r.Err? {
      return;
    }
    var tmpExecName := ArchivePath(h.pkg);
    var execName := StagedName(h.pkg);

    if reply.TransportFailure? {
      return Err(HttpError);
    }
    if reply.status != 200 {
      return Err(UpdateError("Failed to access installation binary <" + url + ">"));
    }
    r := fs.CreateFile(tmpExecName);
    if r.Err? {
      return;
    }
    if reply.body.None? {
      return Err(HttpError);
    }
    r := fs.Write(tmpExecName, reply.body.value);
    if r.Err? {
      return;
    }

    r := fs.Open(tmpExecName);
    if r.Err? {
      return;
    }
    var archive := unzip(fs.files[tmpExecName]);
    if archive.None? || |archive.value| == 0 {
      return Err(ZipError);
    }
    r := fs.CreateFile(execName);
    if r.Err? {
      return;
    }
    r := fs.Write(execName, archive.value[0]);
    if r.Err? {
      return;
    }

    var execPath := ExePath(h);
    var beside := StagedBeside(h);
    r := fs.Rename(execName, beside);
    if r.Err? {
      return;
    }
    r := fs.Rename(execPath, ROLLBACK);
    if r.Err? {
      return;
    }
    r := fs.Rename(beside, execPath);
  }

  /** `check_for_updates`, loading the record, deciding, then downloading and recording. */
  method CheckForUpdates(fs: FileSystem, toml: Toml, h: Host, w: World) returns (outcome: Outcome)
    modifies fs
    ensures Session(fs.State(), outcome) == CheckForUpdatesSpec(old(fs.State()), toml, h, w)
  {
    var version := GetVersion(fs, toml);
    if version.Err? {
      return Failed(version.error);
    }
    match Decide(version.value, w.online, w.answer, w.api, GetOs(w.os), h.pkg) {
      case NetworkInitFailure => outcome := Failed(UpdateError(INIT_FAILURE));
      case ContinueOffline => outcome := Completed;
      case Aborted => outcome := Failed(UpdateError(ABORTED));
      case ApiFailure(e) => outcome := Failed(e);
      case MissingField => outcome := Panicked(UNWRAP_NONE);
      case UpToDate => outcome := Completed;
      case UnsupportedOs => outcome := Panicked(UNSUPPORTED_OS);
      case Install(url, record) =>
        var fetched := DownloadBinary(fs, url, h, w.download, w.unzip);
        if fetched.Err? {
          return Failed(fetched.error);
        }
        var saved := SetVersion(fs, toml.render(Data(record)));
        outcome := if saved.Err? then Failed(saved.error) else Completed;
    }
  }
}
