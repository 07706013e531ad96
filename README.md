# rust-auto-update, modelled in Dafny

A model of the self-update routine of `rust-auto-update`. On start-up the program loads
the installed release from `Version.toml`. It then decides, from the network state, the
answer typed at the offline prompt and the latest release's metadata, whether to install
anything. To install, it downloads the platform's release archive into `version-tmp/`. It
writes the archive's first entry to `tmp-<package>.exe` and swaps that file in for the running
executable with three renames. The old executable is kept at `version-cache/last.exe`.
Finally it records the new release's id and tag in `Version.toml`.

Modules:

- `Fs` (`fs.dfy`): the file system as a value (`Disk`: files with their bytes, directories,
  and the calls the operating system refuses) with one function per system call, and a
  class `FileSystem` holding the same state whose methods perform those calls in place.
- `Process` (`process.dfy`): the classification of the platform name.
- `Utility` (`utility.dfy`): the `Version` record and `get_version`, `set_version`,
  `dir_exists`, `file_exists`.
- `Update` (`update.dfy`): `check_for_updates` and `download_binary`.

Every operation that changes the file system is a method on a `FileSystem`. Each such method
is proved to have exactly the effect of a function on `Disk` (`GetVersionSpec`,
`DownloadBinarySpec`, `CheckForUpdatesSpec`, ...). The properties are proved as lemmas about
those functions.

Points where the model follows the code as written:

- `Version`'s fields are `binary_id` and `version_label` (`src/utility.rs:23-26`). The update
  check reads them as `id` and `label` (`src/update.rs:38,66,74,85`). The model uses the
  struct's names and gives the check's reads the meaning of those fields.
- The Linux download uses `LINUX_BINARY`, whose value is the Darwin archive name
  `x86_64-apple-darwin.zip` (`src/update.rs:16,80`). `MAC_BINARY` holds the Linux name and
  is never used. There is no macOS platform: `"macos"` is `Unsupported`, and the check
  panics on it after the ids differ.
- `set_version` opens `Version.toml` without truncating it (`src/utility.rs:52`). A new
  record shorter than the old file leaves the old file's tail behind it
  (`Utility.SetVersionKeepsTail`). The update check's success says nothing about whether the
  record can be read back afterwards.
- The status of the metadata request is not checked. Only the archive download checks for
  status 200 (`src/update.rs:101`).
- Nothing is rolled back. If the third rename fails, the executable's path holds no file, the
  old executable sits at the rollback path and the new one sits beside it
  (`Update.SwapPromoteFails`).
- The stored id is compared after `usize as i64`, and the new id is recorded after
  `i64 as usize`. Both casts are modelled on 64 bits, so a negative remote id becomes a record
  whose id is 2^63 or more. TOML integers are signed 64-bit (TOML v1.0.0), so such a record
  cannot be written and read back: the TOML codec is only taken to round-trip records whose
  id is below 2^63 (`Utility.RoundTrips`).

Inputs of the model: whether the network check succeeds, the line typed at the prompt, the
metadata reply (`ApiReply`), `env::consts::OS`, the archive reply (`HttpReply`), ZIP decoding
(`Bytes -> Option<seq<Bytes>>`), TOML serialisation and parsing (`Utility.Toml`), the package
name and the running executable's directory and file name (`Update.Host`).

## Model

| member | source | states |
|---|---|---|
| Process.GetOs | src/process.rs:9-15 | the platform is Linux exactly for "linux", Windows exactly for "windows", and Unsupported for every other name |
| Process.OtherNamesAreUnsupported | src/process.rs:10-14 | the match is exact and case-sensitive: "macos", "Linux", "Windows" and "" are all Unsupported |
| Fs.Overwrite | src/utility.rs:52-55 | a write at offset 0 without truncation leaves the new bytes followed by the old file's bytes beyond their length |
| Fs.OverwriteIsExact | src/utility.rs:52-55 | such a write leaves exactly the new bytes if and only if the old contents were no longer |
| Utility.DirExistsSpec | src/utility.rs:61-67 | `dir_exists` succeeds exactly when the path is a directory afterwards; it changes no file and no other directory, and it does nothing when the directory exists |
| Utility.DirExistsIdempotent | src/utility.rs:61-67 | a second `dir_exists` on the same path changes nothing and returns the same result |
| Utility.FileExistsSpec | src/utility.rs:69-77 | `file_exists` does nothing to an existing file; when it creates the file and succeeds, the file holds the default bytes; no other path changes |
| Utility.FileExistsSucceeds | src/utility.rs:69-77 | `file_exists` succeeds if and only if the file exists, or it can be created and written |
| Utility.FileExistsIdempotent | src/utility.rs:69-77 | a second `file_exists` leaves the disk as the first did, and succeeds when the first did |
| Utility.DefaultVersion | src/utility.rs:28-35 | the default record has id 0, the value that means nothing is installed, and label "unset" |
| Utility.GetVersionSpec | src/utility.rs:37-47 | `get_version` changes at most `Version.toml`, and the file exists whenever it succeeds |
| Utility.GetVersionCreatesDefault | src/utility.rs:28-47 | with no `Version.toml`, `get_version` writes the default record and returns id 0, label "unset" |
| Utility.GetVersionReadsExisting | src/utility.rs:37-47 | with `Version.toml` present, `get_version` writes nothing; it succeeds exactly when the file is readable and parses, and it returns the parsed record |
| Utility.SetVersionSpec | src/utility.rs:49-58 | `set_version` changes at most `Version.toml`, and the file exists whenever it succeeds |
| Utility.SetVersionKeepsTail | src/utility.rs:49-58 | after `set_version` the file holds the new bytes over the old contents, with no truncation; it holds exactly the new bytes if and only if the old contents were no longer |
| Utility.SetVersionSucceeds | src/utility.rs:49-58 | `set_version` succeeds if and only if `Version.toml` is no directory and can be opened and written |
| Utility.SetThenGetVersion | src/utility.rs:37-58 | saving a record and loading it back gives the record, when its id fits a TOML integer and the old file was no longer than the new serialisation |
| Utility.DirExists | src/utility.rs:61-67 | performs `dir_exists` on the shared file system with exactly the effect of `DirExistsSpec` |
| Utility.FileExists | src/utility.rs:69-77 | performs `file_exists` on the shared file system with exactly the effect of `FileExistsSpec` |
| Utility.GetVersion | src/utility.rs:37-47 | performs `get_version` on the shared file system with exactly the effect of `GetVersionSpec` |
| Utility.SetVersion | src/utility.rs:49-58 | performs `set_version` on the shared file system with exactly the effect of `SetVersionSpec` |
| Update.UsizeToI64 | src/update.rs:66 | `as i64` keeps the 64 bits of the stored id |
| Update.I64ToUsize | src/update.rs:85 | `as usize` keeps the 64 bits of the remote id |
| Update.CastsAreInverse | src/update.rs:66 | the two casts undo each other, so comparing after either cast gives the same answer |
| Update.TrimStart | src/update.rs:46 | the result is the input with its leading whitespace removed |
| Update.TrimEnd | src/update.rs:46 | the result is the input with its trailing whitespace removed |
| Update.Trim | src/update.rs:46 | the trimmed answer neither starts nor ends with whitespace |
| Update.TrimIsSlice | src/update.rs:46 | the trimmed answer is the slice of the input left after cutting away all leading and all trailing whitespace, with only whitespace on either side of it |
| Update.TrimStartAppend | src/update.rs:46 | adding a whitespace character at the end of the input adds it after the leading whitespace is cut, unless nothing else is left |
| Update.TrimDropsTrailingWhitespace | src/update.rs:46 | one more whitespace character at the end of any answer does not change its trimmed form |
| Update.TrimIdempotent | src/update.rs:46 | trimming twice is trimming once |
| Update.LineBreakIsTrimmed | src/update.rs:44-46 | for every answer, the "\n" or Windows "\r\n" that `read_line` keeps does not change the trimmed answer |
| Update.CaseIsKept | src/update.rs:46 | an answer with no whitespace at either end, followed by a line break or not, trims to itself, so no case is folded and "Yes" is not "yes" |
| Update.AssetSuffix | src/update.rs:14-16 | Windows gets the Windows archive, Linux gets the Darwin archive name, and only the unsupported platform gets none |
| Update.AssetUrl | src/update.rs:78-81 | the release asset's URL begins with the repository's download path; `AssetUrlLayout` gives the rest of its layout |
| Update.AssetUrlLayout | src/update.rs:79-80 | the asset URL starts with the repository's download path followed by the tag and ends with the platform's archive name |
| Update.AssetUrlNamesRelease | src/update.rs:79-80 | two asset URLs for the same package and platform are equal if and only if their tags are equal |
| Update.Decide | src/update.rs:35-82 | offline: the init failure for id 0, otherwise continue exactly on "yes" or "y" after trimming; online: the request's error, the unwrap panic for a missing field, up to date exactly when the ids are equal, and install exactly when they differ on a supported platform, from that platform's URL with the remote id and tag |
| Update.DecideOfflineFreshInstall | src/update.rs:35-40 | offline with stored id 0, the check fails with the network error whatever the answer |
| Update.DecideOffline | src/update.rs:42-50 | offline with an installed release, the check continues if and only if the trimmed answer is "yes" or "y", and aborts otherwise |
| Update.DecideUpToDate | src/update.rs:63-69 | online with a well-formed release, the check is up to date if and only if the ids are equal |
| Update.DecideInstall | src/update.rs:62-82 | the check installs only when online, with both fields present, different ids and a supported platform; it records the remote id and tag and downloads from the platform's asset URL (the Darwin archive on Linux) |
| Update.DecideInstallsWhen | src/update.rs:66-82 | conversely, those conditions always lead to that install |
| Update.DecideUnsupported | src/update.rs:77-81 | an unsupported platform with different ids panics before any download |
| Update.FixedPathsDistinct | src/update.rs:92-96 | the archive, the staged file, the rollback copy and `Version.toml` are distinct paths, and none of the first three is a staging directory |
| Update.StageSpec | src/update.rs:92-116 | the first part of `download_binary` keeps the refusals, adds no directory besides `version-tmp` and `version-cache`, and changes no file besides the archive and the staged file |
| Update.SwapSpec | src/update.rs:119-130 | the three renames keep the directories and change no file besides the staged file, its copy beside the executable, the executable and the rollback copy |
| Update.DownloadBinarySpec | src/update.rs:90-134 | `download_binary`, however it ends, adds no directory besides `version-tmp` and `version-cache` and changes no file besides the archive, the two staged paths, the executable and the rollback copy |
| Update.StageRejectsStatus | src/update.rs:99-103 | a reply whose status is not 200 fails with the error that names the URL; both staging directories exist and no file was written |
| Update.StageSucceeds | src/update.rs:99-116 | staging succeeds only on a 200 reply with a readable, non-empty archive; the archive file then holds the body and the staged file holds entry 0 |
| Update.StageSucceedsWhen | src/update.rs:92-116 | conversely, such a reply on a cooperating disk stages entry 0 |
| Update.SwapSucceeds | src/update.rs:124-130 | the swap succeeds if and only if both files exist, no rename is refused and no destination is a directory; the executable's path then holds the new binary and the rollback path the old one |
| Update.SwapStageMoveFails | src/update.rs:124 | when the first rename fails, nothing has moved |
| Update.SwapCacheOutFails | src/update.rs:124-127 | when the second rename fails, the staged file sits beside the executable, which has not moved |
| Update.SwapPromoteFails | src/update.rs:124-130 | when the third rename fails, the executable's path holds no file, the rollback path holds the old executable and the new one stays beside it: nothing is undone |
| Update.DownloadBinarySucceeds | src/update.rs:90-134 | after a complete download, the executable's path holds entry 0, the rollback path holds the old executable, the archive remains, no staged file remains, nothing else changed and both staging directories exist |
| Update.DownloadBinaryKeepsVersionFile | src/update.rs:90-134 | `download_binary` never touches `Version.toml` |
| Update.DownloadBinaryCooperative | src/update.rs:90-134 | on a cooperating disk, a 200 reply with a readable, non-empty archive makes the download succeed and swaps entry 0 in for the executable |
| Update.DownloadBinary | src/update.rs:90-134 | performs `download_binary` on the shared file system, call by call, with exactly the effect of `DownloadBinarySpec` |
| Update.CheckForUpdatesSpec | src/update.rs:30-88 | the check keeps the refusals and a consistent disk |
| Update.ActSpec | src/update.rs:35-87 | what follows the load keeps the refusals and a consistent disk |
| Update.InstallSpec | src/update.rs:84-87 | the install step keeps the refusals and a consistent disk |
| Update.RecordSpec | src/update.rs:84-87 | the recording step keeps the refusals and a consistent disk |
| Update.InstallRecordsAfterDownload | src/update.rs:84-85 | the record is written only after a successful download: a failed download leaves `Version.toml` as it was, and a completed install overwrites it with the new record without truncation and changes nothing else |
| Update.RecordSavesRecord | src/update.rs:85 | after a successful download on a cooperating disk, the check completes and loading the record gives the new one, when its id fits a TOML integer |
| Update.CheckOfflineFreshInstall | src/update.rs:32-40 | offline with nothing installed, the check fails with the network error and writes nothing beyond the default record |
| Update.CheckOffline | src/update.rs:35-50 | offline with an installed release, the check completes if and only if the trimmed answer is "yes" or "y" (the line read keeps its line break), aborts otherwise, downloads nothing and leaves the disk as loading the record left it |
| Update.CheckUpToDate | src/update.rs:62-69 | online with equal ids, the check completes with no download on the disk as loading the record left it, which is the disk it started from when `Version.toml` existed (otherwise loading wrote the default record) |
| Update.CheckStopsBeforeDownload | src/update.rs:56-81 | a failed metadata request fails the check with its error, a missing id or tag panics, and so does an unsupported platform; none of these downloads anything |
| Update.CheckInstalls | src/update.rs:77-87 | on the install branch, the check is the download followed by recording the new version |
| Update.CheckReachesInstall | src/update.rs:32-84 | with the stored record readable and a different release on a supported platform, the check is the install step from that platform's URL with the remote id and tag |
| Update.InstallCompletes | src/update.rs:84-87 | on a cooperating disk with a good 200 reply, the install step completes, the executable holds entry 0, the rollback copy holds the old executable and loading the record gives the new one, when its id fits a TOML integer |
| Update.UpdateEndToEnd | src/update.rs:30-88 | a complete update to a release with a non-negative id on a cooperating disk: the check completes, the executable holds the new binary, the rollback copy holds the old one, and loading the record gives the new id and tag, when the new serialisation is no shorter than the old |
| Update.CheckForUpdates | src/update.rs:30-88 | performs `check_for_updates` on the shared file system with exactly the effect of `CheckForUpdatesSpec` |

## Left out

- Network access, HTTP and `async`: the connectivity check, the metadata reply and the archive
  reply are inputs. The `User-Agent` header and the request URL of the metadata call are not
  modelled.
- Terminal input and output: the answer to the offline prompt is an input, and the `println!`
  messages are not modelled. A failing `read_line` (an `unwrap` panic) is not modelled.
- ZIP decoding is an input function from the archive bytes to its entries. Decompression
  errors while copying entry 0 are not modelled.
- TOML is an input codec (`Utility.Toml`). Its round trip is a hypothesis (`RoundTrips`) of the
  lemmas that need it. The panic of `toml::to_string(...).unwrap()` is not modelled.
- JSON parsing is folded into `ApiReply`: invalid JSON is `NotJson`, and a missing or mistyped
  `id` or `tag_name` is `None`, which panics at the `unwrap`.
- `env::current_exe()` and `parent()` are taken to succeed. The executable's directory and
  name are inputs. Symbolic links, relative versus absolute paths and path normalisation are
  not modelled: paths are canonical strings.
- Utility.SetVersionSpec: a refused write is reported as an error of `write_all`. A real
  `BufWriter` holding fewer than 8 KiB only buffers, and the flush at drop would lose the error.
- Errors carry more than the program reports. An `IoError` names the call and the path, and a
  rename error names its destination. This lets the lemmas tell the three renames apart. The
  program's `io::Error` carries neither, and the caller cannot tell which step failed.
  Invalid UTF-8 in `Version.toml` fails `read_to_string` with an I/O error; here it is a
  `TomlError`, because parsing takes the raw bytes.
- A negative remote id: `i64 as usize` gives an id of 2^63 or more, which TOML cannot hold.
  Whether `toml::to_string` then panics or `toml::from_str` later rejects the file depends on
  the `toml` crate. The model promises nothing about reading such a record back
  (`Utility.RoundTrips` covers ids below 2^63 only, and `Update.UpdateEndToEnd` requires a
  non-negative id).
- Partial writes and a full disk midway through a write are not modelled. A refused call fails
  before changing anything, and a refusal lasts for the whole run.
- A missing parent directory is not a cause of failure. Creating a file needs only that the
  path is no directory and that the call is not refused.
- Integer widths assume a 64-bit target (`usize` has 64 bits).
- `BINARY_NAME` (`env!("CARGO_PKG_NAME")`) is the input `Host.pkg`, because Cargo.toml is not
  part of this model.
- `main.rs` and the `UpdateError` display prefix "Update failed: " are not part of this model.
