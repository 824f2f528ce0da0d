# ruferium core, modelled in Dafny

ruferium (a fork of ferium) is a command-line manager for Minecraft mods. This project
models the parts of it that make decisions, and proves what they guarantee:

- **`clean`** (src/download.rs). First it removes duplicate download requests with
  `find_dupes_by_key` and `swap_remove`. Then it makes sure the archive folder `.old`
  exists and walks the target directory. A file some request still asks for is kept, and
  that request is dropped. A file nobody asks for is archived, or removed when it is a
  partial download or cannot be archived. The first removal that fails ends the walk.
- **`read_overrides`**: the entries of an overrides folder.
- **`download`**: the progress-bar total, the transfers (the first failure in list order
  wins), then the overrides copied in one by one.
- **`From<FilterArguments> for Vec<Filter>`** and **`Platform`** (src/cli.rs).
- **The decision logic of src/main.rs**:
  - `get_active_profile` and `check_empty_profile`;
  - rewriting the alias subcommands `profiles` and `modpacks`, and why the
    `unreachable!()` arm is never reached;
  - the `scan` classification loop, and the guards of `add` and `list`;
  - the closing check on failed additions and the exit decision with its connection hint;
  - the `PARALLEL_NETWORK` setting: the first value set wins, and the default is 10.

The file system is a value: the names in the target directory with their kinds, plus the
names inside its `.old` folder. Operations that fail for outside reasons (permissions,
devices, races) are named by a `Faults` value: whether `.old` cannot be created, and which
names cannot be moved, removed or copied. Transfers, libium's scan and the order
`read_dir` lists entries in are inputs. The concurrent transfers are a sequential loop.

Modules and files: `Wrappers` (wrappers.dfy), `Strings` (strings.dfy), `FileSystem`
(file_system.dfy), `Dupes` (dupes.dfy), `Reconcile` (reconcile.dfy), `Download`
(download.dfy), `Settings` (settings.dfy), `Cli` (cli.dfy), `App` (app.dfy).

Notes on the source, where the model follows the code:
- `clean` removes every unwanted file whose name ends with `part`, not only `.part`
  files.
- New libium filters are built in the fixed order of the `if`s, whatever order the flags
  came in.
- main.rs matches on `SubCommands::Download`, which src/cli.rs does not declare, and
  has no arm for the `Remove` and `Upgrade` that cli.rs does declare. The model keeps
  cli.rs's list of subcommands and covers only the arms named below.

## Model

| member | source | states |
|---|---|---|
| Strings.LowercaseIdempotent | src/main.rs:88-98 | lower-casing twice is the same as once |
| Strings.LexLeTotal | src/download.rs:192 | any two keys are ordered one way or the other (the `Ord` of `str` the sort uses) |
| Strings.LexLeTransitive | src/download.rs:192 | the key order is transitive |
| Strings.LexLeAntisymmetric | src/download.rs:192 | keys ordered both ways are equal |
| FileSystem.LastComponentOfJoin | src/download.rs:88-90 | the last component of `directory/name` is `name` when `name` has no separator |
| Dupes.ReversedAscending | src/download.rs:193-199 | positions collected in ascending order come out strictly descending, with the same members |
| Dupes.SortByKey | src/download.rs:192 | after the sort the slice is ordered by key and is a permutation of what it was |
| Dupes.FindDupesByKey | src/download.rs:183-200 | a slice shorter than two is untouched and gives no positions; otherwise the slice is sorted (a permutation), and the result is strictly descending and holds exactly the positions whose key equals the next one's |
| Dupes.SwapRemoveSpec | src/download.rs:41 | `swap_remove(i)`: one element shorter; position `i` gets the last element, the others keep theirs; exactly one copy of element `i` is gone |
| Dupes.SurvivorsDistinct | src/download.rs:192-197 | in a sorted slice, the positions not reported carry pairwise different keys |
| Dupes.SurvivorsKeys | src/download.rs:192-197 | the positions not reported keep every key of the slice |
| Dupes.DroppedAll | src/download.rs:39-41 | once every reported position of a sorted slice has been removed, one element has gone per position, the rest is a rearrangement of the survivors (the last element of every run of equal filenames), and nothing is lost |
| Dupes.DropReported | src/download.rs:39-41 | removing every reported position with `swap_remove`, highest first, drops exactly one element per position; what is left is a rearrangement of the last element of every run of equal filenames, and left plus dropped is the original |
| Dupes.DropDuplicates | src/download.rs:32-47 | the requests left carry every original filename exactly once; left and dropped together are the original requests; every dropped request's filename is still requested; fewer than two requests are left alone |
| Reconcile.Position | src/download.rs:57-59 | `position` finds nothing exactly when the name is absent, and otherwise the first index holding it |
| Reconcile.Clean | src/download.rs:27-82 | the deduplication facts; a `create_dir_all` that fails, for an outside fault or because `.old` is not a folder, returns its error with nothing else done; a failing `read_dir` returns its error; otherwise the result and final state are those of the entry-by-entry walk over the listing |
| Reconcile.VisitStep | src/download.rs:52-78 | visiting an entry fails exactly when it is an unwanted file that must be removed and cannot be, with that file's removal error; otherwise it keeps the invariant of the walk |
| Reconcile.RunSteps | src/download.rs:49-80 | the walk stops at the first doomed entry with its error, or passes when there is none; the invariant holds for everything visited before the stop |
| Reconcile.InvDone | src/download.rs:49-80 | after a full walk: folders and other non-files are untouched; nothing is added or changed; the regular files left are exactly those a list asks for; the archive gained exactly the archivable unwanted files; each list lost one entry per matching file |
| Reconcile.CleanScan | src/download.rs:49-82 | the walk passes if and only if no entry is doomed; on failure it stopped at the first doomed entry in listing order, with that entry's error and the work done before it kept |
| Reconcile.RerunDisposesNothing | src/download.rs:49-80 | idempotence: scanning again, against the same lists, the directory a passed scan left finds no unwanted file, passes whatever faults it meets, and leaves the directory and its archive as they were |
| Reconcile.MatchedDownloadsGone | src/download.rs:32-62 | once filenames are distinct, the requests left after the walk are exactly those whose file was not already in the directory |
| Reconcile.VisitTakesFirstDownload | src/download.rs:57-62 | a file named by a request drops the first request with that name, and nothing else changes |
| Reconcile.VisitTakesFirstInstall | src/download.rs:64-66 | a file named only by an override drops the first override with that name, and nothing else changes |
| Reconcile.ReadOverrides | src/download.rs:85-94 | a missing folder gives no overrides; a failing `read_dir` gives its error; otherwise one override per entry in listing order, at `directory/name` |
| Download.ProgressBar.constructor | src/download.rs:102-110 | the bar starts at position 0 with the given length |
| Download.ProgressBar.Inc | src/download.rs:131-136 | `inc` moves the position forward by exactly the amount reported and never changes the length |
| Download.TotalLengthAppend | src/download.rs:104-107 | the total of two lists of requests is the sum of their totals |
| Download.TotalLengthPermutation | src/download.rs:104-107 | the total does not depend on the order that `clean` left the requests in |
| Download.AddFiles | src/download.rs:130-137 | saving files adds exactly those names, as regular files, and changes nothing else |
| Download.Download | src/download.rs:97-178 | the bar's length is the sum of the expected sizes, and its position is every byte reported up to and including the first failing transfer; the outcome and directory are those of the transfers followed by the install loop; the semaphore size is the value already set, or 10 |
| Download.ProgressComplete | src/download.rs:102-136 | when every transfer succeeds and reports its expected size, the bar ends full |
| Download.FetchAll | src/download.rs:121-155 | with no failing transfer every requested file is saved |
| Download.FetchFirstFailure | src/download.rs:153-155 | the first failing transfer's error is returned, and the files before it are saved |
| Download.DownloadOrder | src/download.rs:153-175 | no override is copied unless every transfer succeeded; a failed transfer returns its error |
| Download.InstallAllAppend | src/download.rs:160-175 | overrides are installed in order, and a failure stops the loop keeping what came before |
| Download.InstallOnePlaces | src/download.rs:161-169 | a successful copy puts a file under its name and a folder under its source's last component, and keeps what was placed before |
| Download.InstallAllPlaces | src/download.rs:160-175 | after a successful install loop every override is in place |
| Download.InstallAllFrame | src/download.rs:160-175 | the install loop touches only the names it installs to, and never the archive |
| Download.InstallAllStops | src/download.rs:160-175 | a failed install loop stopped at one override: everything before it was installed, and its copy failed with the returned error |
| Settings.OnceCell.constructor | src/main.rs:47 | `PARALLEL_NETWORK` starts empty |
| Settings.OnceCell.Set | src/main.rs:140-142 | `set` stores a value only when the cell is empty, and reports whether it did |
| Settings.OnceCell.GetOrInit | src/download.rs:116-118 | `get_or_init` returns the stored value, or stores and returns the fallback |
| Cli.RequestedAt | src/cli.rs:184-207 | the filter asked for at each place is a requested filter of that place |
| Cli.RequestedAtRank | src/cli.rs:184-207 | every requested filter is the one asked for at its place |
| Cli.BuiltSpec | src/cli.rs:180-210 | the list built over the first `k` places holds exactly the requested filters of those places, in strictly increasing place order |
| Cli.ToFilters | src/cli.rs:180-210 | the pushes build the rank-ordered list of requested filters |
| Cli.FiltersSpec | src/cli.rs:180-210 | the output holds exactly the requested filters, each once, in a fixed order; at most eight; none exactly when no filter flag is given |
| Cli.ParsePlatform | src/cli.rs:213-220 | a value parses to a platform exactly when it is that platform's name or its alias `mr`/`cf`; every other value is refused |
| Cli.PlatformRoundTrip | src/cli.rs:213-229 | what `Display` prints parses back to the same platform, including the default `Modrinth` |
| Cli.PlatformNameInjective | src/cli.rs:222-229 | different platforms print differently |
| App.ActiveFrom | src/main.rs:330-336 | the search from a position finds the first active profile there, or fails with the create-a-profile message exactly when none is active |
| App.GetActiveProfile | src/main.rs:330-336 | the first active profile, or the create-a-profile message exactly when no profile is active |
| App.ActiveProfileStable | src/main.rs:330-336 | profiles after the first active one do not change the answer |
| App.CheckEmptyProfile | src/main.rs:338-345 | fails exactly when the profile has no mods, with the empty-profile message |
| App.ListPrecheck | src/main.rs:230-232 | `list` goes on exactly when there is an active profile with mods; otherwise it gives the first failing check's message |
| App.Rewrite | src/main.rs:114-132 | `complete` ends the run; `profiles` and `modpacks` become `profile list` and `modpack list`; other commands are kept; what goes on is never one the unreachable arm names |
| App.DefaultProfileSub | src/main.rs:290-301 | a missing nested subcommand means `list`, and only then is the hint printed |
| App.DefaultModpackSub | src/main.rs:275-288 | a missing nested subcommand means `list`, and only then is the hint printed |
| App.ProfilesAlias | src/main.rs:123-132 | `profiles` runs what `profile` without a nested command runs, without the hint |
| App.Identify | src/main.rs:177-192 | a file with no known project sends nothing; a file with one known project sends that one; a file known to both sends the preferred platform's |
| App.ClassifyScan | src/main.rs:175-195 | the identifiers sent and the unknown files reported, in scan order |
| App.ClassifyAppend | src/main.rs:175-195 | classification goes file by file and keeps scan order |
| App.ClassifyPartition | src/main.rs:175-195 | every scanned file is either sent or reported unknown, exactly once |
| App.PlatformIrrelevant | src/main.rs:186-192 | the platform preference matters only for files known to both platforms |
| App.ScanArm | src/main.rs:158-201 | no active profile gives its error; an explicit directory wins over the profile's; a failed scan gives its error; otherwise the classified identifiers go to `add`, which checks compatibility unless `--force` is given |
| App.AddArm | src/main.rs:203-227 | no active profile gives its error first; filters with more than one identifier are refused; otherwise the request carries the profile, the identifiers, `!force`, `--override-profile` and exactly the requested filters, each once, in the fixed rank order of the pushes |
| App.Conclude | src/main.rs:318-326 | a failed write of the configuration is returned first; then the run fails exactly when an addition failed, with that message |
| App.Finish | src/main.rs:87-110 | the exit code is `FAILURE` exactly on error; a non-empty message is printed; the connection hint follows exactly when the lower-cased message names a connection or request-sending failure |
| App.HintIgnoresCase | src/main.rs:88-98 | the hint does not depend on letter case: a message containing either phrase, in any capitalisation that lower-cases to it, gets it, and lower-casing the message first changes nothing |
| App.ConcludeExit | src/main.rs:87-110 | a run with no failed addition exits with success and prints nothing; a failed addition exits with failure and prints only its message |
| App.ApplyParallelNetwork | src/main.rs:140-142 | `--parallel-network n` sets the limit only if it is not yet set |
| App.ParallelLimit | src/main.rs:140-142 | the limit `download` uses is the flag's value, or 10 without the flag |

## Left out

- Concurrency: the transfers run as a sequential loop in list order. In the program they finish in any order, and the error returned is the first to complete.
- Mutexes, the semaphore's waiting and `Arc::try_unwrap` are not modelled. A limit of 0 (`--parallel-network 0`) would make every transfer wait forever; the model just reports the limit.
- Errors of single entries while listing a directory (`file?`, `file_type()?`) are not modelled; only a failing `read_dir` is.
- `to_string_lossy` on file names: names are plain strings.
- Symbolic links and other special entries are not modelled: they are neither files nor folders and are left alone by the walk. A `.old` that is such an entry makes `FileSystem.CreateArchive` fail, even when it is a link to a folder, which `create_dir_all` would accept.
- A `move_file` that fails half-way is treated as not having moved anything, so the file is removed.
- What each transfer does is an input: a successful transfer is taken to leave a regular file under its name, and a failed one to leave nothing.
- The actual HTTP, hashing and retry logic of `DownloadData::download` is foreign code and not modelled.
- `fs_extra::dir::copy` merging into an existing folder is not modelled: only that the folder is there afterwards.
- Download.TotalLength: the total is an unbounded sum; the `u64` overflow of the total and of the bar's position is not modelled.
- Strings.Lowercase: maps one character to one character, so it keeps the length; Rust's `to_lowercase` can lengthen a string (a capital `İ` becomes two characters), which the model does not capture because the phrases it searches for are lower case already and the model's case table is the one of `Strings.LowerChar`.
- Strings.LowerChar: lower-cases only Latin and Cyrillic capitals, the alphabets of the program's messages; the rest of Unicode's case mapping is not modelled.
- Colours (`colored`), the spinner, progress and other printed lines are I/O and not modelled. The unknown files `scan` prints are returned instead.
- The error strings of `check_empty_profile` and `ensure!(did_add_fail…)` are coloured in the program; the model holds their text only.
- The `download` arm of main.rs (lines 303-315) is not modelled, because its subcommand is missing from src/cli.rs.
- The `remove` and `upgrade` subcommands, configuration loading and writing, and the libium calls (`add`, `scan`, `list`, profile and modpack subcommands) are outside the model. Their results are inputs.
- clap's parsing is only modelled by `Cli.ParsePlatform`, for `Platform`. The argument group `loader` that src/cli.rs:158 puts on the `FilterArguments` struct with `multiple = false` contains every field of the struct, so clap refuses any two of its flags together, `--override-profile` included. At most one `FilterArguments` flag therefore ever reaches `From<FilterArguments>`. This is not modelled: `Cli.FiltersSpec`'s ordering and its bound of at most eight filters are facts about the function over every combination of flags, not about the inputs clap lets through.
- libium's `ModLoader`, `ReleaseChannel` and `Filter` are given only the variants this code uses.
- src/file_picker.rs and tests/util.rs are not part of this model. The first is an interactive dialogue; the second is test scaffolding.
- Environment variables (`GITHUB_TOKEN`, `CURSEFORGE_API_KEY`, `FERIUM_CONFIG_FILE`), shell completion generation and the Tokio runtime set-up are I/O and not modelled.
