/** The decision logic of src/main.rs: finding the active profile, rewriting the alias
    subcommands, the `scan` classification of identified files, the guards of `add` and
    `list`, the closing check on failed additions, the process exit decision and the
    setting of the network limit. Everything the arms hand to libium (searching, adding,
    listing, configuring) is outside the model; its inputs and outputs are parameters. */
module App {
  import opened Wrappers
  import opened Strings
  import opened Cli
  import opened Settings

  /** libium's `ModIdentifier`. */
  datatype ModIdentifier =
    | CurseForgeProject(id: int)
    | ModrinthProject(slug: string)
    | GitHubRepository(owner: string, repo: string)

  datatype Mod = Mod(name: string, identifier: ModIdentifier)

  /** The parts of libium's `Profile` the program reads. */
  datatype Profile = Profile(name: string, outputDir: string, active: bool, mods: seq<Mod>)

  const NO_ACTIVE_PROFILE: string :=
    "Нет активного профиля!\n(Вы можете создать профиль с помощью 'ferium profile create')"
  const EMPTY_PROFILE: string := "Профиль не содержит модов."
  const FILTERS_NEED_ONE_MOD: string := "Фильтры можно настраивать только при добавлении одного мода!"
  const SOME_ADDS_FAILED: string := "Некоторые моды не удалось добавить!"
  const CHECK_CONNECTION: string := "Проверьте, подключены ли вы к интернету"
  const CONNECTION_ERROR: string := "ошибка подключения"
  const SEND_ERROR: string := "ошибка отправки запроса"

  // ---------------------------------------------------------------- profiles

  /** `get_active_profile` (lines 330-336): the first profile whose `active` flag is set,
      searched from position `from`; without one, the error telling how to create one. */
  function ActiveFrom(profiles: seq<Profile>, from: nat): (r: Result<nat, string>)
    requires from <= |profiles|
    ensures r.Ok? ==> from <= r.value < |profiles| && profiles[r.value].active
    ensures r.Ok? ==> forall j :: from <= j < r.value ==> !profiles[j].active
    ensures r.Err? <==> forall j :: from <= j < |profiles| ==> !profiles[j].active
    ensures r.Err? ==> r.error == NO_ACTIVE_PROFILE
    decreases |profiles| - from
  {
    if from == |profiles| then Err(NO_ACTIVE_PROFILE)
    else if profiles[from].active then Ok(from)
    else ActiveFrom(profiles, from + 1)
  }

  function GetActiveProfile(profiles: seq<Profile>): (r: Result<nat, string>)
    ensures r.Ok? ==> r.value < |profiles| && profiles[r.value].active
    ensures r.Ok? ==> forall j :: 0 <= j < r.value ==> !profiles[j].active
    ensures r.Err? <==> forall j :: 0 <= j < |profiles| ==> !profiles[j].active
    ensures r.Err? ==> r.error == NO_ACTIVE_PROFILE
  {
    ActiveFrom(profiles, 0)
  }

  /** The answer depends only on the profiles up to the first active one: profiles added
      after it change nothing. */
  lemma ActiveProfileStable(profiles: seq<Profile>, more: seq<Profile>)
    requires GetActiveProfile(profiles).Ok?
    ensures GetActiveProfile(profiles + more) == GetActiveProfile(profiles)
  {
    var i := GetActiveProfile(profiles).value;
    var r := GetActiveProfile(profiles + more);
    assert (profiles + more)[i] == profiles[i];
    assert forall j :: 0 <= j < i ==> (profiles + more)[j] == profiles[j];
  }

  /** `check_empty_profile` (lines 338-345). */
  function CheckEmptyProfile(profile: Profile): (r: Outcome<string>)
    ensures r.Fail? <==> |profile.mods| == 0
    ensures r.Fail? ==> r.error == EMPTY_PROFILE
  {
    if profile.mods == [] then Fail(EMPTY_PROFILE) else Pass
  }

  /** The guard of the `list` arm (lines 230-232 of src/main.rs): an active profile that has mods. */
  function ListPrecheck(profiles: seq<Profile>): (r: Result<nat, string>)
    ensures r.Ok? <==> GetActiveProfile(profiles).Ok? && profiles[GetActiveProfile(profiles).value].mods != []
    ensures r.Ok? ==> r.value == GetActiveProfile(profiles).value
    ensures r.Err? ==> r.error == (if GetActiveProfile(profiles).Err? then NO_ACTIVE_PROFILE else EMPTY_PROFILE)
  {
    match GetActiveProfile(profiles)
    case Err(e) => Err(e)
    case Ok(i) =>
      match CheckEmptyProfile(profiles[i])
      case Fail(e) => Err(e)
      case Pass => Ok(i)
  }

  // ---------------------------------------------------------------- subcommands

  datatype ProfileSubCommand = ProfileConfigure | ProfileCreate | ProfileDelete | ProfileInfo | ProfileList | ProfileSwitch
  datatype ModpackSubCommand = ModpackAdd | ModpackConfigure | ModpackDelete | ModpackInfo | ModpackList | ModpackSwitch | ModpackUpgrade

  /** The subcommands of src/cli.rs (lines 31-78), with the arguments the model uses. */
  datatype SubCommand =
    | Add(identifiers: seq<string>, force: bool, filters: FilterArguments)
    | Scan(platform: Platform, directory: Option<string>, force: bool)
    | Complete(shell: string)
    | List(verbose: bool, markdown: bool)
    | Modpack(modpackSub: Option<ModpackSubCommand>)
    | Modpacks
    | Profile(profileSub: Option<ProfileSubCommand>)
    | Profiles
    | Remove(modNames: seq<string>)
    | Upgrade

  /** The subcommands the `unreachable!()` arm (lines 155-157) claims never arrive there. */
  predicate Dispatched(cmd: SubCommand) {
    !cmd.Complete? && !cmd.Profiles? && !cmd.Modpacks?
  }

  /** Lines 114-132 of `actual_main`: `complete` ends the run at once (`completed`);
      `profiles` and `modpacks` become `profile list` and `modpack list`; every other
      subcommand is kept. What comes out never reaches the unreachable arm. */
  method Rewrite(subcommand: SubCommand) returns (completed: bool, cmd: SubCommand)
    ensures completed <==> subcommand.Complete?
    ensures !completed ==> Dispatched(cmd)
    ensures subcommand.Profiles? ==> cmd == SubCommand.Profile(Some(ProfileList))
    ensures subcommand.Modpacks? ==> cmd == Modpack(Some(ModpackList))
    ensures Dispatched(subcommand) ==> cmd == subcommand
  {
    cmd := subcommand;
    if cmd.Complete? {
      return true, cmd;
    }
    if cmd.Profiles? {
      cmd := SubCommand.Profile(Some(ProfileList));
    }
    if cmd.Modpacks? {
      cmd := Modpack(Some(ModpackList));
    }
    completed := false;
  }

  /** The `profile` and `modpack` arms (lines 275-301): no nested subcommand means `list`,
      and then the hint about the explicit form is printed (`hinted`). */
  function DefaultProfileSub(sub: Option<ProfileSubCommand>): (r: (ProfileSubCommand, bool))
    ensures r.1 <==> sub.None?
    ensures r.0 == (if sub.Some? then sub.value else ProfileList)
  {
    match sub
    case Some(s) => (s, false)
    case None => (ProfileList, true)
  }

  function DefaultModpackSub(sub: Option<ModpackSubCommand>): (r: (ModpackSubCommand, bool))
    ensures r.1 <==> sub.None?
    ensures r.0 == (if sub.Some? then sub.value else ModpackList)
  {
    match sub
    case Some(s) => (s, false)
    case None => (ModpackList, true)
  }

  /** `ferium profiles` does exactly what `ferium profile` without a nested subcommand
      does, except that no hint is printed. */
  lemma ProfilesAlias()
    ensures DefaultProfileSub(Some(ProfileList)).0 == DefaultProfileSub(None).0
    ensures !DefaultProfileSub(Some(ProfileList)).1 && DefaultProfileSub(None).1
    ensures DefaultModpackSub(Some(ModpackList)).0 == DefaultModpackSub(None).0
  {
  }

  // ---------------------------------------------------------------- scan

  /** One entry of libium's scan: the file, and its Modrinth and CurseForge projects if known. */
  datatype ScanResult = ScanResult(filename: string, modrinth: Option<string>, curseforge: Option<int>)

  /** The identifier the `scan` arm sends for one file (lines 177-192 of src/main.rs): the one known
      project, or the preferred platform's when both are known; none for an unknown file. */
  function Identify(r: ScanResult, platform: Platform): (id: Option<ModIdentifier>)
    ensures id.None? <==> r.modrinth.None? && r.curseforge.None?
    ensures id.Some? && id.value.ModrinthProject? ==> r.modrinth == Some(id.value.slug)
    ensures id.Some? && id.value.CurseForgeProject? ==> r.curseforge == Some(id.value.id)
    ensures id.Some? ==> !id.value.GitHubRepository?
    ensures r.modrinth.Some? && r.curseforge.Some? ==>
      id == Some(if platform == Modrinth then ModrinthProject(r.modrinth.value) else CurseForgeProject(r.curseforge.value))
  {
    match (r.modrinth, r.curseforge)
    case (None, None) => None
    case (Some(mr), None) => Some(ModrinthProject(mr))
    case (None, Some(cf)) => Some(CurseForgeProject(cf))
    case (Some(mr), Some(cf)) =>
      if platform == Modrinth then Some(ModrinthProject(mr)) else Some(CurseForgeProject(cf))
  }

  /** The identifiers sent for `ids`, in scan order: with `Unknown`, the specification
      the method `ClassifyScan` is proved against. */
  function Identified(ids: seq<ScanResult>, platform: Platform): seq<ModIdentifier> {
    if ids == [] then []
    else
      var last := Identify(ids[|ids| - 1], platform);
      Identified(ids[..|ids| - 1], platform) + (if last.Some? then [last.value] else [])
  }

  /** The files reported as unknown, in scan order. */
  function Unknown(ids: seq<ScanResult>): seq<string> {
    if ids == [] then []
    else
      var last := ids[|ids| - 1];
      Unknown(ids[..|ids| - 1]) + (if last.modrinth.None? && last.curseforge.None? then [last.filename] else [])
  }

  /** The loop of lines 175-195: each scanned file is either sent, by one identifier, or
      reported as unknown (the report is printed; here it is collected). Its results are
      those of the specification functions `Identified` and `Unknown`. */
  method ClassifyScan(ids: seq<ScanResult>, platform: Platform) returns (sendIds: seq<ModIdentifier>, unknown: seq<string>)
    ensures sendIds == Identified(ids, platform)
    ensures unknown == Unknown(ids)
  {
    sendIds := [];
    unknown := [];
    for k := 0 to |ids|
      invariant sendIds == Identified(ids[..k], platform)
      invariant unknown == Unknown(ids[..k])
    {
      assert ids[..k + 1][..k] == ids[..k];
      match (ids[k].modrinth, ids[k].curseforge)
      case (None, None) =>
        unknown := unknown + [ids[k].filename];
      case (Some(mr), None) =>
        sendIds := sendIds + [ModrinthProject(mr)];
      case (None, Some(cf)) =>
        sendIds := sendIds + [CurseForgeProject(cf)];
      case (Some(mr), Some(cf)) =>
        match platform
        case Modrinth =>
          sendIds := sendIds + [ModrinthProject(mr)];
        case Curseforge =>
          sendIds := sendIds + [CurseForgeProject(cf)];
    }
    assert ids[..|ids|] == ids;
  }

  /** Classification goes file by file: the result for a longer scan extends the result
      for its beginning. */
  lemma {:induction false} ClassifyAppend(a: seq<ScanResult>, b: seq<ScanResult>, platform: Platform)
    ensures Identified(a + b, platform) == Identified(a, platform) + Identified(b, platform)
    ensures Unknown(a + b) == Unknown(a) + Unknown(b)
    decreases |b|
  {
    if b == [] {
      assert a + b == a;
    } else {
      var init := b[..|b| - 1];
      assert (a + b)[..|a + b| - 1] == a + init;
      assert (a + b)[|a + b| - 1] == b[|b| - 1];
      ClassifyAppend(a, init, platform);
    }
  }

  /** Every scanned file is accounted for exactly once: sent or reported unknown. */
  lemma {:induction false} ClassifyPartition(ids: seq<ScanResult>, platform: Platform)
    ensures |Identified(ids, platform)| + |Unknown(ids)| == |ids|
  {
    if ids != [] {
      ClassifyPartition(ids[..|ids| - 1], platform);
    }
  }

  /** The platform preference matters only for files known to both platforms. */
  lemma {:induction false} PlatformIrrelevant(ids: seq<ScanResult>)
    requires forall i :: 0 <= i < |ids| ==> ids[i].modrinth.None? || ids[i].curseforge.None?
    ensures Identified(ids, Modrinth) == Identified(ids, Curseforge)
  {
    if ids != [] {
      PlatformIrrelevant(ids[..|ids| - 1]);
    }
  }

  /** What `scan` hands to `libium::add` (lines 158-201): the profile, the identifiers,
      whether compatibility is checked (`!force`), and the unknown files it reported. */
  datatype ScanRequest = ScanRequest(profile: nat, directory: string, sendIds: seq<ModIdentifier>, checkCompatibility: bool, unknown: seq<string>)

  /** The directory `scan` looks in: the explicit one, or the active profile's output
      directory. */
  function ScanDir(profiles: seq<Profile>, directory: Option<string>): (dir: string)
    requires GetActiveProfile(profiles).Ok?
    ensures directory.Some? ==> dir == directory.value
    ensures directory.None? ==> dir == profiles[GetActiveProfile(profiles).value].outputDir
  {
    if directory.Some? then directory.value else profiles[GetActiveProfile(profiles).value].outputDir
  }

  /** The `scan` arm up to the call of `libium::add`. The scan itself is foreign: `scan`
      gives its answer, or its error, for a directory. An explicit directory wins over the
      profile's output directory, and a failed scan ends the arm with its error. */
  method ScanArm(profiles: seq<Profile>, platform: Platform, directory: Option<string>, force: bool,
                 scan: string -> Result<seq<ScanResult>, string>) returns (r: Result<ScanRequest, string>)
    ensures GetActiveProfile(profiles).Err? ==> r == Err(NO_ACTIVE_PROFILE)
    ensures GetActiveProfile(profiles).Ok? && scan(ScanDir(profiles, directory)).Err? ==>
      r == Err(scan(ScanDir(profiles, directory)).error)
    ensures GetActiveProfile(profiles).Ok? && scan(ScanDir(profiles, directory)).Ok? ==>
      r == Ok(ScanRequest(GetActiveProfile(profiles).value, ScanDir(profiles, directory),
                          Identified(scan(ScanDir(profiles, directory)).value, platform), !force,
                          Unknown(scan(ScanDir(profiles, directory)).value)))
  {
    var active := GetActiveProfile(profiles);
    if active.Err? {
      return Err(active.error);
    }
    var p := active.value;
    var dir := ScanDir(profiles, directory);
    var scanned := scan(dir);
    if scanned.Err? {
      return Err(scanned.error);
    }
    var sendIds, unknown := ClassifyScan(scanned.value, platform);
    r := Ok(ScanRequest(p, dir, sendIds, !force, unknown));
  }

  // ---------------------------------------------------------------- add

  /** What `add` hands to `libium::add` (lines 216-225). */
  datatype AddRequest = AddRequest(profile: nat, identifiers: seq<string>, checkCompatibility: bool,
                                   overrideProfile: bool, filters: seq<Filter>)

  /** The `add` arm up to the call of `libium::add` (lines 203-214): the active profile
      first, then the filters; filters are refused when more than one mod is named. */
  method AddArm(profiles: seq<Profile>, identifiers: seq<string>, force: bool, args: FilterArguments)
    returns (r: Result<AddRequest, string>)
    ensures GetActiveProfile(profiles).Err? ==> r == Err(NO_ACTIVE_PROFILE)
    ensures GetActiveProfile(profiles).Ok? && |identifiers| > 1 && AnyFilter(args) ==> r == Err(FILTERS_NEED_ONE_MOD)
    ensures r.Ok? <==> GetActiveProfile(profiles).Ok? && (|identifiers| <= 1 || !AnyFilter(args))
    ensures r.Ok? ==> r.value.profile == GetActiveProfile(profiles).value && r.value.identifiers == identifiers
    ensures r.Ok? ==> r.value.checkCompatibility == !force && r.value.overrideProfile == args.overrideProfile
    ensures r.Ok? ==> r.value.filters == Built(args, 8)
    ensures r.Ok? ==> forall f :: f in r.value.filters <==> Requested(args, f)
  {
    var active := GetActiveProfile(profiles);
    if active.Err? {
      return Err(active.error);
    }
    var overrideProfile := args.overrideProfile;
    var filters := ToFilters(args);
    FiltersSpec(args);
    if |identifiers| > 1 && filters != [] {
      return Err(FILTERS_NEED_ONE_MOD);
    }
    r := Ok(AddRequest(active.value, identifiers, !force, overrideProfile, filters));
  }

  // ---------------------------------------------------------------- ending

  /** Lines 318-326: the configuration is written back first; then the run fails if some
      mod could not be added. */
  function Conclude(serialised: Outcome<string>, didAddFail: bool): (r: Outcome<string>)
    ensures serialised.Fail? ==> r == serialised
    ensures serialised.Pass? ==> (r.Fail? <==> didAddFail)
    ensures serialised.Pass? && didAddFail ==> r.error == SOME_ADDS_FAILED
  {
    if serialised.Fail? then serialised
    else if didAddFail then Fail(SOME_ADDS_FAILED)
    else Pass
  }

  datatype ExitCode = Success | Failure

  /** What the process ends with: its exit code and the lines written to standard error. */
  datatype Exit = Exit(code: ExitCode, stderr: seq<string>)

  /** The connection hint is due: the lower-cased message mentions a connection or a
      request-sending failure. */
  predicate WantsHint(message: string) {
    Contains(Lowercase(message), CONNECTION_ERROR) || Contains(Lowercase(message), SEND_ERROR)
  }

  /** Lines 87-110 of `main`: failure exits with `FAILURE`, printing a non-empty message
      and, for a network error, the hint to check the connection. */
  function Finish(result: Outcome<string>): (e: Exit)
    ensures e.code == Failure <==> result.Fail?
    ensures result.Pass? ==> e.stderr == []
    ensures result.Fail? && result.error == [] ==> e.stderr == []
    ensures result.Fail? && result.error != [] ==> |e.stderr| >= 1 && e.stderr[0] == result.error
    ensures |e.stderr| == 2 <==> result.Fail? && result.error != [] && WantsHint(result.error)
    ensures |e.stderr| == 2 ==> e.stderr[1] == CHECK_CONNECTION
  {
    match result
    case Pass => Exit(Success, [])
    case Fail(message) =>
      if message == [] then Exit(Failure, [])
      else if WantsHint(message) then Exit(Failure, [message, CHECK_CONNECTION])
      else Exit(Failure, [message])
  }

  /** The two phrases are already in lower case. */
  lemma PhrasesLowercase()
    ensures Lowercase(CONNECTION_ERROR) == CONNECTION_ERROR
    ensures Lowercase(SEND_ERROR) == SEND_ERROR
  {
  }

  /** An occurrence survives lower-casing. */
  lemma ContainsLowercase(s: string, t: string)
    requires Contains(s, t)
    ensures Contains(Lowercase(s), Lowercase(t))
  {
    var i :| 0 <= i <= |s| - |t| && OccursAt(s, t, i);
    assert Lowercase(s)[i..i + |t|] == Lowercase(t);
    assert OccursAt(Lowercase(s), Lowercase(t), i);
  }

  /** The hint does not depend on capitalisation: a message that mentions either phrase in
      any letter case (any string that lower-cases to the phrase) gets it, and lower-casing
      the message first changes nothing. */
  lemma HintIgnoresCase(message: string)
    ensures WantsHint(Lowercase(message)) == WantsHint(message)
    ensures Contains(message, CONNECTION_ERROR) || Contains(message, SEND_ERROR) ==> WantsHint(message)
    ensures forall t :: (Lowercase(t) == CONNECTION_ERROR || Lowercase(t) == SEND_ERROR) && Contains(message, t) ==>
                          WantsHint(message)
  {
    LowercaseIdempotent(message);
    PhrasesLowercase();
    if Contains(message, CONNECTION_ERROR) {
      ContainsLowercase(message, CONNECTION_ERROR);
    }
    if Contains(message, SEND_ERROR) {
      ContainsLowercase(message, SEND_ERROR);
    }
    forall t | (Lowercase(t) == CONNECTION_ERROR || Lowercase(t) == SEND_ERROR) && Contains(message, t)
      ensures WantsHint(message)
    {
      ContainsLowercase(message, t);
    }
  }

  /** A run without failed additions, whose configuration was written, exits with success
      and prints nothing; a failed addition makes it exit with failure and say so. */
  lemma ConcludeExit(didAddFail: bool)
    ensures Finish(Conclude(Pass, didAddFail)).code == (if didAddFail then Failure else Success)
    ensures didAddFail ==> Finish(Conclude(Pass, didAddFail)).stderr == [SOME_ADDS_FAILED]
  {
    if didAddFail {
      var lower := Lowercase(SOME_ADDS_FAILED);
      assert 'ш' !in lower;
      MissingCharNotContained(lower, CONNECTION_ERROR, 1);
      MissingCharNotContained(lower, SEND_ERROR, 1);
    }
  }

  // ---------------------------------------------------------------- network limit

  /** Lines 140-142: `--parallel-network n` sets the process-wide limit, unless it is
      already set. */
  method ApplyParallelNetwork(cell: OnceCell, n: Option<nat>)
    modifies cell
    ensures cell.contents == if old(cell.contents).None? && n.Some? then n else old(cell.contents)
  {
    if n.Some? {
      var _ := cell.Set(n.value);
    }
  }

  /** The limit a run of `download` uses (lines 140-142 of src/main.rs and 116-118 of
      src/download.rs): the flag's value, or 10 without the flag. */
  method ParallelLimit(n: Option<nat>) returns (permits: nat)
    ensures permits == if n.Some? then n.value else DEFAULT_PARALLEL_NETWORK
  {
    var cell := new OnceCell();
    ApplyParallelNetwork(cell, n);
    permits := cell.GetOrInit(DEFAULT_PARALLEL_NETWORK);
  }
}
