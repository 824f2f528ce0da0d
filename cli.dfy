/** The parts of src/cli.rs with behaviour: turning the filter flags of `ferium add` into
    libium filters, and the `Platform` choice of `ferium scan`. */
module Cli {
  import opened Wrappers

  /** libium's mod loaders and release channels; only their identity matters here. */
  datatype ModLoader = Quilt | Fabric | Forge | NeoForge
  datatype ReleaseChannel = Release | Beta | Alpha

  /** libium's `Filter`, restricted to the variants the conversion produces. */
  datatype Filter =
    | ModLoaderPrefer(loaders: seq<ModLoader>)
    | ModLoaderAny(loaders: seq<ModLoader>)
    | GameVersionStrict(versions: seq<string>)
    | GameVersionMinor(versions: seq<string>)
    | ReleaseChannelIs(channel: ReleaseChannel)
    | Filename(regex: string)
    | Title(regex: string)
    | Description(regex: string)

  /** The filter flags of `ferium add` (lines 157-178 of src/cli.rs). */
  datatype FilterArguments = FilterArguments(
    overrideProfile: bool,
    modLoaderPrefer: seq<ModLoader>,
    modLoaderAny: seq<ModLoader>,
    gameVersionStrict: seq<string>,
    gameVersionMinor: seq<string>,
    releaseChannel: Option<ReleaseChannel>,
    filename: Option<string>,
    title: Option<string>,
    description: Option<string>)

  /** No flag given: empty lists and absent options. */
  const NO_FILTER_ARGUMENTS: FilterArguments :=
    FilterArguments(false, [], [], [], [], None, None, None, None)

  /** The place of each kind of filter in the output of the conversion. */
  function Rank(f: Filter): (r: nat)
    ensures r < 8
  {
    match f
    case ModLoaderPrefer(_) => 0
    case ModLoaderAny(_) => 1
    case GameVersionStrict(_) => 2
    case GameVersionMinor(_) => 3
    case ReleaseChannelIs(_) => 4
    case Filename(_) => 5
    case Title(_) => 6
    case Description(_) => 7
  }

  /** `f` is asked for by the flags: its flag is non-empty or present, and `f` carries
      exactly that flag's value. `override_profile` asks for no filter. */
  predicate Requested(value: FilterArguments, f: Filter) {
    match f
    case ModLoaderPrefer(ls) => value.modLoaderPrefer != [] && ls == value.modLoaderPrefer
    case ModLoaderAny(ls) => value.modLoaderAny != [] && ls == value.modLoaderAny
    case GameVersionStrict(vs) => value.gameVersionStrict != [] && vs == value.gameVersionStrict
    case GameVersionMinor(vs) => value.gameVersionMinor != [] && vs == value.gameVersionMinor
    case ReleaseChannelIs(c) => value.releaseChannel == Some(c)
    case Filename(r) => value.filename == Some(r)
    case Title(r) => value.title == Some(r)
    case Description(r) => value.description == Some(r)
  }

  /** Some filter flag is given. */
  predicate AnyFilter(value: FilterArguments) {
    value.modLoaderPrefer != [] || value.modLoaderAny != [] || value.gameVersionStrict != []
    || value.gameVersionMinor != [] || value.releaseChannel.Some? || value.filename.Some?
    || value.title.Some? || value.description.Some?
  }

  /** The filter the flags ask for at rank `r`, if any. */
  function RequestedAt(value: FilterArguments, r: nat): (res: Option<Filter>)
    ensures res.Some? ==> Requested(value, res.value) && Rank(res.value) == r
  {
    if r == 0 then (if value.modLoaderPrefer != [] then Some(ModLoaderPrefer(value.modLoaderPrefer)) else None)
    else if r == 1 then (if value.modLoaderAny != [] then Some(ModLoaderAny(value.modLoaderAny)) else None)
    else if r == 2 then (if value.gameVersionStrict != [] then Some(GameVersionStrict(value.gameVersionStrict)) else None)
    else if r == 3 then (if value.gameVersionMinor != [] then Some(GameVersionMinor(value.gameVersionMinor)) else None)
    else if r == 4 then (if value.releaseChannel.Some? then Some(ReleaseChannelIs(value.releaseChannel.value)) else None)
    else if r == 5 then (if value.filename.Some? then Some(Filename(value.filename.value)) else None)
    else if r == 6 then (if value.title.Some? then Some(Title(value.title.value)) else None)
    else if r == 7 then (if value.description.Some? then Some(Description(value.description.value)) else None)
    else None
  }

  /** Every requested filter is the one asked for at its rank. */
  lemma RequestedAtRank(value: FilterArguments, f: Filter)
    requires Requested(value, f)
    ensures RequestedAt(value, Rank(f)) == Some(f)
  {
  }

  /** The requested filters of rank below `k`, in rank order: the specification the
      method `ToFilters` is proved against. */
  ghost function Built(value: FilterArguments, k: nat): seq<Filter> {
    if k == 0 then []
    else Built(value, k - 1) + (if RequestedAt(value, k - 1).Some? then [RequestedAt(value, k - 1).value] else [])
  }

  /** What `Built` holds: exactly the requested filters of rank below `k`, strictly ordered
      by rank, so at most `k` of them, and none when nothing below `k` is asked for. */
  lemma {:induction false} BuiltSpec(value: FilterArguments, k: nat)
    ensures forall f :: f in Built(value, k) <==> Requested(value, f) && Rank(f) < k
    ensures forall p, q :: 0 <= p < q < |Built(value, k)| ==> Rank(Built(value, k)[p]) < Rank(Built(value, k)[q])
    ensures forall p :: 0 <= p < |Built(value, k)| ==> Rank(Built(value, k)[p]) < k
    ensures |Built(value, k)| <= k
    ensures Built(value, k) == [] <==> forall r: nat :: r < k ==> RequestedAt(value, r).None?
  {
    if k > 0 {
      BuiltSpec(value, k - 1);
      var prev := Built(value, k - 1);
      var cur := Built(value, k);
      forall f ensures f in cur <==> Requested(value, f) && Rank(f) < k {
        if Requested(value, f) && Rank(f) == k - 1 {
          RequestedAtRank(value, f);
        }
      }
      forall r: nat | r < k ensures cur == [] ==> RequestedAt(value, r).None? {
        if r < k - 1 {
        }
      }
    }
  }

  /** Lines 180-210 of src/cli.rs, `From<FilterArguments> for Vec<Filter>`: one push per
      given flag, in a fixed order. The result is the specification function `Built`, the
      rank-ordered list of the requested filters; `FiltersSpec` says what that list holds. */
  method ToFilters(value: FilterArguments) returns (filters: seq<Filter>)
    ensures filters == Built(value, 8)
  {
    filters := [];
    if value.modLoaderPrefer != [] {
      filters := filters + [ModLoaderPrefer(value.modLoaderPrefer)];
    }
    assert filters == Built(value, 1);
    if value.modLoaderAny != [] {
      filters := filters + [ModLoaderAny(value.modLoaderAny)];
    }
    assert filters == Built(value, 2);
    if value.gameVersionStrict != [] {
      filters := filters + [GameVersionStrict(value.gameVersionStrict)];
    }
    assert filters == Built(value, 3);
    if value.gameVersionMinor != [] {
      filters := filters + [GameVersionMinor(value.gameVersionMinor)];
    }
    assert filters == Built(value, 4);
    if value.releaseChannel.Some? {
      filters := filters + [ReleaseChannelIs(value.releaseChannel.value)];
    }
    assert filters == Built(value, 5);
    if value.filename.Some? {
      filters := filters + [Filename(value.filename.value)];
    }
    assert filters == Built(value, 6);
    if value.title.Some? {
      filters := filters + [Title(value.title.value)];
    }
    assert filters == Built(value, 7);
    if value.description.Some? {
      filters := filters + [Description(value.description.value)];
    }
    assert filters == Built(value, 8);
  }

  /** The complete list holds exactly the requested filters, each once, ordered by rank;
      so at most eight, and none when no filter flag is given. */
  lemma FiltersSpec(value: FilterArguments)
    ensures forall f :: f in Built(value, 8) <==> Requested(value, f)
    ensures forall p, q :: 0 <= p < q < |Built(value, 8)| ==> Rank(Built(value, 8)[p]) < Rank(Built(value, 8)[q])
    ensures |Built(value, 8)| <= 8
    ensures Built(value, 8) == [] <==> !AnyFilter(value)
  {
    BuiltSpec(value, 8);
    if AnyFilter(value) {
      var r: nat :=
        if value.modLoaderPrefer != [] then 0
        else if value.modLoaderAny != [] then 1
        else if value.gameVersionStrict != [] then 2
        else if value.gameVersionMinor != [] then 3
        else if value.releaseChannel.Some? then 4
        else if value.filename.Some? then 5
        else if value.title.Some? then 6
        else 7;
      assert RequestedAt(value, r).Some?;
    } else {
      forall r: nat | r < 8 ensures RequestedAt(value, r).None? {
      }
    }
  }

  /** The platform `ferium scan` prefers when a file is known to both. */
  datatype Platform = Modrinth | Curseforge

  /** `#[default]`. */
  const DEFAULT_PLATFORM: Platform := Modrinth

  /** `Display for Platform` (lines 222-229 of src/cli.rs). */
  function PlatformName(p: Platform): string {
    match p
    case Modrinth => "modrinth"
    case Curseforge => "curseforge"
  }

  /** The `#[clap(alias = …)]` of each variant. */
  function Alias(p: Platform): string {
    match p
    case Modrinth => "mr"
    case Curseforge => "cf"
  }

  /** The argument values clap's `ValueEnum` accepts: a value names a platform exactly
      when it is that variant's name or its alias, and any other value is refused. */
  function ParsePlatform(s: string): (r: Option<Platform>)
    ensures forall p :: r == Some(p) <==> s == PlatformName(p) || s == Alias(p)
  {
    if s == "modrinth" || s == "mr" then Some(Modrinth)
    else if s == "curseforge" || s == "cf" then Some(Curseforge)
    else None
  }

  /** What `Display` prints is read back as the same platform, which is what
      `default_value_t` relies on: the default, printed and parsed, is `Modrinth`. */
  lemma PlatformRoundTrip(p: Platform)
    ensures ParsePlatform(PlatformName(p)) == Some(p)
    ensures ParsePlatform(PlatformName(DEFAULT_PLATFORM)) == Some(Modrinth)
  {
  }

  /** Different platforms print differently. */
  lemma PlatformNameInjective(p: Platform, q: Platform)
    requires PlatformName(p) == PlatformName(q)
    ensures p == q
  {
    PlatformRoundTrip(p);
    PlatformRoundTrip(q);
  }
}
