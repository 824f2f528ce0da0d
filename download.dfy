/** `download` of src/download.rs: fetch every requested artifact into the output
    directory while a progress bar counts the bytes, then copy the overrides in. The
    concurrent transfers are modelled as a sequential loop in list order; what each
    transfer reports is given by a `Transfer` value. */
module Download {
  import opened Wrappers
  import opened FileSystem
  import opened Dupes
  import opened Reconcile
  import opened Settings

  /** What `DownloadData::download` does for one artifact: the byte counts it passes to
      the progress callback, and the reason it fails, if it does. */
  datatype Transfer = Transfer(chunks: seq<nat>, failure: Option<string>)

  datatype DownloadError =
    | TransferFailed(filename: string, reason: string)
    | CopyError(io: IoError)
    | NotFileOrDir  // a constant message: the override is neither a file nor a folder

  /** Where a sequence of fallible directory updates stopped, and the directory then. */
  datatype Step = Step(outcome: Outcome<DownloadError>, dir: Directory)

  /** `ProgressBar` of indicatif as far as `download` uses it: a length and a position. */
  class ProgressBar {
    var length: nat
    var position: nat

    constructor(length: nat)
      ensures this.length == length && position == 0
    {
      this.length := length;
      position := 0;
    }

    /** `ProgressBar::inc`: the position only grows, by `delta`. */
    method Inc(delta: nat)
      modifies this
      ensures length == old(length) && position == old(position) + delta
    {
      position := position + delta;
    }
  }

  /** The length of the progress bar: the sum of the expected sizes. */
  function TotalLength(v: seq<DownloadData>): nat {
    if v == [] then 0 else v[0].length + TotalLength(v[1..])
  }

  function Sum(xs: seq<nat>): nat {
    if xs == [] then 0 else xs[0] + Sum(xs[1..])
  }

  lemma {:induction false} TotalLengthAppend(a: seq<DownloadData>, b: seq<DownloadData>)
    ensures TotalLength(a + b) == TotalLength(a) + TotalLength(b)
  {
    if a == [] {
      assert a + b == b;
    } else {
      assert (a + b)[0] == a[0] && (a + b)[1..] == a[1..] + b;
      TotalLengthAppend(a[1..], b);
    }
  }

  lemma TotalLengthRemove(b: seq<DownloadData>, i: nat)
    requires i < |b|
    ensures TotalLength(b) == b[i].length + TotalLength(b[..i] + b[i + 1..])
  {
    assert b == b[..i] + ([b[i]] + b[i + 1..]);
    TotalLengthAppend(b[..i], [b[i]] + b[i + 1..]);
    TotalLengthAppend([b[i]], b[i + 1..]);
    TotalLengthAppend(b[..i], b[i + 1..]);
    assert ([b[i]] + b[i + 1..])[1..] == b[i + 1..];
  }

  lemma MultisetRemove<T>(b: seq<T>, i: nat)
    requires i < |b|
    ensures multiset(b[..i] + b[i + 1..]) == multiset(b) - multiset{b[i]}
  {
    assert b == b[..i] + [b[i]] + b[i + 1..];
  }

  /** An element of `b` sits at some position of `b`. */
  lemma IndexOf<T>(b: seq<T>, x: T) returns (i: nat)
    requires x in multiset(b)
    ensures i < |b| && b[i] == x
  {
    i :| 0 <= i < |b| && b[i] == x;
  }

  /** A permutation of a non-empty `a` holds `a[0]` at some position `i`; without it, the
      rest is a permutation of `a[1..]`. */
  lemma PermutationSplit<T>(a: seq<T>, b: seq<T>) returns (i: nat)
    requires a != [] && multiset(a) == multiset(b)
    ensures i < |b| && b[i] == a[0]
    ensures multiset(a[1..]) == multiset(b[..i] + b[i + 1..])
  {
    assert a == [a[0]] + a[1..];
    i := IndexOf(b, a[0]);
    MultisetRemove(b, i);
  }

  /** Taking the element at `i` from `b` and the first element from `a`, when they are
      equal and the totals of the remainders agree. */
  lemma TotalLengthTake(a: seq<DownloadData>, b: seq<DownloadData>, i: nat)
    requires a != [] && i < |b| && b[i] == a[0]
    requires TotalLength(a[1..]) == TotalLength(b[..i] + b[i + 1..])
    ensures TotalLength(a) == TotalLength(b)
  {
    TotalLengthRemove(b, i);
  }

  /** The total does not depend on the order of the requests (which `clean` changes). */
  lemma {:induction false} TotalLengthPermutation(a: seq<DownloadData>, b: seq<DownloadData>)
    requires multiset(a) == multiset(b)
    ensures TotalLength(a) == TotalLength(b)
  {
    if a == [] {
      assert |b| == |multiset(b)|;
    } else {
      var i := PermutationSplit(a, b);
      TotalLengthPermutation(a[1..], b[..i] + b[i + 1..]);
      TotalLengthTake(a, b, i);
    }
  }

  /** The bytes reported to the progress bar: every chunk of every transfer up to and
      including the first that fails. */
  function Reported(ts: seq<Transfer>): nat {
    if ts == [] then 0
    else Sum(ts[0].chunks) + (if ts[0].failure.Some? then 0 else Reported(ts[1..]))
  }

  /** The output directory once each named file has been saved in it. */
  function AddFiles(d: Directory, names: seq<string>): (r: Directory)
    ensures r.archive == d.archive
    ensures forall n :: n in r.entries <==> n in d.entries || n in names
    ensures forall n :: n in names ==> r.entries[n] == File
    ensures forall n :: n in d.entries && n !in names ==> r.entries[n] == d.entries[n]
    decreases |names|
  {
    if names == [] then d
    else AddFiles(d.(entries := d.entries[names[0] := File]), names[1..])
  }

  /** The transfers, one after another in list order; the first failure stops them. */
  function Fetch(d: Directory, v: seq<DownloadData>, ts: seq<Transfer>): Step
    requires |ts| == |v|
    decreases |v|
  {
    if v == [] then Step(Pass, d)
    else
      match ts[0].failure
      case Some(reason) => Step(Fail(TransferFailed(v[0].filename, reason)), d)
      case None => Fetch(d.(entries := d.entries[v[0].filename := File]), v[1..], ts[1..])
  }

  /** `Path::is_file` / `Path::is_dir` of an override's source; an unknown path is
      neither. */
  function SourceKind(sources: map<string, Kind>, path: string): Kind {
    if path in sources then sources[path] else Other
  }

  /** Lines 161-169 of src/download.rs for one override. */
  function InstallOne(d: Directory, o: Override, sources: map<string, Kind>, faults: Faults): Result<Directory, DownloadError> {
    match SourceKind(sources, o.path)
    case File =>
      (match CopyFile(d, o.path, o.name, faults)
       case Ok(next) => Ok(next)
       case Err(e) => Err(CopyError(e)))
    case Folder =>
      (match CopyDir(d, o.path, faults)
       case Ok(next) => Ok(next)
       case Err(e) => Err(CopyError(e)))
    case Other => Err(NotFileOrDir)
  }

  /** The install loop: the overrides in order; the first failure stops it and keeps
      what was copied before. */
  function InstallAll(d: Directory, v: seq<Override>, sources: map<string, Kind>, faults: Faults): Step
    decreases |v|
  {
    if v == [] then Step(Pass, d)
    else
      match InstallOne(d, v[0], sources, faults)
      case Err(e) => Step(Fail(e), d)
      case Ok(next) => InstallAll(next, v[1..], sources, faults)
  }

  /** All of `download`: the install loop runs on what the transfers left, and only if
      none of them failed. This is the specification the method `Download` is proved
      against. */
  function DownloadAll(d: Directory, v: seq<DownloadData>, ts: seq<Transfer>, overrides: seq<Override>,
                       sources: map<string, Kind>, faults: Faults): Step
    requires |ts| == |v|
  {
    var fetched := Fetch(d, v, ts);
    if fetched.outcome.Fail? then fetched else InstallAll(fetched.dir, overrides, sources, faults)
  }

  /** Lines 97-178 of src/download.rs. `permits` is the size of the semaphore, which
      bounds how many transfers run at once. Its result and final directory are those
      of the specification function `DownloadAll`. */
  method Download(outputDir: Directory, toDownload: seq<DownloadData>, toInstall: seq<Override>,
                  transfers: seq<Transfer>, sources: map<string, Kind>, faults: Faults, parallel: OnceCell)
    returns (res: Outcome<DownloadError>, finalDir: Directory, bar: ProgressBar, permits: nat)
    requires |transfers| == |toDownload|
    modifies parallel
    ensures fresh(bar)
    ensures bar.length == TotalLength(toDownload)
    ensures bar.position == Reported(transfers)
    ensures Step(res, finalDir) == DownloadAll(outputDir, toDownload, transfers, toInstall, sources, faults)
    ensures old(parallel.contents).Some? ==> permits == old(parallel.contents).value
    ensures old(parallel.contents).None? ==> permits == DEFAULT_PARALLEL_NETWORK
    ensures parallel.contents == Some(permits)
  {
    bar := new ProgressBar(TotalLength(toDownload));
    permits := parallel.GetOrInit(DEFAULT_PARALLEL_NETWORK);
    finalDir := outputDir;
    for i := 0 to |toDownload|
      invariant Fetch(outputDir, toDownload, transfers) == Fetch(finalDir, toDownload[i..], transfers[i..])
      invariant Reported(transfers) == bar.position + Reported(transfers[i..])
      invariant bar.length == TotalLength(toDownload)
      invariant parallel.contents == Some(permits)
    {
      assert toDownload[i..][1..] == toDownload[i + 1..] && transfers[i..][1..] == transfers[i + 1..];
      var t := transfers[i];
      ghost var before := bar.position;
      for j := 0 to |t.chunks|
        invariant before + Sum(t.chunks) == bar.position + Sum(t.chunks[j..])
        invariant bar.length == TotalLength(toDownload)
        invariant parallel.contents == Some(permits)
      {
        assert t.chunks[j..][1..] == t.chunks[j + 1..];
        bar.Inc(t.chunks[j]);
      }
      if t.failure.Some? {
        return Fail(TransferFailed(toDownload[i].filename, t.failure.value)), finalDir, bar, permits;
      }
      finalDir := finalDir.(entries := finalDir.entries[toDownload[i].filename := File]);
    }
    ghost var fetched := finalDir;
    for k := 0 to |toInstall|
      invariant InstallAll(fetched, toInstall, sources, faults) == InstallAll(finalDir, toInstall[k..], sources, faults)
    {
      assert toInstall[k..][1..] == toInstall[k + 1..];
      var o := toInstall[k];
      var copied: Result<Directory, IoError>;
      if SourceKind(sources, o.path) == File {
        copied := CopyFile(finalDir, o.path, o.name, faults);
      } else if SourceKind(sources, o.path) == Folder {
        copied := CopyDir(finalDir, o.path, faults);
      } else {
        return Fail(NotFileOrDir), finalDir, bar, permits;
      }
      if copied.Err? {
        return Fail(CopyError(copied.error)), finalDir, bar, permits;
      }
      finalDir := copied.value;
    }
    res := Pass;
  }

  /** When every transfer succeeds and reports exactly its expected size, the progress
      bar ends full. */
  lemma {:induction false} ProgressComplete(v: seq<DownloadData>, ts: seq<Transfer>)
    requires |ts| == |v|
    requires forall i :: 0 <= i < |v| ==> ts[i].failure.None? && Sum(ts[i].chunks) == v[i].length
    ensures Reported(ts) == TotalLength(v)
  {
    if v != [] {
      ProgressComplete(v[1..], ts[1..]);
    }
  }

  lemma KeysTail(v: seq<DownloadData>)
    requires v != []
    ensures Keys(v, FilenameOf) == [v[0].filename] + Keys(v[1..], FilenameOf)
  {
  }

  /** When no transfer fails, every requested file ends up in the directory. */
  lemma {:induction false} FetchAll(d: Directory, v: seq<DownloadData>, ts: seq<Transfer>)
    requires |ts| == |v|
    requires forall i :: 0 <= i < |v| ==> ts[i].failure.None?
    ensures Fetch(d, v, ts) == Step(Pass, AddFiles(d, Keys(v, FilenameOf)))
    decreases |v|
  {
    if v != [] {
      KeysTail(v);
      FetchAll(d.(entries := d.entries[v[0].filename := File]), v[1..], ts[1..]);
    }
  }

  /** The first failing transfer, at `k`, is the error returned; the files before it
      have been saved. */
  lemma {:induction false} FetchFirstFailure(d: Directory, v: seq<DownloadData>, ts: seq<Transfer>, k: nat)
    requires |ts| == |v| && k < |v|
    requires ts[k].failure.Some? && forall j :: 0 <= j < k ==> ts[j].failure.None?
    ensures Fetch(d, v, ts) == Step(Fail(TransferFailed(v[k].filename, ts[k].failure.value)),
                                    AddFiles(d, Keys(v[..k], FilenameOf)))
    decreases k
  {
    if k > 0 {
      KeysTail(v[..k]);
      assert v[..k][1..] == v[1..][..k - 1];
      FetchFirstFailure(d.(entries := d.entries[v[0].filename := File]), v[1..], ts[1..], k - 1);
    }
  }

  /** Installs happen only after every transfer has succeeded: with a failing transfer
      the first one's error is returned and no override is copied; otherwise the result
      is the install loop run on the directory holding every downloaded file. */
  lemma DownloadOrder(d: Directory, v: seq<DownloadData>, ts: seq<Transfer>, overrides: seq<Override>,
                      sources: map<string, Kind>, faults: Faults)
    requires |ts| == |v|
    ensures (forall i :: 0 <= i < |v| ==> ts[i].failure.None?) ==>
              DownloadAll(d, v, ts, overrides, sources, faults)
              == InstallAll(AddFiles(d, Keys(v, FilenameOf)), overrides, sources, faults)
    ensures forall k :: 0 <= k < |v| && ts[k].failure.Some? && (forall j :: 0 <= j < k ==> ts[j].failure.None?) ==>
              DownloadAll(d, v, ts, overrides, sources, faults)
              == Step(Fail(TransferFailed(v[k].filename, ts[k].failure.value)), AddFiles(d, Keys(v[..k], FilenameOf)))
  {
    if forall i :: 0 <= i < |v| ==> ts[i].failure.None? {
      FetchAll(d, v, ts);
    }
    forall k | 0 <= k < |v| && ts[k].failure.Some? && (forall j :: 0 <= j < k ==> ts[j].failure.None?)
      ensures DownloadAll(d, v, ts, overrides, sources, faults)
              == Step(Fail(TransferFailed(v[k].filename, ts[k].failure.value)), AddFiles(d, Keys(v[..k], FilenameOf)))
    {
      FetchFirstFailure(d, v, ts, k);
    }
  }

  /** Installing `a + b` installs `a` and, only if that succeeded, then `b` on the
      result: the overrides are processed in order and a failure keeps what came before. */
  lemma {:induction false} InstallAllAppend(d: Directory, a: seq<Override>, b: seq<Override>,
                                            sources: map<string, Kind>, faults: Faults)
    ensures InstallAll(d, a + b, sources, faults)
            == if InstallAll(d, a, sources, faults).outcome.Fail? then InstallAll(d, a, sources, faults)
               else InstallAll(InstallAll(d, a, sources, faults).dir, b, sources, faults)
    decreases |a|
  {
    if a == [] {
      assert a + b == b;
    } else {
      assert (a + b)[0] == a[0] && (a + b)[1..] == a[1..] + b;
      match InstallOne(d, a[0], sources, faults)
      case Err(_) =>
      case Ok(next) => InstallAllAppend(next, a[1..], b, sources, faults);
    }
  }

  /** An override is in place: a file under its name, a folder under the last
      component of its source path. */
  predicate Placed(d: Directory, o: Override, sources: map<string, Kind>) {
    match SourceKind(sources, o.path)
    case File => IsFile(d, o.name)
    case Folder => LastComponent(o.path) in d.entries && d.entries[LastComponent(o.path)] == Folder
    case Other => false
  }

  /** A successful copy places its override and keeps every override placed before. */
  lemma InstallOnePlaces(d: Directory, o: Override, sources: map<string, Kind>, faults: Faults)
    requires InstallOne(d, o, sources, faults).Ok?
    ensures Placed(InstallOne(d, o, sources, faults).value, o, sources)
    ensures forall p :: Placed(d, p, sources) ==> Placed(InstallOne(d, o, sources, faults).value, p, sources)
  {
  }

  /** After a successful install loop every override is in place. */
  lemma {:induction false} InstallAllPlaces(d: Directory, v: seq<Override>, sources: map<string, Kind>, faults: Faults)
    requires InstallAll(d, v, sources, faults).outcome.Pass?
    ensures forall i :: 0 <= i < |v| ==> Placed(InstallAll(d, v, sources, faults).dir, v[i], sources)
    ensures forall p :: Placed(d, p, sources) ==> Placed(InstallAll(d, v, sources, faults).dir, p, sources)
    decreases |v|
  {
    if v != [] {
      InstallOnePlaces(d, v[0], sources, faults);
      var next := InstallOne(d, v[0], sources, faults).value;
      InstallAllPlaces(next, v[1..], sources, faults);
      forall i | 0 <= i < |v| ensures Placed(InstallAll(d, v, sources, faults).dir, v[i], sources) {
        if i > 0 { assert v[i] == v[1..][i - 1]; }
      }
    }
  }

  /** The install loop touches nothing but the names it installs to, and never the archive.
      The archive is kept apart from the entries here, so a folder override named `.old`
      is installed as an entry of that name; in the program `dir::copy` would then write
      into the archive folder itself, which this model does not capture. */
  lemma {:induction false} InstallAllFrame(d: Directory, v: seq<Override>, sources: map<string, Kind>, faults: Faults, n: string)
    requires forall i :: 0 <= i < |v| ==> n != v[i].name && n != LastComponent(v[i].path)
    ensures InstallAll(d, v, sources, faults).dir.archive == d.archive
    ensures n in InstallAll(d, v, sources, faults).dir.entries <==> n in d.entries
    ensures n in d.entries ==> InstallAll(d, v, sources, faults).dir.entries[n] == d.entries[n]
    decreases |v|
  {
    if v != [] {
      match InstallOne(d, v[0], sources, faults)
      case Err(_) =>
      case Ok(next) =>
        forall i | 0 <= i < |v[1..]| ensures n != v[1..][i].name && n != LastComponent(v[1..][i].path) {
          assert v[1..][i] == v[i + 1];
        }
        InstallAllFrame(next, v[1..], sources, faults, n);
    }
  }

  /** A failed install loop stopped at override `k`: everything before it was installed
      and stays, and `k` itself could not be. */
  lemma {:induction false} InstallAllStops(d: Directory, v: seq<Override>, sources: map<string, Kind>, faults: Faults)
    returns (k: nat)
    requires InstallAll(d, v, sources, faults).outcome.Fail?
    ensures k < |v|
    ensures InstallAll(d, v[..k], sources, faults).outcome.Pass?
    ensures InstallOne(InstallAll(d, v[..k], sources, faults).dir, v[k], sources, faults).Err?
    ensures InstallAll(d, v, sources, faults)
            == Step(Fail(InstallOne(InstallAll(d, v[..k], sources, faults).dir, v[k], sources, faults).error),
                    InstallAll(d, v[..k], sources, faults).dir)
    decreases |v|
  {
    assert v[..0] == [];
    match InstallOne(d, v[0], sources, faults)
    case Err(_) =>
      k := 0;
    case Ok(next) =>
      var j := InstallAllStops(next, v[1..], sources, faults);
      k := j + 1;
      assert v[..k] == [v[0]] + v[1..][..j];
      assert v[..k][0] == v[0] && v[..k][1..] == v[1..][..j];
      assert v[k] == v[1..][j];
  }
}
