/** `clean` and `read_overrides` of src/download.rs: bringing a target directory in line
    with the artifacts still to be downloaded and the overrides still to be installed. */
module Reconcile {
  import opened Wrappers
  import opened Strings
  import opened FileSystem
  import opened Dupes

  /** What the program knows of one artifact before fetching it (libium's `DownloadData`):
      the file name it will be saved under and its expected size in bytes. */
  datatype DownloadData = DownloadData(filename: string, length: nat)

  /** One entry of `to_install`: the name it gets in the target directory, and where it
      is copied from. */
  datatype Override = Override(name: string, path: string)

  function FilenameOf(d: DownloadData): string {
    d.filename
  }

  function NameOf(o: Override): string {
    o.name
  }

  /** An unexpected file whose name ends with this is removed without being archived.
      The program tests for `part`, not `.part`. */
  const PART_SUFFIX: string := "part"

  /** `Iterator::position` on a list of names: the first index holding `n`. */
  function Position(names: seq<string>, n: string): (r: Option<nat>)
    ensures r.None? <==> n !in names
    ensures r.Some? ==> r.value < |names| && names[r.value] == n && n !in names[..r.value]
  {
    if names == [] then None
    else if names[0] == n then Some(0)
    else
      match Position(names[1..], n)
      case None => None
      case Some(j) =>
        assert names[..j + 1] == [names[0]] + names[1..][..j];
        Some(j + 1)
  }

  /** What `clean` works on: the directory and the two lists it shrinks in place. */
  datatype State = State(dir: Directory, toDownload: seq<DownloadData>, toInstall: seq<Override>)

  /** How a scan ended, and the state at that point (the state a failure leaves behind). */
  datatype Scan = Scan(outcome: Outcome<IoError>, state: State)

  /** `remove_file` on an entry of the directory. */
  function Remove(st: State, n: string, faults: Faults): Result<State, IoError> {
    match RemoveFile(st.dir, n, faults)
    case Ok(d) => Ok(st.(dir := d))
    case Err(e) => Err(e)
  }

  /** One directory entry `n` of the scan, lines 52-78 of src/download.rs. */
  function Visit(st: State, n: string, faults: Faults): Result<State, IoError> {
    if !IsFile(st.dir, n) then Ok(st)
    else
      match Position(Keys(st.toDownload, FilenameOf), n)
      case Some(i) => Ok(st.(toDownload := SwapRemove(st.toDownload, i)))
      case None =>
        match Position(Keys(st.toInstall, NameOf), n)
        case Some(i) => Ok(st.(toInstall := SwapRemove(st.toInstall, i)))
        case None =>
          if EndsWith(n, PART_SUFFIX) then Remove(st, n, faults)
          else
            match MoveToArchive(st.dir, n, faults)
            case Some(d) => Ok(st.(dir := d))
            case None => Remove(st, n, faults)
  }

  /** The scan over the entries in the order `read_dir` yields them; the first failing
      `remove_file` ends it. This is the specification the loop of `Clean` is proved
      against; `CleanScan` says what it does. */
  function Run(st: State, order: seq<string>, faults: Faults): Scan
    decreases |order|
  {
    if order == [] then Scan(Pass, st)
    else
      match Visit(st, order[0], faults)
      case Err(e) => Scan(Fail(e), st)
      case Ok(next) => Run(next, order[1..], faults)
  }

  /** Lines 27-82 of src/download.rs. `listing` is what `read_dir` yields once `.old` has
      been ensured (`None` when it fails); `dropped` are the duplicate requests the warning
      names, and `deduped` is `to_download` right after they were removed. Its scan loop
      ends in the state the specification function `Run` computes. */
  method Clean(dir: Directory, toDownload: seq<DownloadData>, toInstall: seq<Override>,
               listing: Option<seq<string>>, faults: Faults)
    returns (res: Outcome<IoError>, dirAfter: Directory, toDownloadAfter: seq<DownloadData>,
             toInstallAfter: seq<Override>, deduped: seq<DownloadData>, dropped: seq<DownloadData>)
    ensures |toDownload| < 2 ==> deduped == toDownload && dropped == []
    ensures DistinctKeys(deduped, FilenameOf)
    ensures KeySet(deduped, FilenameOf) == KeySet(toDownload, FilenameOf)
    ensures |deduped| == |KeySet(toDownload, FilenameOf)|
    ensures multiset(deduped) + multiset(dropped) == multiset(toDownload)
    ensures CreateArchive(dir, faults).Err? ==>
              res == Fail(CreateArchive(dir, faults).error) && dirAfter == dir && toDownloadAfter == deduped && toInstallAfter == toInstall
    ensures CreateArchive(dir, faults).Ok? && listing.None? ==>
              res == Fail(ReadDirFailed) && dirAfter == CreateArchive(dir, faults).value && toDownloadAfter == deduped && toInstallAfter == toInstall
    ensures CreateArchive(dir, faults).Ok? && listing.Some? ==>
              Scan(res, State(dirAfter, toDownloadAfter, toInstallAfter))
              == Run(State(CreateArchive(dir, faults).value, deduped, toInstall), listing.value, faults)
  {
    deduped, dropped := DropDuplicates(toDownload, FilenameOf);
    dirAfter, toDownloadAfter, toInstallAfter := dir, deduped, toInstall;
    match CreateArchive(dir, faults) {
      case Err(e) =>
        return Fail(e), dirAfter, toDownloadAfter, toInstallAfter, deduped, dropped;
      case Ok(d) =>
        dirAfter := d;
    }
    if listing.None? {
      return Fail(ReadDirFailed), dirAfter, toDownloadAfter, toInstallAfter, deduped, dropped;
    }
    var order := listing.value;
    ghost var start := State(dirAfter, toDownloadAfter, toInstallAfter);
    res := Pass;
    for k := 0 to |order|
      invariant Run(start, order, faults) == Run(State(dirAfter, toDownloadAfter, toInstallAfter), order[k..], faults)
    {
      var n := order[k];
      assert order[k..][0] == n && order[k..][1..] == order[k + 1..];
      if IsFile(dirAfter, n) {
        var i := Position(Keys(toDownloadAfter, FilenameOf), n);
        if i.Some? {
          toDownloadAfter := SwapRemove(toDownloadAfter, i.value);
        } else {
          var j := Position(Keys(toInstallAfter, NameOf), n);
          if j.Some? {
            toInstallAfter := SwapRemove(toInstallAfter, j.value);
          } else {
            var moved := if EndsWith(n, PART_SUFFIX) then None else MoveToArchive(dirAfter, n, faults);
            if moved.Some? {
              dirAfter := moved.value;
            } else {
              var removed := RemoveFile(dirAfter, n, faults);
              if removed.Err? {
                return Fail(removed.error), dirAfter, toDownloadAfter, toInstallAfter, deduped, dropped;
              }
              dirAfter := removed.value;
            }
          }
        }
      }
    }
  }

  /** The entries of `order` are pairwise different (a directory listing names each
      entry once). */
  predicate NoRepeats(order: seq<string>) {
    forall p, q :: 0 <= p < q < |order| ==> order[p] != order[q]
  }

  /** An entry that the scan starting from `st0` matches against `to_download`. */
  predicate DownloadMatch(st0: State, n: string) {
    IsFile(st0.dir, n) && n in Keys(st0.toDownload, FilenameOf)
  }

  /** An entry matched against `to_install`, which is consulted only when
      `to_download` has no match. */
  predicate InstallMatch(st0: State, n: string) {
    IsFile(st0.dir, n) && n !in Keys(st0.toDownload, FilenameOf) && n in Keys(st0.toInstall, NameOf)
  }

  /** A regular file that neither list asks for. */
  predicate Unwanted(st0: State, n: string) {
    IsFile(st0.dir, n) && n !in Keys(st0.toDownload, FilenameOf) && n !in Keys(st0.toInstall, NameOf)
  }

  /** An unwanted file that reaches the archive: not a partial download, no namesake in
      the archive already, and the move does not fail. */
  predicate Archived(st0: State, n: string, faults: Faults) {
    Unwanted(st0, n) && !EndsWith(n, PART_SUFFIX) && n !in st0.dir.archive && n !in faults.unmovable
  }

  /** An unwanted file that must be removed and cannot be: the scan stops with an error there. */
  predicate Doomed(st0: State, n: string, faults: Faults) {
    Unwanted(st0, n) && !Archived(st0, n, faults) && n in faults.undeletable
  }

  /** What the scan from `st0` has done to the name `n` once it has visited the entries
      `seen`: an entry is only ever taken away, never added or changed; exactly the
      visited unwanted files are gone; the archive holds what it held plus the visited
      files that were archived; and every visited file matched against a list took one
      entry with its name from that list. */
  ghost predicate InvAt(st0: State, faults: Faults, seen: set<string>, st: State, n: string) {
    (n in st.dir.entries ==> n in st0.dir.entries && st.dir.entries[n] == st0.dir.entries[n])
    && (n in st0.dir.entries ==> (n in st.dir.entries <==> !(n in seen && Unwanted(st0, n))))
    && (n in st.dir.archive <==> n in st0.dir.archive || (n in seen && Archived(st0, n, faults)))
    && multiset(Keys(st.toDownload, FilenameOf))[n]
       == multiset(Keys(st0.toDownload, FilenameOf))[n] - (if n in seen && DownloadMatch(st0, n) then 1 else 0)
    && multiset(Keys(st.toInstall, NameOf))[n]
       == multiset(Keys(st0.toInstall, NameOf))[n] - (if n in seen && InstallMatch(st0, n) then 1 else 0)
  }

  /** What the scan from `st0` has done once it has visited the entries `seen`. */
  ghost predicate Inv(st0: State, faults: Faults, seen: set<string>, st: State) {
    forall n :: InvAt(st0, faults, seen, st, n)
  }

  /** Facts about an entry `n` the scan has not visited yet: it is still present with its
      original kind, and the lists and the archive still hold it as often as at the start. */
  lemma Unvisited(st0: State, faults: Faults, seen: set<string>, st: State, n: string)
    requires Inv(st0, faults, seen, st)
    requires n !in seen && n in st0.dir.entries
    ensures IsFile(st.dir, n) <==> IsFile(st0.dir, n)
    ensures n in Keys(st.toDownload, FilenameOf) <==> n in Keys(st0.toDownload, FilenameOf)
    ensures n in Keys(st.toInstall, NameOf) <==> n in Keys(st0.toInstall, NameOf)
    ensures n in st.dir.archive <==> n in st0.dir.archive
  {
    assert InvAt(st0, faults, seen, st, n);
    assert n in Keys(st.toDownload, FilenameOf) <==> n in multiset(Keys(st.toDownload, FilenameOf));
    assert n in Keys(st0.toDownload, FilenameOf) <==> n in multiset(Keys(st0.toDownload, FilenameOf));
    assert n in Keys(st.toInstall, NameOf) <==> n in multiset(Keys(st.toInstall, NameOf));
    assert n in Keys(st0.toInstall, NameOf) <==> n in multiset(Keys(st0.toInstall, NameOf));
  }

  lemma StepKeep(st0: State, faults: Faults, seen: set<string>, st: State, n: string)
    requires Inv(st0, faults, seen, st)
    requires n !in seen && n in st0.dir.entries
    requires !DownloadMatch(st0, n) && !InstallMatch(st0, n) && !Unwanted(st0, n)
    ensures Inv(st0, faults, seen + {n}, st)
  {
    forall m ensures InvAt(st0, faults, seen + {n}, st, m) {
      assert InvAt(st0, faults, seen, st, m);
    }
  }

  /** Taking one entry named `n` from `to_download` keeps the invariant at every name `m`. */
  lemma TakeDownloadAt(st0: State, faults: Faults, seen: set<string>, st: State, next: State, n: string, m: string)
    requires InvAt(st0, faults, seen, st, m) && InvAt(st0, faults, seen, st, n)
    requires n !in seen && DownloadMatch(st0, n)
    requires next.dir == st.dir && next.toInstall == st.toInstall
    requires multiset(Keys(next.toDownload, FilenameOf)) == multiset(Keys(st.toDownload, FilenameOf)) - multiset{n}
    ensures InvAt(st0, faults, seen + {n}, next, m)
  {
    assert n in multiset(Keys(st0.toDownload, FilenameOf));
  }

  /** Taking one entry named `n` from `to_install` keeps the invariant at every name `m`. */
  lemma TakeInstallAt(st0: State, faults: Faults, seen: set<string>, st: State, next: State, n: string, m: string)
    requires InvAt(st0, faults, seen, st, m) && InvAt(st0, faults, seen, st, n)
    requires n !in seen && InstallMatch(st0, n)
    requires next.dir == st.dir && next.toDownload == st.toDownload
    requires multiset(Keys(next.toInstall, NameOf)) == multiset(Keys(st.toInstall, NameOf)) - multiset{n}
    ensures InvAt(st0, faults, seen + {n}, next, m)
  {
    assert n in multiset(Keys(st0.toInstall, NameOf));
  }

  lemma StepDownload(st0: State, faults: Faults, seen: set<string>, st: State, n: string, i: nat)
    requires Inv(st0, faults, seen, st)
    requires n !in seen && DownloadMatch(st0, n)
    requires i < |st.toDownload| && st.toDownload[i].filename == n
    ensures Inv(st0, faults, seen + {n}, st.(toDownload := SwapRemove(st.toDownload, i)))
  {
    var ks := Keys(st.toDownload, FilenameOf);
    KeysSwapRemove(st.toDownload, i, FilenameOf);
    SwapRemoveSpec(ks, i);
    assert multiset(Keys(SwapRemove(st.toDownload, i), FilenameOf)) == multiset(ks) - multiset{n};
    forall m ensures InvAt(st0, faults, seen + {n}, st.(toDownload := SwapRemove(st.toDownload, i)), m) {
      TakeDownloadAt(st0, faults, seen, st, st.(toDownload := SwapRemove(st.toDownload, i)), n, m);
    }
  }

  lemma StepInstall(st0: State, faults: Faults, seen: set<string>, st: State, n: string, i: nat)
    requires Inv(st0, faults, seen, st)
    requires n !in seen && InstallMatch(st0, n)
    requires i < |st.toInstall| && st.toInstall[i].name == n
    ensures Inv(st0, faults, seen + {n}, st.(toInstall := SwapRemove(st.toInstall, i)))
  {
    var ks := Keys(st.toInstall, NameOf);
    KeysSwapRemove(st.toInstall, i, NameOf);
    SwapRemoveSpec(ks, i);
    assert multiset(Keys(SwapRemove(st.toInstall, i), NameOf)) == multiset(ks) - multiset{n};
    forall m ensures InvAt(st0, faults, seen + {n}, st.(toInstall := SwapRemove(st.toInstall, i)), m) {
      TakeInstallAt(st0, faults, seen, st, st.(toInstall := SwapRemove(st.toInstall, i)), n, m);
    }
  }

  lemma StepArchive(st0: State, faults: Faults, seen: set<string>, st: State, n: string)
    requires Inv(st0, faults, seen, st)
    requires n !in seen && Archived(st0, n, faults)
    ensures Inv(st0, faults, seen + {n}, st.(dir := Directory(st.dir.entries - {n}, st.dir.archive + {n})))
  {
    forall m ensures InvAt(st0, faults, seen + {n}, st.(dir := Directory(st.dir.entries - {n}, st.dir.archive + {n})), m) {
      assert InvAt(st0, faults, seen, st, m);
    }
  }

  lemma StepRemove(st0: State, faults: Faults, seen: set<string>, st: State, n: string)
    requires Inv(st0, faults, seen, st)
    requires n !in seen && Unwanted(st0, n) && !Archived(st0, n, faults)
    ensures Inv(st0, faults, seen + {n}, st.(dir := st.dir.(entries := st.dir.entries - {n})))
  {
    forall m ensures InvAt(st0, faults, seen + {n}, st.(dir := st.dir.(entries := st.dir.entries - {n})), m) {
      assert InvAt(st0, faults, seen, st, m);
    }
  }

  /** One visit keeps the invariant, and fails exactly at a doomed entry. */
  lemma VisitStep(st0: State, faults: Faults, seen: set<string>, st: State, n: string)
    requires Inv(st0, faults, seen, st)
    requires n !in seen && n in st0.dir.entries
    ensures Visit(st, n, faults).Err? <==> Doomed(st0, n, faults)
    ensures Visit(st, n, faults).Err? ==> Visit(st, n, faults).error == RemoveFailed(n)
    ensures Visit(st, n, faults).Ok? ==> Inv(st0, faults, seen + {n}, Visit(st, n, faults).value)
  {
    Unvisited(st0, faults, seen, st, n);
    if !IsFile(st.dir, n) {
      StepKeep(st0, faults, seen, st, n);
    } else if DownloadMatch(st0, n) {
      var i := Position(Keys(st.toDownload, FilenameOf), n).value;
      StepDownload(st0, faults, seen, st, n, i);
    } else if InstallMatch(st0, n) {
      var i := Position(Keys(st.toInstall, NameOf), n).value;
      StepInstall(st0, faults, seen, st, n, i);
    } else if Archived(st0, n, faults) {
      StepArchive(st0, faults, seen, st, n);
    } else {
      StepRemove(st0, faults, seen, st, n);
    }
  }

  ghost function Members(order: seq<string>): set<string> {
    set n | n in order
  }

  /** Moving the stop index of the scan of `order[1..]` to the scan of `order`. */
  lemma StopCons(st0: State, faults: Faults, order: seq<string>, s: nat)
    requires 0 < |order| && s < |order| && !Doomed(st0, order[0], faults)
    requires forall j :: 0 <= j < s ==> !Doomed(st0, order[1..][j], faults)
    ensures forall j :: 0 <= j < s + 1 ==> !Doomed(st0, order[j], faults)
    ensures s + 1 < |order| ==> order[s + 1] == order[1..][s]
    ensures Members(order[..s + 1]) == {order[0]} + Members(order[1..][..s])
  {
    assert order[..s + 1] == [order[0]] + order[1..][..s];
    forall j | 0 <= j < s + 1 ensures !Doomed(st0, order[j], faults) {
      if j > 0 { assert order[j] == order[1..][j - 1]; }
    }
  }

  /** The scan of entries not seen yet stops at `stop`, the first doomed entry, with
      that entry's removal error, or passes when there is none; either way the invariant
      holds for the entries before `stop`. */
  lemma {:induction false} RunSteps(st0: State, faults: Faults, seen: set<string>, st: State, order: seq<string>)
    returns (stop: nat)
    requires Inv(st0, faults, seen, st)
    requires NoRepeats(order)
    requires forall k :: 0 <= k < |order| ==> order[k] in st0.dir.entries && order[k] !in seen
    ensures stop <= |order|
    ensures forall j :: 0 <= j < stop ==> !Doomed(st0, order[j], faults)
    ensures stop == |order| ==> Run(st, order, faults).outcome == Pass
    ensures stop < |order| ==> Doomed(st0, order[stop], faults)
                               && Run(st, order, faults).outcome == Fail(RemoveFailed(order[stop]))
    ensures Inv(st0, faults, seen + Members(order[..stop]), Run(st, order, faults).state)
    decreases |order|
  {
    if order == [] {
      assert seen + Members(order[..0]) == seen;
      return 0;
    }
    var n := order[0];
    VisitStep(st0, faults, seen, st, n);
    if Visit(st, n, faults).Err? {
      assert seen + Members(order[..0]) == seen;
      return 0;
    }
    var next := Visit(st, n, faults).value;
    var rest := order[1..];
    forall k | 0 <= k < |rest| ensures rest[k] in st0.dir.entries && rest[k] !in seen + {n} {
      assert rest[k] == order[k + 1];
    }
    var s := RunSteps(st0, faults, seen + {n}, next, rest);
    assert Run(st, order, faults) == Run(next, rest, faults);
    StopCons(st0, faults, order, s);
    assert seen + Members(order[..s + 1]) == seen + {n} + Members(rest[..s]);
    return s + 1;
  }

  /** Before the scan nothing has been done. */
  lemma InvStart(st0: State, faults: Faults)
    ensures Inv(st0, faults, {}, st0)
  {
    forall n ensures InvAt(st0, faults, {}, st0, n) {
    }
  }

  /** Once every entry has been visited: folders and other non-files are untouched,
      nothing is added or changed, the regular files left are exactly those one of the
      lists asks for, the archive gained exactly the archivable unwanted files, and each
      list lost one entry per matching file. */
  lemma InvDone(st0: State, faults: Faults, seen: set<string>, st: State)
    requires Inv(st0, faults, seen, st)
    requires forall n :: n in st0.dir.entries ==> n in seen
    ensures forall n :: n in st0.dir.entries && st0.dir.entries[n] != File ==>
              n in st.dir.entries && st.dir.entries[n] == st0.dir.entries[n]
    ensures forall n :: n in st.dir.entries ==> n in st0.dir.entries && st.dir.entries[n] == st0.dir.entries[n]
    ensures forall n :: IsFile(st.dir, n) <==>
              IsFile(st0.dir, n) && (n in Keys(st0.toDownload, FilenameOf) || n in Keys(st0.toInstall, NameOf))
    ensures forall n :: n in st.dir.archive <==> n in st0.dir.archive || Archived(st0, n, faults)
    ensures forall n :: multiset(Keys(st.toDownload, FilenameOf))[n]
              == multiset(Keys(st0.toDownload, FilenameOf))[n] - (if DownloadMatch(st0, n) then 1 else 0)
    ensures forall n :: multiset(Keys(st.toInstall, NameOf))[n]
              == multiset(Keys(st0.toInstall, NameOf))[n] - (if InstallMatch(st0, n) then 1 else 0)
  {
    forall n ensures n in st0.dir.entries && st0.dir.entries[n] != File ==>
                       n in st.dir.entries && st.dir.entries[n] == st0.dir.entries[n] {
      assert InvAt(st0, faults, seen, st, n);
    }
    forall n ensures n in st.dir.entries ==> n in st0.dir.entries && st.dir.entries[n] == st0.dir.entries[n] {
      assert InvAt(st0, faults, seen, st, n);
    }
    forall n ensures IsFile(st.dir, n) <==>
                       IsFile(st0.dir, n) && (n in Keys(st0.toDownload, FilenameOf) || n in Keys(st0.toInstall, NameOf)) {
      assert InvAt(st0, faults, seen, st, n);
    }
    forall n ensures n in st.dir.archive <==> n in st0.dir.archive || Archived(st0, n, faults) {
      assert InvAt(st0, faults, seen, st, n);
    }
    forall n ensures multiset(Keys(st.toDownload, FilenameOf))[n]
                       == multiset(Keys(st0.toDownload, FilenameOf))[n] - (if DownloadMatch(st0, n) then 1 else 0) {
      assert InvAt(st0, faults, seen, st, n);
    }
    forall n ensures multiset(Keys(st.toInstall, NameOf))[n]
                       == multiset(Keys(st0.toInstall, NameOf))[n] - (if InstallMatch(st0, n) then 1 else 0) {
      assert InvAt(st0, faults, seen, st, n);
    }
  }

  /** The whole scan, when `order` lists every entry of the directory once: it passes
      exactly when no entry is doomed, and otherwise fails at the first doomed entry in
      listing order, with what it did before that point. */
  lemma CleanScan(st0: State, order: seq<string>, faults: Faults)
    requires NoRepeats(order)
    requires forall n :: n in order <==> n in st0.dir.entries
    ensures Run(st0, order, faults).outcome.Pass? <==> forall n :: n in st0.dir.entries ==> !Doomed(st0, n, faults)
    ensures Run(st0, order, faults).outcome.Pass? ==> Inv(st0, faults, st0.dir.entries.Keys, Run(st0, order, faults).state)
    ensures Run(st0, order, faults).outcome.Fail? ==>
              exists k :: 0 <= k < |order| && Doomed(st0, order[k], faults)
                && (forall j :: 0 <= j < k ==> !Doomed(st0, order[j], faults))
                && Run(st0, order, faults).outcome.error == RemoveFailed(order[k])
                && Inv(st0, faults, Members(order[..k]), Run(st0, order, faults).state)
  {
    InvStart(st0, faults);
    var stop := RunSteps(st0, faults, {}, st0, order);
    assert {} + Members(order[..stop]) == Members(order[..stop]);
    if stop == |order| {
      assert order[..stop] == order;
      assert Members(order) == st0.dir.entries.Keys;
      forall n | n in st0.dir.entries ensures !Doomed(st0, n, faults) {
        var k :| 0 <= k < |order| && order[k] == n;
      }
    } else {
      assert order[stop] in st0.dir.entries;
    }
  }

  /** Idempotence: once a scan has passed over every entry, a second scan of the
      directory it left, against the same two lists, finds no unwanted file. Whatever
      faults the second run meets, it passes, and it removes and archives nothing. */
  lemma RerunDisposesNothing(st0: State, faults: Faults, st1: State, order: seq<string>, again: Faults)
    requires Inv(st0, faults, st0.dir.entries.Keys, st1)
    requires NoRepeats(order)
    requires forall n :: n in order <==> n in st1.dir.entries
    ensures forall n :: !Unwanted(State(st1.dir, st0.toDownload, st0.toInstall), n)
    ensures Run(State(st1.dir, st0.toDownload, st0.toInstall), order, again).outcome.Pass?
    ensures Run(State(st1.dir, st0.toDownload, st0.toInstall), order, again).state.dir == st1.dir
  {
    var st2 := State(st1.dir, st0.toDownload, st0.toInstall);
    InvDone(st0, faults, st0.dir.entries.Keys, st1);
    CleanScan(st2, order, again);
    var st3 := Run(st2, order, again).state;
    InvDone(st2, again, st2.dir.entries.Keys, st3);
    assert st3.dir.entries.Keys == st1.dir.entries.Keys;
    assert st3.dir.entries == st1.dir.entries;
    assert st3.dir.archive == st1.dir.archive;
  }

  /** With pairwise different filenames (as after the removal of duplicates) a matched
      file takes the only request for it: the requests left are exactly those whose file
      is not yet in the directory. */
  lemma MatchedDownloadsGone(st0: State, st: State)
    requires DistinctKeys(st0.toDownload, FilenameOf)
    requires forall n :: multiset(Keys(st.toDownload, FilenameOf))[n]
               == multiset(Keys(st0.toDownload, FilenameOf))[n] - (if DownloadMatch(st0, n) then 1 else 0)
    ensures forall n :: n in Keys(st.toDownload, FilenameOf) <==>
              n in Keys(st0.toDownload, FilenameOf) && !IsFile(st0.dir, n)
  {
    var ks := Keys(st0.toDownload, FilenameOf);
    assert DistinctKeys(ks, (x: string) => x);
    forall n ensures n in Keys(st.toDownload, FilenameOf) <==> n in ks && !IsFile(st0.dir, n) {
      DistinctKeysCountAtMostOne(ks, (x: string) => x, n);
      assert n in Keys(st.toDownload, FilenameOf) <==> n in multiset(Keys(st.toDownload, FilenameOf));
      assert n in ks <==> n in multiset(ks);
    }
  }

  /** A regular file named in `to_download` takes the entry at the first position
      with that name, and nothing else changes. */
  lemma VisitTakesFirstDownload(st: State, n: string, faults: Faults)
    requires IsFile(st.dir, n) && n in Keys(st.toDownload, FilenameOf)
    ensures exists i :: 0 <= i < |st.toDownload| && st.toDownload[i].filename == n
              && (forall j :: 0 <= j < i ==> st.toDownload[j].filename != n)
              && Visit(st, n, faults) == Ok(st.(toDownload := SwapRemove(st.toDownload, i)))
  {
    var ks := Keys(st.toDownload, FilenameOf);
    var i := Position(ks, n).value;
    forall j | 0 <= j < i ensures st.toDownload[j].filename != n {
      assert ks[..i][j] == ks[j];
    }
  }

  /** A regular file named in `to_install` but not in `to_download` takes the entry at
      the first position with that name from `to_install`, and nothing else changes. */
  lemma VisitTakesFirstInstall(st: State, n: string, faults: Faults)
    requires IsFile(st.dir, n) && n !in Keys(st.toDownload, FilenameOf) && n in Keys(st.toInstall, NameOf)
    ensures exists i :: 0 <= i < |st.toInstall| && st.toInstall[i].name == n
              && (forall j :: 0 <= j < i ==> st.toInstall[j].name != n)
              && Visit(st, n, faults) == Ok(st.(toInstall := SwapRemove(st.toInstall, i)))
  {
    var ks := Keys(st.toInstall, NameOf);
    var i := Position(ks, n).value;
    forall j | 0 <= j < i ensures st.toInstall[j].name != n {
      assert ks[..i][j] == ks[j];
    }
  }

  /** Lines 85-94 of src/download.rs: one override per entry of `directory`, in listing
      order, named by the entry and located at `directory/name`; none when the directory
      does not exist. A folder override is therefore copied under its own name. */
  method ReadOverrides(directory: string, listing: Listing) returns (r: Result<seq<Override>, IoError>)
    ensures listing.Missing? ==> r == Ok([])
    ensures listing.Unreadable? ==> r == Err(ReadDirFailed)
    ensures listing.Listed? ==>
              r.Ok? && Keys(r.value, NameOf) == listing.names
              && (forall i :: 0 <= i < |r.value| ==> r.value[i].path == Join(directory, listing.names[i]))
              && (forall i :: 0 <= i < |r.value| && '/' !in r.value[i].name ==> LastComponent(r.value[i].path) == r.value[i].name)
  {
    var toInstall: seq<Override> := [];
    match listing {
      case Missing =>
      case Unreadable =>
        return Err(ReadDirFailed);
      case Listed(names) =>
        for k := 0 to |names|
          invariant |toInstall| == k
          invariant forall i :: 0 <= i < k ==> toInstall[i] == Override(names[i], Join(directory, names[i]))
          invariant forall i :: 0 <= i < k && '/' !in names[i] ==> LastComponent(toInstall[i].path) == names[i]
        {
          if '/' !in names[k] {
            LastComponentOfJoin(directory, names[k]);
          }
          toInstall := toInstall + [Override(names[k], Join(directory, names[k]))];
        }
    }
    return Ok(toInstall);
  }
}
