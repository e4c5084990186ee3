/** Deciding which packages are outdated on a remote without transferring
    their contents (`Remote#each_outdated_package` and `changed_stat?`): the
    local install stamp is compared with its copy under the remote's URI
    path by size and modification time, read by opening the remote copy and
    asking the handle for its attributes. */
module Staleness {
  import opened Wrappers
  import opened Seqs
  import opened Filesystem
  import opened SyncErrors
  import opened SyncRemote

  /** What the sync code reads of a package: its name, its install prefix
      and its install stamp, the file whose existence and mtime say that
      the package was built. */
  datatype Package = Package(name: string, prefix: string, installStamp: string)

  /** The optional attribute `v` is reported and equals `x`. A Ruby `nil`
      compared with `!=` to an integer is always different. */
  predicate Reports(v: Option<nat>, x: int) {
    v.Some? && v.value == x
  }

  /** `changed_stat?`: does the remote attribute record differ from the
      local stat? Sizes first, then whole seconds, then (only when the
      remote reports them) the sub-second part, compared at microsecond
      resolution. A size or mtime the server left out counts as different. */
  function ChangedStat(local: LocalFile, remote: Attrs): (changed: bool)
    ensures remote.size.None? || remote.mtime.None? ==> changed
    ensures !Reports(remote.size, local.size) ==> changed
    ensures Reports(remote.size, local.size) && !Reports(remote.mtime, local.sec) ==> changed
    ensures Reports(remote.size, local.size) && Reports(remote.mtime, local.sec) && remote.nsec.None? ==> !changed
    ensures Reports(remote.size, local.size) && Reports(remote.mtime, local.sec) && remote.nsec.Some? ==>
      (changed <==> remote.nsec.value / 1000 != local.usec)
  {
    if !Reports(remote.size, local.size) then true
    else if !Reports(remote.mtime, local.sec) then true
    else match remote.nsec
      case None => false
      case Some(ns) => ns / 1000 != local.usec
  }

  /** A remote copy that carries the local size and mtime (as `rsync -a`
      leaves it) is never reported changed, whether or not the remote
      reports sub-second time. */
  lemma FaithfulCopyUnchanged(local: LocalFile, subMicro: nat, withNsec: bool)
    requires local.sec >= 0 && subMicro < 1000
    ensures !ChangedStat(local, Attrs(Some(local.size), Some(local.sec as nat),
                                      if withNsec then Some(local.usec * 1000 + subMicro) else None))
  {
    if withNsec {
      assert (local.usec * 1000 + subMicro) / 1000 == local.usec;
    }
  }

  /** The path of a package's install stamp on the remote. */
  function StampPath(remote: Remote, pkg: Package): string {
    RemotePath(remote, pkg.installStamp)
  }

  predicate HasLocalStamp(local: LocalFs, pkg: Package) {
    pkg.installStamp in local
  }

  /** Opening and stat-ing the remote stamp of a built package fails with
      something other than "no such file": the error the code re-raises. */
  predicate StatBreaks(remote: Remote, local: LocalFs, fs: RemoteFs, pkg: Package) {
    HasLocalStamp(local, pkg) && OpenStat(fs, StampPath(remote, pkg)).Status?
    && OpenStat(fs, StampPath(remote, pkg)).code != FX_NO_SUCH_FILE
  }

  /** A built package is outdated when its remote stamp is missing or its
      attributes differ from the local stamp's. */
  predicate IsOutdated(remote: Remote, local: LocalFs, fs: RemoteFs, pkg: Package) {
    HasLocalStamp(local, pkg) &&
    match OpenStat(fs, StampPath(remote, pkg))
    case Ok(a) => ChangedStat(local[pkg.installStamp], a)
    case Status(code) => code == FX_NO_SUCH_FILE
  }

  function OutdatedTest(remote: Remote, local: LocalFs, fs: RemoteFs): Package -> bool {
    pkg => IsOutdated(remote, local, fs, pkg)
  }

  function StampTest(local: LocalFs): Package -> bool {
    pkg => HasLocalStamp(local, pkg)
  }

  /** The first phase's record for one package: `nil` for a package never
      built, the bare package when its remote stamp is missing, or both
      stats. */
  datatype Probe = Skipped | Missing(pkg: Package) | Probed(pkg: Package, localStat: LocalFile, remoteStat: Attrs) {
    /** Whether the second phase yields the package of this record. */
    predicate Selected() {
      Missing? || (Probed? && ChangedStat(localStat, remoteStat))
    }
  }

  /** The record the first phase makes for a package whose stat did not break. */
  function ProbeOf(remote: Remote, local: LocalFs, fs: RemoteFs, pkg: Package): Probe {
    if !HasLocalStamp(local, pkg) then Skipped
    else match OpenStat(fs, StampPath(remote, pkg))
      case Ok(a) => Probed(pkg, local[pkg.installStamp], a)
      case Status(_) => Missing(pkg)
  }

  /** One step of the first phase: the record for `pkg`, or the stat error
      that is re-raised. Only a built package's stamp is statted, so only a
      built package can fail. */
  function ProbeStamp(remote: Remote, local: LocalFs, fs: RemoteFs, pkg: Package): (r: Result<Probe, SyncError>)
    ensures r.Failure? <==> StatBreaks(remote, local, fs, pkg)
    ensures r.Success? ==> r.value == ProbeOf(remote, local, fs, pkg)
    ensures r.Failure? ==> r.error == StatFailed(StampPath(remote, pkg), OpenStat(fs, StampPath(remote, pkg)).code)
  {
    if pkg.installStamp !in local then Success(Skipped)
    else
      var path := StampPath(remote, pkg);
      match OpenStat(fs, path)
      case Ok(attrs) => Success(Probed(pkg, local[pkg.installStamp], attrs))
      case Status(code) =>
        if code != FX_NO_SUCH_FILE then Failure(StatFailed(path, code)) else Success(Missing(pkg))
  }

  /** The result of one enumeration: the positions whose remote stamp was
      statted, and the outdated packages or the re-raised stat error. */
  datatype Classification = Classification(statted: seq<nat>, outcome: Result<seq<Package>, SyncError>)

  /** The first phase of `each_outdated_package`: stat the remote stamp of
      every package built locally, in order, stopping at the first error
      other than "no such file". */
  method StatStamps(remote: Remote, local: LocalFs, fs: RemoteFs, pkgs: seq<Package>)
    returns (probes: seq<Probe>, statted: seq<nat>, error: Option<SyncError>)
    ensures error.None? <==> forall i :: 0 <= i < |pkgs| ==> !StatBreaks(remote, local, fs, pkgs[i])
    ensures error.None? ==>
      && statted == FilterIndices(pkgs, StampTest(local))
      && |probes| == |pkgs|
      && forall j :: 0 <= j < |pkgs| ==> probes[j] == ProbeOf(remote, local, fs, pkgs[j])
    ensures error.Some? ==> exists i :: (
      && 0 <= i < |pkgs|
      && StatBreaks(remote, local, fs, pkgs[i])
      && (forall j :: 0 <= j < i ==> !StatBreaks(remote, local, fs, pkgs[j]))
      && error.value == StatFailed(StampPath(remote, pkgs[i]), OpenStat(fs, StampPath(remote, pkgs[i])).code)
      && statted == FilterIndices(pkgs[..i + 1], StampTest(local)))
  {
    probes := [];
    statted := [];
    var i := 0;
    while i < |pkgs|
      invariant 0 <= i <= |pkgs| && |probes| == i
      invariant statted == FilterIndices(pkgs[..i], StampTest(local))
      invariant forall j :: 0 <= j < i ==> !StatBreaks(remote, local, fs, pkgs[j])
      invariant forall j :: 0 <= j < i ==> probes[j] == ProbeOf(remote, local, fs, pkgs[j])
    {
      var pkg := pkgs[i];
      FilterIndicesSnoc(pkgs, i, StampTest(local));
      if HasLocalStamp(local, pkg) {
        statted := statted + [i];
      }
      var step := ProbeStamp(remote, local, fs, pkg);
      if step.Failure? {
        error := Some(step.error);
        return;
      }
      probes := probes + [step.value];
      i := i + 1;
    }
    assert pkgs[..i] == pkgs;
    error := None;
  }

  /** `each_outdated_package`: first stat every built package's remote stamp
      (re-raising any error other than "no such file" before anything is
      yielded), then yield the packages whose stamp is missing or changed. */
  method EachOutdatedPackage(remote: Remote, local: LocalFs, fs: RemoteFs, pkgs: seq<Package>)
    returns (c: Classification)
    ensures c.outcome.Success? <==> forall i :: 0 <= i < |pkgs| ==> !StatBreaks(remote, local, fs, pkgs[i])
    ensures c.outcome.Success? ==>
      && c.outcome.value == Filter(pkgs, OutdatedTest(remote, local, fs))
      && c.statted == FilterIndices(pkgs, StampTest(local))
    ensures c.outcome.Failure? ==> exists i :: (
      && 0 <= i < |pkgs|
      && StatBreaks(remote, local, fs, pkgs[i])
      && (forall j :: 0 <= j < i ==> !StatBreaks(remote, local, fs, pkgs[j]))
      && c.outcome.error == StatFailed(StampPath(remote, pkgs[i]), OpenStat(fs, StampPath(remote, pkgs[i])).code)
      && c.statted == FilterIndices(pkgs[..i + 1], StampTest(local)))
  {
    var probes, statted, error := StatStamps(remote, local, fs, pkgs);
    if error.Some? {
      return Classification(statted, Failure(error.value));
    }
    var outdated: seq<Package> := [];
    var j := 0;
    while j < |probes|
      invariant 0 <= j <= |probes|
      invariant outdated == Filter(pkgs[..j], OutdatedTest(remote, local, fs))
    {
      assert pkgs[..j + 1][..j] == pkgs[..j];
      assert probes[j].Selected() <==> IsOutdated(remote, local, fs, pkgs[j]);
      if probes[j].Selected() {
        outdated := outdated + [probes[j].pkg];
      }
      j := j + 1;
    }
    assert pkgs[..j] == pkgs;
    c := Classification(statted, Success(outdated));
  }

  /** A package is yielded exactly when it is one of the inputs, it has a
      local install stamp, and its remote stamp is missing or changed. In
      particular a package never built locally is never yielded. */
  lemma OutdatedMembership(remote: Remote, local: LocalFs, fs: RemoteFs, pkgs: seq<Package>, pkg: Package)
    ensures pkg in Filter(pkgs, OutdatedTest(remote, local, fs)) <==>
      && pkg in pkgs
      && HasLocalStamp(local, pkg)
      && match OpenStat(fs, StampPath(remote, pkg))
         case Ok(a) => ChangedStat(local[pkg.installStamp], a)
         case Status(code) => code == FX_NO_SUCH_FILE
  {
    FilterMembership(pkgs, OutdatedTest(remote, local, fs), pkg);
  }

  /** The yielded packages are the inputs at increasing positions, each
      position at most once, and every outdated position is among them. */
  lemma OutdatedIsOrderedSubsequence(remote: Remote, local: LocalFs, fs: RemoteFs, pkgs: seq<Package>)
    ensures var out := Filter(pkgs, OutdatedTest(remote, local, fs));
      var idx := FilterIndices(pkgs, OutdatedTest(remote, local, fs));
      && |idx| == |out|
      && StrictlyIncreasing(idx)
      && (forall k :: 0 <= k < |idx| ==> idx[k] < |pkgs| && out[k] == pkgs[idx[k]])
      && (forall i :: 0 <= i < |pkgs| ==> (IsOutdated(remote, local, fs, pkgs[i]) <==> i in idx))
  {
    FilterIsSubsequence(pkgs, OutdatedTest(remote, local, fs));
  }

  /** Three built packages: one whose remote stamp is missing, one whose
      remote stamp matches, one whose remote stamp reports another size or none. Only the
      first and the third are outdated. */
  lemma ThreePackageScenario(remote: Remote, local: LocalFs, fs: RemoteFs, missing: Package, same: Package, resized: Package)
    requires HasLocalStamp(local, missing) && HasLocalStamp(local, same) && HasLocalStamp(local, resized)
    requires OpenStat(fs, StampPath(remote, missing)) == Status(FX_NO_SUCH_FILE)
    requires var l := local[same.installStamp];
      l.sec >= 0 && OpenStat(fs, StampPath(remote, same)) == Ok(Attrs(Some(l.size), Some(l.sec as nat), None))
    requires OpenStat(fs, StampPath(remote, resized)).Ok?
      && OpenStat(fs, StampPath(remote, resized)).attrs.size != Some(local[resized.installStamp].size)
    ensures Filter([missing, same, resized], OutdatedTest(remote, local, fs)) == [missing, resized]
  {
    var f := OutdatedTest(remote, local, fs);
    var s := [missing, same, resized];
    assert s[..2] == [missing, same] && s[..2][..1] == [missing] && s[..2][..1][..0] == [];
    assert f(missing) && !f(same) && f(resized);
    assert Filter(s[..2][..1], f) == [missing];
    assert Filter(s[..2], f) == [missing];
  }
}
