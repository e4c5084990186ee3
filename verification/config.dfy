/** The registry of sync targets kept in the workspace configuration under
    the `sync` key (`Autoproj::Sync::Config`): an insertion-ordered map from
    a target name to its URI and enabled flag, with the operations that read
    remotes out of it and write them back. */
module SyncConfig {
  import opened Wrappers
  import opened Seqs
  import opened SyncErrors
  import opened SyncRemote

  /** What the registry stores for one target. The URI is kept parsed: the
      `to_s`/`URI.parse` round trip is taken to give back the same URI. */
  datatype TargetConfig = TargetConfig(uri: Uri, enabled: bool)

  datatype Target = Target(name: string, config: TargetConfig)

  /** A Ruby Hash: entries in insertion order. */
  type Registry = seq<Target>

  /** The persistent workspace state: the registry and how many times the
      configuration was saved. */
  datatype Workspace = Workspace(targets: Registry, saves: nat)

  predicate UniqueNames(reg: Registry) {
    forall i, j :: 0 <= i < j < |reg| ==> reg[i].name != reg[j].name
  }

  function Names(reg: Registry): seq<string> {
    seq(|reg|, i requires 0 <= i < |reg| => reg[i].name)
  }

  /** `targets[name]`. */
  function Lookup(reg: Registry, name: string): (r: Option<TargetConfig>)
    decreases |reg|
  {
    if |reg| == 0 then None
    else if reg[0].name == name then Some(reg[0].config)
    else Lookup(reg[1..], name)
  }

  /** `targets[name] = config`: overwrite in place, or append. */
  function Store(reg: Registry, name: string, config: TargetConfig): Registry
    decreases |reg|
  {
    if |reg| == 0 then [Target(name, config)]
    else if reg[0].name == name then [Target(name, config)] + reg[1..]
    else [reg[0]] + Store(reg[1..], name, config)
  }

  /** `targets.delete(name)`. */
  function Remove(reg: Registry, name: string): Registry
    decreases |reg|
  {
    if |reg| == 0 then []
    else if reg[0].name == name then Remove(reg[1..], name)
    else [reg[0]] + Remove(reg[1..], name)
  }

  /** The finite map a registry stands for; an earlier entry hides a later
      one of the same name, as `Lookup` does. */
  function AsMap(reg: Registry): map<string, TargetConfig>
    decreases |reg|
  {
    if |reg| == 0 then map[]
    else AsMap(reg[1..])[reg[0].name := reg[0].config]
  }

  /** `Lookup` agrees with the finite map. */
  lemma {:induction false} LookupIsMapLookup(reg: Registry, name: string)
    ensures Lookup(reg, name) == if name in AsMap(reg) then Some(AsMap(reg)[name]) else None
    decreases |reg|
  {
    if |reg| > 0 && reg[0].name != name {
      LookupIsMapLookup(reg[1..], name);
    }
  }

  /** `Store` is a map update. */
  lemma {:induction false} StoreIsMapUpdate(reg: Registry, name: string, config: TargetConfig)
    ensures AsMap(Store(reg, name, config)) == AsMap(reg)[name := config]
    decreases |reg|
  {
    if |reg| > 0 {
      var rest := reg[1..];
      if reg[0].name == name {
        assert Store(reg, name, config)[1..] == rest;
      } else {
        StoreIsMapUpdate(rest, name, config);
        assert Store(reg, name, config)[1..] == Store(rest, name, config);
      }
    }
  }

  /** `Remove` is a map removal. */
  lemma {:induction false} RemoveIsMapRemoval(reg: Registry, name: string)
    ensures AsMap(Remove(reg, name)) == AsMap(reg) - {name}
    decreases |reg|
  {
    if |reg| > 0 {
      RemoveIsMapRemoval(reg[1..], name);
      if reg[0].name != name {
        assert Remove(reg, name)[1..] == Remove(reg[1..], name);
      }
    }
  }

  /** The names of a registry are the keys of its map. */
  lemma {:induction false} NamesAreKeys(reg: Registry, name: string)
    ensures name in Names(reg) <==> name in AsMap(reg)
    decreases |reg|
  {
    if |reg| > 0 {
      NamesAreKeys(reg[1..], name);
      assert Names(reg) == [reg[0].name] + Names(reg[1..]);
    }
  }

  /** Storing keeps the names distinct and the other entries where they
      were. */
  lemma {:induction false} StoreKeepsOrder(reg: Registry, name: string, config: TargetConfig)
    requires UniqueNames(reg)
    ensures UniqueNames(Store(reg, name, config))
    ensures Remove(Store(reg, name, config), name) == Remove(reg, name)
    decreases |reg|
  {
    if |reg| > 0 {
      var rest := reg[1..];
      StoreKeepsOrder(rest, name, config);
      var s := Store(reg, name, config);
      if reg[0].name == name {
        assert s[1..] == rest;
        NameAbsentRemoveIdentity(rest, name);
        forall i | 0 <= i < |rest|
          ensures rest[i].name != name
        {
          assert reg[i + 1] == rest[i];
        }
      } else {
        assert s[1..] == Store(rest, name, config);
        StoreNames(rest, name, config);
      }
    }
  }

  /** The names after storing are the old names and `name`. */
  lemma {:induction false} StoreNames(reg: Registry, name: string, config: TargetConfig)
    ensures forall i :: 0 <= i < |Store(reg, name, config)| ==>
      Store(reg, name, config)[i].name == name || Store(reg, name, config)[i] in reg
    decreases |reg|
  {
    if |reg| > 0 && reg[0].name != name {
      StoreNames(reg[1..], name, config);
      var s := Store(reg, name, config);
      forall i | 0 <= i < |s|
        ensures s[i].name == name || s[i] in reg
      {
        if i > 0 {
          assert s[i] == Store(reg[1..], name, config)[i - 1];
        }
      }
    }
  }

  /** Removing a name that no entry carries changes nothing. */
  lemma {:induction false} NameAbsentRemoveIdentity(reg: Registry, name: string)
    requires forall i :: 0 <= i < |reg| ==> reg[i].name != name
    ensures Remove(reg, name) == reg
    decreases |reg|
  {
    if |reg| > 0 {
      NameAbsentRemoveIdentity(reg[1..], name);
    }
  }

  /** Removing keeps the names distinct. */
  lemma {:induction false} RemoveKeepsUnique(reg: Registry, name: string)
    requires UniqueNames(reg)
    ensures UniqueNames(Remove(reg, name))
    ensures forall t :: t in Remove(reg, name) ==> t in reg && t.name != name
    decreases |reg|
  {
    if |reg| > 0 {
      RemoveKeepsUnique(reg[1..], name);
      var r := Remove(reg, name);
      if reg[0].name != name {
        assert r == [reg[0]] + Remove(reg[1..], name);
        forall t | t in Remove(reg[1..], name)
          ensures t.name != reg[0].name
        {
          var k :| 0 <= k < |reg[1..]| && reg[1..][k] == t;
          assert reg[k + 1] == t;
        }
      }
    }
  }

  /** `remote_from_config`. */
  function RemoteFromConfig(name: string, config: TargetConfig): (r: Result<Remote, SyncError>)
    ensures r.Success? <==> config.uri.scheme == "ssh"
    ensures r.Success? ==> r.value.name == name && r.value.uri == config.uri && r.value.enabled == config.enabled
  {
    FromUri(config.uri, name, config.enabled)
  }

  /** `remote_to_config`. */
  function RemoteToConfig(remote: Remote): Target {
    Target(remote.name, TargetConfig(remote.uri, remote.enabled))
  }

  /** Writing a remote to the registry and reading it back gives the same
      remote, and reading then writing gives back the stored entry. */
  lemma RemoteConfigRoundTrip(remote: Remote, name: string, config: TargetConfig)
    ensures remote.uri.scheme == "ssh" ==>
      RemoteFromConfig(RemoteToConfig(remote).name, RemoteToConfig(remote).config) == Success(remote)
    ensures RemoteFromConfig(name, config).Success? ==>
      RemoteToConfig(RemoteFromConfig(name, config).value) == Target(name, config)
  {
  }

  /** The remotes an enumeration yielded, in order, and the error that
      stopped it, if any. */
  datatype Enumeration = Enumeration(yielded: seq<Remote>, error: Option<SyncError>)

  /** `each_remote`: materialise every entry in registry order; the first
      entry whose URI is not ssh raises. */
  function EachRemote(reg: Registry): (e: Enumeration)
    ensures |e.yielded| <= |reg|
    ensures forall i :: 0 <= i < |e.yielded| ==>
      reg[i].config.uri.scheme == "ssh" && e.yielded[i] == Remote(reg[i].config.uri, reg[i].name, reg[i].config.enabled)
    ensures e.error.None? <==> forall i :: 0 <= i < |reg| ==> reg[i].config.uri.scheme == "ssh"
    ensures e.error.None? ==> |e.yielded| == |reg|
    ensures e.error.Some? ==>
      |e.yielded| < |reg| && reg[|e.yielded|].config.uri.scheme != "ssh"
      && e.error.value == UnsupportedProtocol(reg[|e.yielded|].config.uri.scheme)
    decreases |reg|
  {
    if |reg| == 0 then Enumeration([], None)
    else match RemoteFromConfig(reg[0].name, reg[0].config)
      case Failure(err) => Enumeration([], Some(err))
      case Success(remote) =>
        var rest := EachRemote(reg[1..]);
        Enumeration([remote] + rest.yielded, rest.error)
  }

  function IsEnabled(): Remote -> bool {
    (remote: Remote) => remote.enabled
  }

  /** `each_enabled_remote`: the enabled ones among what `each_remote`
      yields, with the same error. */
  function EachEnabledRemote(reg: Registry): (e: Enumeration)
    ensures e.error == EachRemote(reg).error
    ensures forall remote :: remote in e.yielded <==> remote in EachRemote(reg).yielded && remote.enabled
  {
    var all := EachRemote(reg);
    FilterMembershipAll(all.yielded, IsEnabled());
    Enumeration(Filter(all.yielded, IsEnabled()), all.error)
  }

  /** Without an unsupported URI, the enabled enumeration yields exactly the
      enabled entries, as remotes, in registry order. */
  lemma EnabledRemotesAreEnabledEntries(reg: Registry)
    requires EachRemote(reg).error.None?
    ensures var e := EachEnabledRemote(reg);
      && (forall remote :: remote in e.yielded <==>
            exists i :: 0 <= i < |reg| && reg[i].config.enabled
              && remote == Remote(reg[i].config.uri, reg[i].name, true))
      && (var idx := FilterIndices(EachRemote(reg).yielded, IsEnabled());
          && |idx| == |e.yielded|
          && StrictlyIncreasing(idx)
          && forall k :: 0 <= k < |idx| ==> idx[k] < |reg| && e.yielded[k].name == reg[idx[k]].name)
  {
    var all := EachRemote(reg).yielded;
    var e := EachEnabledRemote(reg);
    assert |all| == |reg|;
    assert e.yielded == Filter(all, IsEnabled());
    FilterIsSubsequence(all, IsEnabled());
    forall remote
      ensures remote in e.yielded <==>
        exists i :: 0 <= i < |reg| && reg[i].config.enabled && remote == Remote(reg[i].config.uri, reg[i].name, true)
    {
      if remote in e.yielded {
        assert remote in all && remote.enabled;
        var i :| 0 <= i < |all| && all[i] == remote;
        assert reg[i].config.enabled && remote == Remote(reg[i].config.uri, reg[i].name, true);
      } else {
        forall i | 0 <= i < |reg| && reg[i].config.enabled
          ensures remote != Remote(reg[i].config.uri, reg[i].name, true)
        {
          assert all[i] in all;
        }
      }
    }
  }

  /** `find_remote_by_name`: `nil` for an unregistered name, otherwise the
      stored entry as a remote, which raises if its URI is not ssh. */
  function FindRemoteByName(reg: Registry, name: string): (r: Result<Option<Remote>, SyncError>)
    ensures Lookup(reg, name).None? ==> r == Success(None)
    ensures Lookup(reg, name).Some? ==>
      var config := Lookup(reg, name).value;
      if config.uri.scheme == "ssh" then r == Success(Some(Remote(config.uri, name, config.enabled)))
      else r == Failure(UnsupportedProtocol(config.uri.scheme))
  {
    match Lookup(reg, name)
    case None => Success(None)
    case Some(config) =>
      match RemoteFromConfig(name, config)
      case Success(remote) => Success(Some(remote))
      case Failure(err) => Failure(err)
  }

  /** The text of the error for an unregistered name. */
  function NoRemoteMessage(name: string, names: seq<string>): string {
    "no remote named '" + name + "', existing remotes: " + JoinWith(names, ", ")
  }

  /** `remote_by_name`: like `find_remote_by_name`, but an unregistered name
      raises with the sorted list of the registered names; listing them goes
      through `each_remote`, which may raise first. */
  function RemoteByName(reg: Registry, name: string): (r: Result<Remote, SyncError>)
    ensures r.Success? <==> Lookup(reg, name).Some? && Lookup(reg, name).value.uri.scheme == "ssh"
    ensures r.Success? ==> r.value.name == name && TargetConfig(r.value.uri, r.value.enabled) == Lookup(reg, name).value
    ensures Lookup(reg, name).Some? && Lookup(reg, name).value.uri.scheme != "ssh" ==>
      r == Failure(UnsupportedProtocol(Lookup(reg, name).value.uri.scheme))
    ensures Lookup(reg, name).None? && EachRemote(reg).error.Some? ==> r == Failure(EachRemote(reg).error.value)
    ensures Lookup(reg, name).None? && EachRemote(reg).error.None? ==>
      exists sorted :: SortedStrings(sorted) && multiset(sorted) == multiset(Names(reg))
        && r == Failure(NoRemoteNamed(NoRemoteMessage(name, sorted)))
  {
    match FindRemoteByName(reg, name)
    case Failure(err) => Failure(err)
    case Success(Some(remote)) => Success(remote)
    case Success(None) =>
      var all := EachRemote(reg);
      if all.error.Some? then Failure(all.error.value)
      else
        var names := seq(|all.yielded|, i requires 0 <= i < |all.yielded| => all.yielded[i].name);
        assert names == Names(reg);
        var sorted := SortStrings(names);
        Failure(NoRemoteNamed(NoRemoteMessage(name, sorted)))
  }

  /** `add_remote`: store the remote under its name and save. */
  function AddRemote(ws: Workspace, remote: Remote): (r: Workspace)
    ensures r.saves == ws.saves + 1
    ensures AsMap(r.targets) == AsMap(ws.targets)[remote.name := TargetConfig(remote.uri, remote.enabled)]
    ensures UniqueNames(ws.targets) ==> UniqueNames(r.targets)
  {
    var t := RemoteToConfig(remote);
    StoreIsMapUpdate(ws.targets, t.name, t.config);
    if UniqueNames(ws.targets) then StoreKeepsOrder(ws.targets, t.name, t.config); Workspace(Store(ws.targets, t.name, t.config), ws.saves + 1)
    else Workspace(Store(ws.targets, t.name, t.config), ws.saves + 1)
  }

  /** After `add_remote(r)`, looking `r`'s name up gives `r` back (or the
      unsupported-protocol error when its URI is not ssh), and every other
      name is looked up as before. */
  lemma AddThenFind(ws: Workspace, remote: Remote, other: string)
    requires other != remote.name
    ensures var reg := AddRemote(ws, remote).targets;
      FindRemoteByName(reg, remote.name) ==
        if remote.uri.scheme == "ssh" then Success(Some(remote)) else Failure(UnsupportedProtocol(remote.uri.scheme))
    ensures FindRemoteByName(AddRemote(ws, remote).targets, other) == FindRemoteByName(ws.targets, other)
  {
    var reg := AddRemote(ws, remote).targets;
    LookupIsMapLookup(reg, remote.name);
    LookupIsMapLookup(reg, other);
    LookupIsMapLookup(ws.targets, other);
  }

  /** `delete_remote`: remove the name and save, whether or not it was
      registered. */
  function DeleteRemote(ws: Workspace, name: string): (r: Workspace)
    ensures r.saves == ws.saves + 1
    ensures AsMap(r.targets) == AsMap(ws.targets) - {name}
  {
    RemoveIsMapRemoval(ws.targets, name);
    Workspace(Remove(ws.targets, name), ws.saves + 1)
  }

  /** Deleting an unregistered name leaves the registry as it was. */
  lemma DeleteAbsent(ws: Workspace, name: string)
    requires Lookup(ws.targets, name).None?
    ensures DeleteRemote(ws, name).targets == ws.targets
  {
    LookupNoneNameAbsent(ws.targets, name);
    NameAbsentRemoveIdentity(ws.targets, name);
  }

  /** A name `Lookup` does not find is carried by no entry. */
  lemma {:induction false} LookupNoneNameAbsent(reg: Registry, name: string)
    requires Lookup(reg, name).None?
    ensures forall i :: 0 <= i < |reg| ==> reg[i].name != name
    decreases |reg|
  {
    if |reg| > 0 {
      LookupNoneNameAbsent(reg[1..], name);
      forall i | 0 < i < |reg|
        ensures reg[i].name != name
      {
        assert reg[i] == reg[1..][i - 1];
      }
    }
  }

  /** `update_remote_config`: hand a copy of the named entry to `edit`, and
      store and save it only if it differs from the original. An unregistered
      name raises, with nothing changed. */
  function UpdateRemoteConfig(ws: Workspace, name: string, edit: TargetConfig -> TargetConfig): (r: Result<Workspace, SyncError>)
    ensures r.Failure? <==> name !in AsMap(ws.targets)
    ensures r.Failure? ==> r.error == NoTargetCalled(name)
    ensures r.Success? && edit(AsMap(ws.targets)[name]) == AsMap(ws.targets)[name] ==> r.value == ws
    ensures r.Success? && edit(AsMap(ws.targets)[name]) != AsMap(ws.targets)[name] ==>
      && r.value.saves == ws.saves + 1
      && AsMap(r.value.targets) == AsMap(ws.targets)[name := edit(AsMap(ws.targets)[name])]
  {
    LookupIsMapLookup(ws.targets, name);
    match Lookup(ws.targets, name)
    case None => Failure(NoTargetCalled(name))
    case Some(config) =>
      var updated := edit(config);
      if updated != config then
        StoreIsMapUpdate(ws.targets, name, updated);
        Success(Workspace(Store(ws.targets, name, updated), ws.saves + 1))
      else Success(ws)
  }

  /** An update changes at most the named entry: every other name maps as
      before. */
  lemma UpdateTouchesOnlyName(ws: Workspace, name: string, edit: TargetConfig -> TargetConfig, other: string)
    requires other != name
    requires UpdateRemoteConfig(ws, name, edit).Success?
    ensures var m := AsMap(UpdateRemoteConfig(ws, name, edit).value.targets);
      (other in m <==> other in AsMap(ws.targets))
      && (other in m ==> m[other] == AsMap(ws.targets)[other])
  {
  }
}
