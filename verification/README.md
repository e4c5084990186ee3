# autoproj-sync, modelled in Dafny

A model of the core of `autoproj-sync`, the Autoproj plugin that mirrors a
built workspace onto remote machines reachable over SSH. Two Ruby classes
are modelled:

- `Autoproj::Sync::Remote` (`lib/autoproj/sync/remote.rb`). It decides which
  packages are outdated on a remote by comparing install-stamp attributes.
  It creates missing remote directories (`mkdir_p`). It builds the rsync
  argument vectors and the `exec!` command lines. It lists the workspace
  files copied after the packages. It also installs, updates or leaves alone
  the remote Autoproj bootstrap, driven by the remote `Gemfile.lock`.
- `Autoproj::Sync::Config` (`lib/autoproj/sync/config.rb`). This is the
  registry of sync targets kept in the workspace configuration under the
  `sync` key: enumeration, lookup, add, delete and in-place update.

The model is made of pure functions over immutable values:

- The SFTP session is a finite map from remote path to one of three
  entries. `Present(attributes, content)` can be stat-ed and read.
  `Unreadable(attributes, status code)` can be stat-ed, but the server
  refuses to open it for reading. `Refused(status code)` is refused for
  every request. A path that is not in the map answers `FX_NO_SUCH_FILE`
  (2). A plain `stat` succeeds on both described kinds. An open followed by
  an fstat (how install stamps are read) and a download succeed only on a
  readable entry. Size, mtime and sub-second
  mtime are each optional, as in an SFTP attribute record.
- An `upload!` reads the local file, then has the server open the target
  for writing. The open succeeds only inside a directory the remote has;
  otherwise the server refuses it with the status of that directory.
- The local files are a map from path to size, mtime (seconds and
  microseconds) and content.
- What a run sends to the remote is a list of writes: `Put(path, content)`
  for an upload and `Exec(command line)` for a command.
- Ruby exceptions are `Failure` values of a `Result`, or an `Option` error
  field. Each carries the constructor of the error the code raises.
- The registry is a Ruby Hash: a list of entries in insertion order.
  `AsMap` is the finite map it stands for. Every registry operation is
  proved equal to the corresponding map operation.
- `File.join` (two arguments) and `File.dirname` follow Ruby's POSIX
  implementation: trailing separators are dropped before an absolute second
  argument, runs of leading separators are kept, and the dirname of a
  top-level path is `/`.
- Shell word splitting is modelled for the command lines the code builds:
  blanks separate words and single quotes quote literally. This is enough
  to state that the shell reads the command line back as the intended words.

Files:

| file | module | models |
|---|---|---|
| wrappers.dfy | `Wrappers` | `Option`, `Result` |
| seqs.dfy | `Seqs` | order-preserving filter, `Array#join`, `String#<=>` and the sort built on it |
| ruby_path.dfy | `RubyPath` | `File.join`, `File.dirname`, the chain of ancestors `mkdir_p` walks |
| filesystem.dfy | `Filesystem`, `SyncErrors` | local and remote files, SFTP `stat`, applied writes; the raised errors |
| shell.dfy | `ShellWords` | how `/bin/sh` splits the generated command lines |
| remote.dfy | `SyncRemote` | `from_uri`, `remote_path`, `rsync_target`, `remote_exec`, `autoproj_annex_files` |
| staleness.dfy | `Staleness` | `changed_stat?`, `each_outdated_package` |
| provisioning.dfy | `Provisioning` | `mkdir_p`, `rsync_dir`, `rsync_file` |
| bootstrap.dfy | `Bootstrap` | `bootstrap_or_update_autoproj` and the transfers it makes |
| config.dfy | `SyncConfig` | `Autoproj::Sync::Config` |

Behaviour a reader may not expect, modelled as the code does it:

- After an update, the code does not look at the exit status of
  `bundler install`. The model's update branch never fails on it.
  `Bootstrap.OnlyInstallReadsExitStatus` states this.
- The install branch does not create the remote root before uploading into
  it. On a remote without that directory the first upload is refused and
  the installer never runs (`Bootstrap.InstallNeedsRemoteRoot`).
- `mkdir_p` creates only the run of missing directories directly above the
  target, up to the first ancestor whose `stat` succeeds. A missing
  directory higher up is not created.
- `remote_exec` changes to the URI path and single-quotes each word. It does
  not add a sentinel line.

## Model

| member | source | states |
|---|---|---|
| `Staleness.ChangedStat` | lib/autoproj/sync/remote.rb:72-84 | A size or mtime the server left out means changed. A different size means changed. Same size and a different whole-second mtime means changed. Same size and seconds without sub-second information means unchanged. With it, changed exactly when the remote nanoseconds divided by 1000 differ from the local microseconds. |
| `Staleness.FaithfulCopyUnchanged` | lib/autoproj/sync/remote.rb:72-84 | A remote stamp carrying the local size and mtime, with any sub-microsecond digits and with or without nanoseconds, is never reported changed. |
| `Staleness.ProbeStamp` | lib/autoproj/sync/remote.rb:46-63 | The step for one package fails exactly when it has a local stamp and opening and stat-ing its remote stamp fails with a code other than no-such-file; the error names that remote path and code. Otherwise the step gives `nil` for an unbuilt package, the bare package for a missing remote stamp, or the package with both stats. |
| `Staleness.StatStamps` | lib/autoproj/sync/remote.rb:46-64 | The first pass succeeds exactly when no built package's remote stamp stat breaks. Then it has one record per package and statted exactly the packages that have a local stamp, in order. Otherwise it stopped at the first package whose stat breaks, re-raising that error after statting only the built packages up to it. |
| `Staleness.EachOutdatedPackage` | lib/autoproj/sync/remote.rb:43-70 | Success exactly when no stamp stat breaks. On success, the yielded packages are the inputs filtered by "has a local stamp, and the remote stamp is missing or changed", in input order. On failure nothing is yielded; the error is the first breaking stat, and only built packages up to it were statted. |
| `Staleness.OutdatedMembership` | lib/autoproj/sync/remote.rb:46-69 | A package is yielded exactly when it is an input, it has a local install stamp, and its remote stamp is missing or its attributes changed. A package never built is never yielded. |
| `Staleness.OutdatedIsOrderedSubsequence` | lib/autoproj/sync/remote.rb:66-69 | The yielded packages are the inputs at strictly increasing positions, and a position is among them exactly when its package is outdated. |
| `Staleness.ThreePackageScenario` | lib/autoproj/sync/remote.rb:46-69 | Of three built packages (remote stamp missing, identical, with another size or none), exactly the first and the third are yielded, in that order. |
| `Provisioning.WalkUp` | lib/autoproj/sync/remote.rb:87-91 | The paths stat-ed by the loop are the target and its ancestors, deepest first, stopping before `/`. |
| `Provisioning.MissingPrefix` | lib/autoproj/sync/remote.rb:92-95 | `take_while`: the first n probes all fail, and the next one, if any, succeeds. |
| `Provisioning.ReversePrefix` | lib/autoproj/sync/remote.rb:96-98 | The taken probes in reverse order. |
| `Provisioning.MkdirP` | lib/autoproj/sync/remote.rb:86-100 | The stat probes are the ancestors of the target, deepest first. The mkdirs are the maximal run of failing probes from the target upward, in reverse (outermost first). |
| `Provisioning.MissingRunPlanCreatesOnlyMissing` | lib/autoproj/sync/remote.rb:92-98 | No mkdir when the target exists. Never a mkdir of `/` or of a path whose stat succeeds. The target itself is created unless it is `/` or exists. |
| `Provisioning.MissingRunPlanParentsFirst` | lib/autoproj/sync/remote.rb:96-98 | Each mkdir's parent is the previous mkdir. The first one's parent is `/` or a directory whose stat succeeded, so every mkdir has an existing parent. |
| `Provisioning.RsyncDir` | lib/autoproj/sync/remote.rb:124-129 | Provisions the remote copy of the directory, which is absolute. The argument vector is `rsync -a --delete-after <dir>/ <target>:<remote dir>/`. |
| `Provisioning.RsyncFileAsWritten` | lib/autoproj/sync/remote.rb:131-136 | As written: provisions the parent of the local path. The argument vector is `rsync -a <file> <target>:<remote file>`. |
| `Provisioning.RsyncFileAsWrittenMissesDestination` | lib/autoproj/sync/remote.rb:131-136 | With URI path `/srv`, an empty remote and stamp `/ws/stamp`, the code creates only `/ws`. The destination's parent `/srv/ws` is neither created nor present. |
| `Provisioning.RsyncFile` | lib/autoproj/sync/remote.rb:131-136 | Corrected: provisions the parent of the destination. Afterwards that parent is `/`, was present, or is among the mkdirs. The argument vector is unchanged. |
| `SyncRemote.RemotePath` | lib/autoproj/sync/remote.rb:151-153 | `File.join` of the URI path and a local path. Its shape is stated by `SyncRemote.RemotePathUnderPrefix`. |
| `SyncRemote.RsyncTarget` | lib/autoproj/sync/remote.rb:114-122 | `user:password@host`, `user@host` or `host`. Its read-back is stated by `SyncRemote.RsyncTargetRoundTrip`. |
| `SyncRemote.RemoteExecCommand` | lib/autoproj/sync/remote.rb:178-180 | `cd '<URI path>' && '<word>' '<word>' ...`. Its shell reading is stated by `SyncRemote.RemoteExecCommandWords`. |
| `SyncRemote.FromUri` | lib/autoproj/sync/remote.rb:9-14 | Succeeds exactly for the `ssh` scheme, keeping URI, name and enabled flag. Otherwise raises unsupported protocol with the scheme. |
| `SyncRemote.RemotePathUnderPrefix` | lib/autoproj/sync/remote.rb:151-153 | A remote path is the URI path (trailing separators dropped), a separator, and then ends with the local path verbatim. It is absolute when the URI path is empty or absolute. |
| `SyncRemote.RsyncTargetRoundTrip` | lib/autoproj/sync/remote.rb:114-122 | Reading the `[user[:password]@]host` string back as URI userinfo (first `@`, then first `:`) gives the user, the password only when there is a user, and the host. |
| `SyncRemote.RemoteExecCommandWords` | lib/autoproj/sync/remote.rb:178-180 | When neither the URI path nor any word contains a single quote, the shell reads the command line as `cd`, the URI path, `&&`, and then exactly the command words. An empty command becomes one empty word. |
| `SyncRemote.AnnexFiles` | lib/autoproj/sync/remote.rb:102-112 | Four pairwise distinct paths. |
| `SyncRemote.AnnexFilesAutoprojParent` | lib/autoproj/sync/remote.rb:103-106 | The first two files sit directly in `<root>/.autoproj`. |
| `SyncRemote.AnnexFilesGemsParent` | lib/autoproj/sync/remote.rb:107-110 | The last two files sit directly in `<prefix>/gems`. |
| `RubyPath.JoinUnderPrefix` | lib/autoproj/sync/remote.rb:52 | `File.join(a, b)` is `a` without trailing separators, then a separator, and ends with `b`. |
| `RubyPath.DirnameOfJoin` | lib/autoproj/sync/remote.rb:90 | `File.dirname` undoes joining one component onto a canonical absolute directory. |
| `RubyPath.AncestorsShape` | lib/autoproj/sync/remote.rb:88-91 | The walk from an absolute path is empty exactly for `/`. It starts at the path, and every element is absolute and not `/`. |
| `RubyPath.AncestorsLinked` | lib/autoproj/sync/remote.rb:88-91 | Each element of the walk is the dirname of the previous one, and the last element's dirname is `/`. |
| `Filesystem.Stat` | lib/autoproj/sync/remote.rb:155-164 | A stat succeeds exactly for an entry the server describes, readable or not. A path the remote does not have answers `FX_NO_SUCH_FILE`. |
| `Filesystem.OpenStat` | lib/autoproj/sync/remote.rb:54-56 | Opening and then stat-ing succeeds exactly for a readable entry, with the same attributes as a stat. An entry that can be stat-ed but not read fails with the server's refusal. A missing path answers `FX_NO_SUCH_FILE`. |
| `Filesystem.Download` | lib/autoproj/sync/remote.rb:166-168 | Downloading a path whose stat succeeded gives its content exactly when the entry is readable. Otherwise it fails with the status of the refused open. |
| `Bootstrap.Uploads` | lib/autoproj/sync/remote.rb:202-205 | Uploads are made in order, each carrying its source's content. An upload is possible when its local source exists and the remote has the directory that should hold the target. The uploads stop at the first impossible one: a missing local source raises first, otherwise the server's refusal for the target, with the directory's status. Success exactly when every upload is possible. |
| `Bootstrap.InstallCommand` | lib/autoproj/sync/remote.rb:222-225 | The install branch's `exec!` line. Its shell reading is stated by `Bootstrap.InstallCommandWords`. |
| `Bootstrap.InstallUploads` | lib/autoproj/sync/remote.rb:215-221 | The installer script, then the config as `bootstrap-config.yml`, then the Gemfile as `bootstrap-Gemfile`. Where they land is stated by `Bootstrap.InstallFilesInRemoteRoot` and `Bootstrap.UploadsUnderUriPath`. |
| `Bootstrap.UpdateUploads` | lib/autoproj/sync/remote.rb:202-206 | The lock file, the Gemfile and the configuration, each to its remote copy. `Bootstrap.UpdateTargetsDistinct` and `Bootstrap.UploadsUnderUriPath` state where they land. |
| `Bootstrap.BundlerInstall` | lib/autoproj/sync/remote.rb:207-208 | The update branch's command line: `remote_exec` of `<root>/.autoproj/bin/bundler install`. Its shell reading is stated by `SyncRemote.RemoteExecCommandWords`. |
| `Bootstrap.InstallRun` | lib/autoproj/sync/remote.rb:210-228 | The install branch uploads the installer, the bootstrap config and the bootstrap Gemfile in order, then runs the install command. It stops at the first impossible upload with its error. When all three are possible, it raises exactly when the installer exits non-zero. |
| `Bootstrap.UpdateRun` | lib/autoproj/sync/remote.rb:200-208 | The update branch uploads the lock file, the Gemfile and the configuration in order, then runs `bundler install`. It stops at the first impossible upload with its error. It succeeds exactly when all three uploads are possible, and it never looks at the bundler exit status. |
| `Bootstrap.BootstrapOrUpdate` | lib/autoproj/sync/remote.rb:190-229 | Install exactly when the remote lock file is missing. Any other stat error is raised with nothing written. If the lock file can be stat-ed but its download is refused, that refusal is raised with nothing written, before the local lock file is read. Up to date exactly when the remote lock equals the local one, with nothing written. Update exactly when the remote lock exists and differs from the local one. Update writes the lock, the Gemfile, the config and then `bundler install`, stopping at the first impossible upload. Install writes the three bootstrap files and then the install command, stopping the same way. When every install upload is possible, install fails exactly when the installer exits non-zero. |
| `Bootstrap.InstallNeedsRemoteRoot` | lib/autoproj/sync/remote.rb:216-221 | On a remote that lacks the remote copy of the workspace root, the install branch writes nothing and raises the server's refusal of the installer upload. |
| `Bootstrap.UploadsUnderUriPath` | lib/autoproj/sync/remote.rb:200-221 | Every file a bootstrap run uploads lands under the remote's URI path. |
| `Bootstrap.OnlyInstallReadsExitStatus` | lib/autoproj/sync/remote.rb:207-208 | Outside the install branch, the outcome does not depend on the installer's exit status. |
| `Bootstrap.UpdateTargetsDistinct` | lib/autoproj/sync/remote.rb:200-206 | The remote lock file is a different path from the remote Gemfile and configuration. |
| `Bootstrap.UpdateThenUpToDate` | lib/autoproj/sync/remote.rb:192-198 | After a successful update's writes are applied, the next call finds the install up to date and writes nothing, provided `bundler install` leaves the uploaded lock file as it is. |
| `Bootstrap.InstallFilesInRemoteRoot` | lib/autoproj/sync/remote.rb:216-225 | The installer, the bootstrap config and the bootstrap Gemfile are uploaded into the directory the install command changes to, under the names the command passes. |
| `Bootstrap.InstallCommandWords` | lib/autoproj/sync/remote.rb:222-225 | When the interpreter path holds only characters the shell takes literally, the shell reads the install command as `cd <remote root> && <ruby> autoproj_install --gemfile bootstrap-Gemfile --seed-config bootstrap-config.yml`. |
| `Seqs.SortStrings` | lib/autoproj/sync/config.rb:29 | `sort` gives a permutation of its input that is ordered by `String#<=>`. |
| `Seqs.FilterIsSubsequence` | lib/autoproj/sync/config.rb:21-23 | Filtering keeps exactly the elements satisfying the test, at strictly increasing positions. |
| `SyncConfig.Lookup` | lib/autoproj/sync/config.rb:35-36 | `targets[name]` on the registry list. Stated by `SyncConfig.LookupIsMapLookup`. |
| `SyncConfig.Store` | lib/autoproj/sync/config.rb:56 | `targets[name] = config` on the registry list. Stated by `SyncConfig.StoreIsMapUpdate` and `SyncConfig.StoreKeepsOrder`. |
| `SyncConfig.Remove` | lib/autoproj/sync/config.rb:63 | `targets.delete(name)` on the registry list. Stated by `SyncConfig.RemoveIsMapRemoval`. |
| `SyncConfig.RemoteToConfig` | lib/autoproj/sync/config.rb:46-51 | The remote's name with its URI and enabled flag. Stated by `SyncConfig.RemoteConfigRoundTrip`. |
| `SyncConfig.LookupIsMapLookup` | lib/autoproj/sync/config.rb:35-36 | `targets[name]` is the map lookup of the registry. |
| `SyncConfig.StoreIsMapUpdate` | lib/autoproj/sync/config.rb:56 | `targets[name] = config` is the map update. |
| `SyncConfig.RemoveIsMapRemoval` | lib/autoproj/sync/config.rb:63 | `targets.delete(name)` is the map removal. |
| `SyncConfig.StoreKeepsOrder` | lib/autoproj/sync/config.rb:56 | Storing keeps names unique, and it only touches the entry of that name: removing the name afterwards gives the same registry as removing it before. |
| `SyncConfig.RemoteFromConfig` | lib/autoproj/sync/config.rb:41-44 | A stored entry becomes a remote exactly when its URI is ssh. The remote carries the entry's name, URI and enabled flag. |
| `SyncConfig.RemoteConfigRoundTrip` | lib/autoproj/sync/config.rb:41-51 | Writing a remote as an entry and reading it back gives the remote. Reading an entry and writing it back gives the entry. |
| `SyncConfig.EachRemote` | lib/autoproj/sync/config.rb:8-16 | Entries are yielded as remotes in registry order. The first non-ssh entry raises, and everything before it was yielded. No error exactly when every URI is ssh. |
| `SyncConfig.EachEnabledRemote` | lib/autoproj/sync/config.rb:18-24 | The same error as `each_remote`. A remote is yielded exactly when `each_remote` yields it and it is enabled. |
| `SyncConfig.EnabledRemotesAreEnabledEntries` | lib/autoproj/sync/config.rb:18-24 | Without an error, the yielded remotes are exactly the enabled entries, at strictly increasing registry positions. |
| `SyncConfig.FindRemoteByName` | lib/autoproj/sync/config.rb:34-39 | `nil` for an unregistered name. Otherwise the stored entry as a remote, or unsupported protocol for a non-ssh URI. |
| `SyncConfig.RemoteByName` | lib/autoproj/sync/config.rb:26-32 | Succeeds exactly for a registered ssh entry. A registered entry whose URI is not ssh raises unsupported protocol with its scheme. For an unregistered name, the error from enumerating the remotes if there is one. Otherwise "no remote named", listing a sorted permutation of the registered names. |
| `SyncConfig.AddRemote` | lib/autoproj/sync/config.rb:53-59 | Saves once. The map gains or overwrites the remote's entry, and names stay unique. |
| `SyncConfig.AddThenFind` | lib/autoproj/sync/config.rb:53-59 | After adding, finding the remote's name gives the remote back (or the protocol error), and every other name is found as before. |
| `SyncConfig.DeleteRemote` | lib/autoproj/sync/config.rb:61-66 | Saves once, and the map loses the name. |
| `SyncConfig.DeleteAbsent` | lib/autoproj/sync/config.rb:61-66 | Deleting an unregistered name leaves the registry unchanged. |
| `SyncConfig.UpdateRemoteConfig` | lib/autoproj/sync/config.rb:68-81 | Raises "no target called" exactly for an unregistered name. An edit that changes nothing leaves the workspace unsaved and unchanged. A real change saves once and updates only that name in the map. |
| `SyncConfig.UpdateTouchesOnlyName` | lib/autoproj/sync/config.rb:68-81 | Every other name maps as before the update. |

## Left out

- Network I/O is not modelled: opening the SFTP session (`Remote#start`), the `stat`/`mkdir` request pipelining and the SSH channels. SFTP answers come from the remote map. Requests that the code fires concurrently and then awaits are modelled in their awaited order.
- `update_package` and its `system` rsync runs are left out: they start external processes. Only the argument vectors (`rsync_dir`, `rsync_file`) are modelled.
- `Remote#update` is left out: it is a thread pool around `update_package`, and its call passes the wrong number of arguments.
- The effect of an `Exec` command on the remote is not modelled. A run records the command line, and the installer's exit status is a parameter.
- The `mtime_nseconds / 1000` of the code raises when the attribute is `nil`. The model's optional nanosecond field has no such case (see `Staleness.ChangedStat` below).
- The `Bundler.definition` lookup of the install script and `ws.config.ruby_executable` are left out: both are library state. They are the `Installer` parameter.
- Logging (`info`, `Autobuild.progress_start`) is left out.
- `lib/autoproj/cli/main_sync.rb` and `lib/autoproj-sync.rb` (command line and plugin registration) are not part of this model.
- The `URI.parse`/`to_s` round trip is taken as the identity: a URI is stored parsed.
- A stored `enabled` flag is a boolean; a missing flag (`nil`) is not modelled.
- `update_remote_config` yields a shallow `dup` of the entry. The model hands the edit function a value, so an edit that mutates nested objects shared with the original is not represented.
- Enumerations are materialised: a caller that stops consuming `each_remote` early is not modelled.
- `Staleness.ChangedStat`: the sub-second branch of the code tests `respond_to?(:remote_nseconds)` and then reads `mtime_nseconds`. The model has an optional nanosecond field that stands for "the test passes and this is the value read"; which attribute objects pass the test is not modelled.
- `Provisioning.MkdirP` and `Provisioning.RsyncFileAsWritten` require an absolute path. For a relative path the loop in `mkdir_p` never ends, because the dirname of `.` is `.`.
- `Provisioning.RsyncDir` and `Provisioning.RsyncFile` require a URI path that is empty or absolute, which is what `URI.parse` gives for an ssh URI.
- The update branch's `bundler install` command (`Bootstrap.BundlerInstall`) reproduces the code: it names the local path `<root>/.autoproj/bin/bundler` rather than its remote copy. When the URI path is not empty this may not be the file that was installed; the model does not decide which was meant.
- `Bootstrap.InstallCommandWords` requires an interpreter path made only of letters, digits and `-_./+,:@%`. For any other character the model does not state what the shell reads: the word splitting it models knows only blanks and single quotes.
- `Bootstrap.InstallCommandWords` and `SyncRemote.RemoteExecCommandWords` assume no single quote inside the quoted paths and words. With one, the code's quoting breaks, and the model does not state what the shell then reads.
- `Bootstrap.UpdateThenUpToDate` holds only while `bundler install` leaves the uploaded `Gemfile.lock` unchanged. Bundler may rewrite it (for example to add the remote's platform); the next run then updates again. A command's effect on the remote is not modelled.
- `Bootstrap.Uploads` checks each upload against the remote as it was before the uploads, since an upload creates a file and never a directory. A target that exists but cannot be written, and a server that refuses an open for another reason, are not modelled. The refusal carries the status the server gives for the enclosing directory.
- A remote map may list a file without its directory, which a real server never does. The model then refuses an upload next to that file.

## Findings

| source | as written | input that shows it | evidently intended | confidence | as-written member | corrected member |
|---|---|---|---|---|---|---|
| lib/autoproj/sync/remote.rb:133 | `rsync_file` provisions `File.dirname(local_file)`, the parent of the LOCAL path, on the remote | URI path `/srv`, an empty remote, stamp `/ws/stamp`: `/ws` is created, and the destination's parent `/srv/ws` is neither created nor present | provision `File.dirname(remote_file)`, the parent of the destination, as `rsync_dir` does for its directory | not executed; medium: the stamp usually lies inside the prefix that `rsync_dir` creates just before, which hides the problem | `Provisioning.RsyncFileAsWrittenMissesDestination` | `Provisioning.RsyncFile` |
