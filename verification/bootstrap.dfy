/** `Remote#bootstrap_or_update_autoproj`: the three-way choice between
    installing Autoproj on the remote, doing nothing, and updating the
    remote install, driven by the remote copy of the workspace's
    `Gemfile.lock`. The run is a value: the decision taken, the uploads and
    commands sent to the remote in order, and the error raised, if any. */
module Bootstrap {
  import opened Wrappers
  import opened Seqs
  import opened RubyPath
  import opened Filesystem
  import opened SyncErrors
  import opened SyncRemote

  /** The workspace's bundler lock file, Gemfile and configuration. */
  function LockPath(rootDir: string): string {
    Join(rootDir, ".autoproj/Gemfile.lock")
  }

  function GemfilePath(rootDir: string): string {
    Join(rootDir, ".autoproj/Gemfile")
  }

  function ConfigPath(rootDir: string): string {
    Join(rootDir, ".autoproj/config.yml")
  }

  /** The local installer: the `autoproj_install` script of the Autoproj
      gem bundled with the workspace, and the Ruby interpreter configured for
      the workspace. Both come from library state outside this model. */
  datatype Installer = Installer(script: string, rubyExecutable: string)

  datatype Decision = Install | UpToDate | Update

  /** The outcome of one call. `decision` is `None` when an error was raised
      before the choice was made. */
  datatype BootstrapRun = BootstrapRun(decision: Option<Decision>, writes: seq<RemoteWrite>, failure: Option<SyncError>)

  /** One `upload!` of a local file to a remote path. */
  datatype Upload = Upload(source: string, target: string)

  /** Whether `upload!` can make the upload `u`. It reads the local file
      first, then asks the server to open the target for writing, and the
      server can only create a file inside a directory it has. */
  predicate Uploadable(local: LocalFs, fs: RemoteFs, u: Upload) {
    u.source in local && Stat(fs, Dirname(u.target)).Ok?
  }

  predicate AllUploadable(local: LocalFs, fs: RemoteFs, ups: seq<Upload>) {
    forall i :: 0 <= i < |ups| ==> Uploadable(local, fs, ups[i])
  }

  /** What `upload!` raises for an upload it cannot make: the local read
      fails first; otherwise the server refuses the open with the status it
      gives for the enclosing directory (`FX_NO_SUCH_FILE` when that
      directory is missing). */
  function UploadError(local: LocalFs, fs: RemoteFs, u: Upload): SyncError
    requires !Uploadable(local, fs, u)
  {
    if u.source !in local then LocalFileMissing(u.source)
    else UploadRefused(u.target, Stat(fs, Dirname(u.target)).code)
  }

  /** The write a possible upload sends: the local file's content. */
  function PutOf(local: LocalFs, u: Upload): RemoteWrite
    requires u.source in local
  {
    Put(u.target, local[u.source].content)
  }

  /** `writes` are the uploads of a prefix of `ups`, in order, each of them
      possible. */
  predicate UploadedPrefix(local: LocalFs, fs: RemoteFs, ups: seq<Upload>, writes: seq<RemoteWrite>) {
    |writes| <= |ups| &&
    forall i :: 0 <= i < |writes| ==> Uploadable(local, fs, ups[i]) && writes[i] == PutOf(local, ups[i])
  }

  /** What a branch that uploads `ups` and then sends `last` leaves behind:
      all the uploads followed by `last` when every upload is possible;
      otherwise the uploads before the first impossible one, and its
      error. */
  predicate SendsInOrder(local: LocalFs, fs: RemoteFs, ups: seq<Upload>, last: RemoteWrite,
                         writes: seq<RemoteWrite>, failure: Option<SyncError>)
  {
    if AllUploadable(local, fs, ups) then
      && |writes| == |ups| + 1 && writes[|ups|] == last
      && forall i :: 0 <= i < |ups| ==> writes[i] == PutOf(local, ups[i])
    else
      && UploadedPrefix(local, fs, ups, writes) && |writes| < |ups|
      && !Uploadable(local, fs, ups[|writes|])
      && failure == Some(UploadError(local, fs, ups[|writes|]))
  }

  /** Uploads in order, stopping at the first one that cannot be made. Each
      is checked against the remote as it was before the uploads: an upload
      creates a file, never a directory, so it cannot make a later one
      possible. */
  function Uploads(local: LocalFs, fs: RemoteFs, uploads: seq<Upload>): (r: (seq<RemoteWrite>, Option<SyncError>))
    ensures UploadedPrefix(local, fs, uploads, r.0)
    ensures r.1.None? <==> AllUploadable(local, fs, uploads)
    ensures r.1.None? ==> |r.0| == |uploads|
    ensures r.1.Some? ==>
      |r.0| < |uploads| && !Uploadable(local, fs, uploads[|r.0|])
      && r.1.value == UploadError(local, fs, uploads[|r.0|])
    decreases |uploads|
  {
    if |uploads| == 0 then ([], None)
    else if !Uploadable(local, fs, uploads[0]) then ([], Some(UploadError(local, fs, uploads[0])))
    else
      var rest := Uploads(local, fs, uploads[1..]);
      ([PutOf(local, uploads[0])] + rest.0, rest.1)
  }

  /** The arguments given to the installer script after the interpreter. */
  const InstallArguments: seq<string> :=
    ["autoproj_install", "--gemfile", "bootstrap-Gemfile", "--seed-config", "bootstrap-config.yml"]

  /** The `exec!` command of the install branch: change to the remote copy
      of the workspace root and run the installer script with the uploaded
      Gemfile and seed configuration, the arguments separated by single
      blanks. */
  function InstallCommand(remote: Remote, rootDir: string, installer: Installer): string {
    CdAndRun(RemotePath(remote, rootDir), [installer.rubyExecutable] + InstallArguments)
  }

  /** A shell command line that changes to `dir` (single-quoted) and then
      runs `words` separated by single blanks, unquoted. */
  function CdAndRun(dir: string, words: seq<string>): string {
    "cd '" + dir + "' && " + JoinWith(words, " ")
  }

  /** The uploads of the install branch: the installer script, then the
      configuration and the Gemfile under their bootstrap names, all into the
      remote copy of the workspace root. */
  function InstallUploads(remote: Remote, rootDir: string, installer: Installer): seq<Upload> {
    [Upload(installer.script, RemotePath(remote, Join(rootDir, "autoproj_install"))),
     Upload(ConfigPath(rootDir), RemotePath(remote, Join(rootDir, "bootstrap-config.yml"))),
     Upload(GemfilePath(rootDir), RemotePath(remote, Join(rootDir, "bootstrap-Gemfile")))]
  }

  /** The uploads of the update branch: the lock file, the Gemfile and the
      configuration, each to its own path under the remote's URI path. The
      lock file is sent from the bytes read for the comparison
      (`remote_file_put`), which are the local file's content. */
  function UpdateUploads(remote: Remote, rootDir: string): seq<Upload> {
    [Upload(LockPath(rootDir), RemotePath(remote, LockPath(rootDir))),
     Upload(GemfilePath(rootDir), RemotePath(remote, GemfilePath(rootDir))),
     Upload(ConfigPath(rootDir), RemotePath(remote, ConfigPath(rootDir)))]
  }

  /** The `remote_exec` command of the update branch. */
  function BundlerInstall(remote: Remote, rootDir: string): RemoteWrite {
    Exec(RemoteExecCommand(remote, [Join(rootDir, ".autoproj/bin/bundler"), "install"]))
  }

  /** The install branch: the three uploads, then the installer command,
      whose exit status (`installerExit`) decides whether the branch
      raises. */
  function InstallRun(remote: Remote, rootDir: string, local: LocalFs, fs: RemoteFs,
                      installer: Installer, installerExit: int): (r: BootstrapRun)
    ensures r.decision == Some(Install)
    ensures SendsInOrder(local, fs, InstallUploads(remote, rootDir, installer),
                         Exec(InstallCommand(remote, rootDir, installer)), r.writes, r.failure)
    ensures AllUploadable(local, fs, InstallUploads(remote, rootDir, installer)) ==>
      r.failure == (if installerExit != 0 then Some(InstallFailed(installerExit)) else None)
  {
    var ups := InstallUploads(remote, rootDir, installer);
    var up := Uploads(local, fs, ups);
    if up.1.Some? then BootstrapRun(Some(Install), up.0, up.1)
    else
      BootstrapRun(Some(Install), up.0 + [Exec(InstallCommand(remote, rootDir, installer))],
                   if installerExit != 0 then Some(InstallFailed(installerExit)) else None)
  }

  /** The update branch: the three uploads, then `bundler install`, whose
      exit status is not looked at. */
  function UpdateRun(remote: Remote, rootDir: string, local: LocalFs, fs: RemoteFs): (r: BootstrapRun)
    ensures r.decision == Some(Update)
    ensures SendsInOrder(local, fs, UpdateUploads(remote, rootDir), BundlerInstall(remote, rootDir), r.writes, r.failure)
    ensures r.failure.None? <==> AllUploadable(local, fs, UpdateUploads(remote, rootDir))
    ensures r.failure.None? ==>
      && LockPath(rootDir) in local && GemfilePath(rootDir) in local && ConfigPath(rootDir) in local
      && r.writes == [Put(RemotePath(remote, LockPath(rootDir)), local[LockPath(rootDir)].content),
                      Put(RemotePath(remote, GemfilePath(rootDir)), local[GemfilePath(rootDir)].content),
                      Put(RemotePath(remote, ConfigPath(rootDir)), local[ConfigPath(rootDir)].content),
                      BundlerInstall(remote, rootDir)]
  {
    var ups := UpdateUploads(remote, rootDir);
    var up := Uploads(local, fs, ups);
    if up.1.Some? then BootstrapRun(Some(Update), up.0, up.1)
    else
      var writes := up.0 + [BundlerInstall(remote, rootDir)];
      SentAllThree(local, fs, ups, BundlerInstall(remote, rootDir), writes, None);
      BootstrapRun(Some(Update), writes, None)
  }

  /** When all three uploads of a branch are possible, it sends exactly
      them, in order, and then its last write. */
  lemma SentAllThree(local: LocalFs, fs: RemoteFs, ups: seq<Upload>, last: RemoteWrite,
                     writes: seq<RemoteWrite>, failure: Option<SyncError>)
    requires |ups| == 3 && AllUploadable(local, fs, ups)
    requires SendsInOrder(local, fs, ups, last, writes, failure)
    ensures ups[0].source in local && ups[1].source in local && ups[2].source in local
    ensures writes == [PutOf(local, ups[0]), PutOf(local, ups[1]), PutOf(local, ups[2]), last]
  {
    assert Uploadable(local, fs, ups[0]) && Uploadable(local, fs, ups[1]) && Uploadable(local, fs, ups[2]);
    assert |writes| == 4 && writes[3] == last;
    assert writes[0] == PutOf(local, ups[0]) && writes[1] == PutOf(local, ups[1]) && writes[2] == PutOf(local, ups[2]);
  }

  /** `bootstrap_or_update_autoproj`. The remote lock file is downloaded
      before the local one is read, so a refused download is raised first. */
  function BootstrapOrUpdate(remote: Remote, rootDir: string, local: LocalFs, fs: RemoteFs,
                             installer: Installer, installerExit: int): (r: BootstrapRun)
    ensures var lockRemote := RemotePath(remote, LockPath(rootDir));
      r.decision == Some(Install) <==> Stat(fs, lockRemote) == Status(FX_NO_SUCH_FILE)
    ensures var lockRemote := RemotePath(remote, LockPath(rootDir));
      Stat(fs, lockRemote).Status? && Stat(fs, lockRemote).code != FX_NO_SUCH_FILE ==>
      r == BootstrapRun(None, [], Some(StatFailed(lockRemote, Stat(fs, lockRemote).code)))
    ensures var lockRemote := RemotePath(remote, LockPath(rootDir));
      Stat(fs, lockRemote).Ok? && Download(fs, lockRemote).Failure? ==>
      r == BootstrapRun(None, [], Some(DownloadRefused(lockRemote, Download(fs, lockRemote).error)))
    ensures var lockRemote := RemotePath(remote, LockPath(rootDir));
      Stat(fs, lockRemote).Ok? && Download(fs, lockRemote).Success? && LockPath(rootDir) !in local ==>
      r == BootstrapRun(None, [], Some(LocalFileMissing(LockPath(rootDir))))
    ensures var lockRemote := RemotePath(remote, LockPath(rootDir));
      r.decision == Some(UpToDate) <==>
        Stat(fs, lockRemote).Ok? && Download(fs, lockRemote).Success? && LockPath(rootDir) in local
        && Download(fs, lockRemote).value == local[LockPath(rootDir)].content
    ensures var lockRemote := RemotePath(remote, LockPath(rootDir));
      r.decision == Some(Update) <==>
        Stat(fs, lockRemote).Ok? && Download(fs, lockRemote).Success? && LockPath(rootDir) in local
        && Download(fs, lockRemote).value != local[LockPath(rootDir)].content
    ensures r.decision == Some(UpToDate) ==> r.writes == [] && r.failure.None?
    ensures r.decision == Some(Install) ==>
      && SendsInOrder(local, fs, InstallUploads(remote, rootDir, installer),
                      Exec(InstallCommand(remote, rootDir, installer)), r.writes, r.failure)
      && (AllUploadable(local, fs, InstallUploads(remote, rootDir, installer)) ==>
            r.failure == (if installerExit != 0 then Some(InstallFailed(installerExit)) else None))
    ensures r.decision == Some(Update) ==>
      && SendsInOrder(local, fs, UpdateUploads(remote, rootDir), BundlerInstall(remote, rootDir), r.writes, r.failure)
      && (r.failure.None? <==> AllUploadable(local, fs, UpdateUploads(remote, rootDir)))
    ensures r.decision == Some(Update) && r.failure.None? ==>
      && GemfilePath(rootDir) in local && ConfigPath(rootDir) in local
      && r.writes == [Put(RemotePath(remote, LockPath(rootDir)), local[LockPath(rootDir)].content),
                      Put(RemotePath(remote, GemfilePath(rootDir)), local[GemfilePath(rootDir)].content),
                      Put(RemotePath(remote, ConfigPath(rootDir)), local[ConfigPath(rootDir)].content),
                      BundlerInstall(remote, rootDir)]
    ensures r.decision.None? ==> r.writes == [] && r.failure.Some?
  {
    var lockRemote := RemotePath(remote, LockPath(rootDir));
    match Stat(fs, lockRemote)
    case Status(code) =>
      if code != FX_NO_SUCH_FILE then BootstrapRun(None, [], Some(StatFailed(lockRemote, code)))
      else InstallRun(remote, rootDir, local, fs, installer, installerExit)
    case Ok(_) =>
      match Download(fs, lockRemote)
      case Failure(code) => BootstrapRun(None, [], Some(DownloadRefused(lockRemote, code)))
      case Success(remoteLock) =>
        if LockPath(rootDir) !in local then BootstrapRun(None, [], Some(LocalFileMissing(LockPath(rootDir))))
        else if remoteLock == local[LockPath(rootDir)].content then BootstrapRun(Some(UpToDate), [], None)
        else UpdateRun(remote, rootDir, local, fs)
  }

  /** The remote path `p` is inside the URI path of `remote`. */
  predicate UnderUriPath(remote: Remote, p: string) {
    var pre := StripTrailingSeps(remote.uri.path);
    |pre| < |p| && p[..|pre|] == pre && p[|pre|] == '/'
  }

  /** Every upload of a run lands inside the URI path of the remote. */
  lemma UploadsUnderUriPath(remote: Remote, rootDir: string, local: LocalFs, fs: RemoteFs,
                            installer: Installer, installerExit: int)
    ensures var r := BootstrapOrUpdate(remote, rootDir, local, fs, installer, installerExit);
      forall i :: 0 <= i < |r.writes| && r.writes[i].Put? ==> UnderUriPath(remote, r.writes[i].path)
  {
    var r := BootstrapOrUpdate(remote, rootDir, local, fs, installer, installerExit);
    if r.decision == Some(Install) {
      InstallTargetsUnderUriPath(remote, rootDir, installer);
      SentUnderUriPath(remote, local, fs, InstallUploads(remote, rootDir, installer),
                       Exec(InstallCommand(remote, rootDir, installer)), r.writes, r.failure);
    } else if r.decision == Some(Update) {
      UpdateTargetsUnderUriPath(remote, rootDir);
      SentUnderUriPath(remote, local, fs, UpdateUploads(remote, rootDir),
                       BundlerInstall(remote, rootDir), r.writes, r.failure);
    }
  }

  lemma InstallTargetsUnderUriPath(remote: Remote, rootDir: string, installer: Installer)
    ensures var ups := InstallUploads(remote, rootDir, installer);
      forall i :: 0 <= i < |ups| ==> UnderUriPath(remote, ups[i].target)
  {
    RemotePathUnderPrefix(remote, Join(rootDir, "autoproj_install"));
    RemotePathUnderPrefix(remote, Join(rootDir, "bootstrap-config.yml"));
    RemotePathUnderPrefix(remote, Join(rootDir, "bootstrap-Gemfile"));
  }

  lemma UpdateTargetsUnderUriPath(remote: Remote, rootDir: string)
    ensures var ups := UpdateUploads(remote, rootDir);
      forall i :: 0 <= i < |ups| ==> UnderUriPath(remote, ups[i].target)
  {
    RemotePathUnderPrefix(remote, LockPath(rootDir));
    RemotePathUnderPrefix(remote, GemfilePath(rootDir));
    RemotePathUnderPrefix(remote, ConfigPath(rootDir));
  }

  /** A branch whose upload targets all lie inside the URI path and whose
      last step is a command writes only inside the URI path. */
  lemma SentUnderUriPath(remote: Remote, local: LocalFs, fs: RemoteFs, ups: seq<Upload>, last: RemoteWrite,
                         writes: seq<RemoteWrite>, failure: Option<SyncError>)
    requires SendsInOrder(local, fs, ups, last, writes, failure) && last.Exec?
    requires forall i :: 0 <= i < |ups| ==> UnderUriPath(remote, ups[i].target)
    ensures forall i :: 0 <= i < |writes| && writes[i].Put? ==> UnderUriPath(remote, writes[i].path)
  {
    forall i | 0 <= i < |writes| && writes[i].Put?
      ensures UnderUriPath(remote, writes[i].path)
    {
      if AllUploadable(local, fs, ups) {
        assert i < |ups|;
      }
    }
  }

  /** The remote install does not depend on the installer's exit status
      except in the install branch: the update branch ignores the status of
      `bundler install`. */
  lemma OnlyInstallReadsExitStatus(remote: Remote, rootDir: string, local: LocalFs, fs: RemoteFs,
                                   installer: Installer, e1: int, e2: int)
    requires BootstrapOrUpdate(remote, rootDir, local, fs, installer, e1).decision != Some(Install)
    ensures BootstrapOrUpdate(remote, rootDir, local, fs, installer, e1)
      == BootstrapOrUpdate(remote, rootDir, local, fs, installer, e2)
  {
  }

  /** The three remote paths of the update branch differ: they end in
      "Gemfile.lock", "Gemfile" and "config.yml". */
  lemma UpdateTargetsDistinct(remote: Remote, rootDir: string)
    ensures RemotePath(remote, LockPath(rootDir)) != RemotePath(remote, GemfilePath(rootDir))
    ensures RemotePath(remote, LockPath(rootDir)) != RemotePath(remote, ConfigPath(rootDir))
  {
    EndsWith(remote, rootDir, ".autoproj/Gemfile.lock");
    EndsWith(remote, rootDir, ".autoproj/Gemfile");
    EndsWith(remote, rootDir, ".autoproj/config.yml");
  }

  /** The remote copy of `Join(rootDir, rel)` ends with the last character
      of `rel`. */
  lemma EndsWith(remote: Remote, rootDir: string, rel: string)
    requires |rel| > 0
    ensures var p := RemotePath(remote, Join(rootDir, rel));
      |p| > 0 && p[|p| - 1] == rel[|rel| - 1]
  {
    var j := Join(rootDir, rel);
    JoinUnderPrefix(rootDir, rel);
    LastChar(j, rel);
    LastChar(RemotePath(remote, j), j);
  }

  /** A successful update makes the next run a no-op, provided the
      `bundler install` it ends with leaves the remote lock file as it was
      uploaded (a command's effect on the remote is not modelled): once its
      writes are applied, the remote lock file equals the local one, so the
      next call finds the install up to date and writes nothing. */
  lemma UpdateThenUpToDate(remote: Remote, rootDir: string, local: LocalFs, fs: RemoteFs,
                           installer: Installer, e1: int, e2: int, now: nat)
    requires var r := BootstrapOrUpdate(remote, rootDir, local, fs, installer, e1);
      r.decision == Some(Update) && r.failure.None?
    ensures var r := BootstrapOrUpdate(remote, rootDir, local, fs, installer, e1);
      var r2 := BootstrapOrUpdate(remote, rootDir, local, ApplyWrites(fs, r.writes, now), installer, e2);
      r2.decision == Some(UpToDate) && r2.writes == [] && r2.failure.None?
  {
    var r := BootstrapOrUpdate(remote, rootDir, local, fs, installer, e1);
    var lockRemote := RemotePath(remote, LockPath(rootDir));
    var content := local[LockPath(rootDir)].content;
    UpdateTargetsDistinct(remote, rootDir);
    assert r.writes[0] == Put(lockRemote, content);
    ApplyWritesLastPut(fs, r.writes, now, 0);
    var fs2 := ApplyWrites(fs, r.writes, now);
    assert Stat(fs2, lockRemote).Ok? && Download(fs2, lockRemote) == Success(content);
  }

  /** The install branch does not create the remote copy of the workspace
      root before uploading into it: on a remote without that directory the
      server refuses the first upload, nothing is written and the installer
      never runs. */
  lemma InstallNeedsRemoteRoot(remote: Remote, rootDir: string, local: LocalFs, fs: RemoteFs,
                               installer: Installer, installerExit: int)
    requires |rootDir| > 0 && !EndsWithSep(rootDir) && Canonical(RemotePath(remote, rootDir))
    requires Stat(fs, RemotePath(remote, LockPath(rootDir))) == Status(FX_NO_SUCH_FILE)
    requires installer.script in local
    requires Stat(fs, RemotePath(remote, rootDir)).Status?
    ensures var r := BootstrapOrUpdate(remote, rootDir, local, fs, installer, installerExit);
      && r.decision == Some(Install) && r.writes == []
      && r.failure == Some(UploadRefused(RemotePath(remote, Join(rootDir, "autoproj_install")),
                                         Stat(fs, RemotePath(remote, rootDir)).code))
  {
    var root := RemotePath(remote, rootDir);
    InstallFilesInRemoteRoot(remote, rootDir, installer);
    InstallerName();
    DirnameOfJoin(root, "autoproj_install");
  }

  lemma InstallerName()
    ensures Component("autoproj_install")
  {
  }

  /** The install branch's uploads land in the directory the install
      command changes to, under the names the command passes to the
      installer. */
  lemma InstallFilesInRemoteRoot(remote: Remote, rootDir: string, installer: Installer)
    requires |rootDir| > 0 && !EndsWithSep(rootDir)
    ensures var ups := InstallUploads(remote, rootDir, installer);
      var root := RemotePath(remote, rootDir);
      && ups[0].target == Join(root, "autoproj_install")
      && ups[1].target == Join(root, "bootstrap-config.yml")
      && ups[2].target == Join(root, "bootstrap-Gemfile")
  {
    UnderRemoteRoot(remote, rootDir, "autoproj_install");
    UnderRemoteRoot(remote, rootDir, "bootstrap-config.yml");
    UnderRemoteRoot(remote, rootDir, "bootstrap-Gemfile");
  }

  /** Mapping to the remote and joining a relative name commute. */
  lemma UnderRemoteRoot(remote: Remote, rootDir: string, name: string)
    requires |rootDir| > 0 && !EndsWithSep(rootDir)
    requires |name| > 0 && name[0] != '/'
    ensures RemotePath(remote, Join(rootDir, name)) == Join(RemotePath(remote, rootDir), name)
  {
    var root := RemotePath(remote, rootDir);
    assert Join(rootDir, name) == rootDir + ("/" + name);
    JoinAppend(remote.uri.path, rootDir, "/" + name);
    LastChar(root, rootDir);
    assert Join(root, name) == root + "/" + name;
  }

  /** The installer arguments are non-empty words the shell takes
      literally. */
  lemma InstallArgumentsPlain()
    ensures forall i :: 0 <= i < |InstallArguments| ==> |InstallArguments[i]| > 0 && ShellWords.Plain(InstallArguments[i])
  {
  }

  /** The shell reads the install command as `cd` into the remote root,
      then the interpreter running the installer script with the bootstrap
      Gemfile and seed configuration, provided the interpreter path holds no
      character the shell would interpret. */
  lemma InstallCommandWords(remote: Remote, rootDir: string, installer: Installer)
    requires ShellWords.NoQuote(RemotePath(remote, rootDir))
    requires |installer.rubyExecutable| > 0 && ShellWords.Plain(installer.rubyExecutable)
    ensures ShellWords.Words(InstallCommand(remote, rootDir, installer))
      == Some(["cd", RemotePath(remote, rootDir), "&&", installer.rubyExecutable] + InstallArguments)
  {
    var ruby := installer.rubyExecutable;
    var dir := RemotePath(remote, rootDir);
    InstallWordsBare(ruby);
    CdThenBareWords(dir, [ruby] + InstallArguments);
    assert ["cd", dir, "&&"] + ([ruby] + InstallArguments) == ["cd", dir, "&&", ruby] + InstallArguments;
  }

  /** Every word after `&&` in the install command is non-empty and bare. */
  lemma InstallWordsBare(ruby: string)
    requires |ruby| > 0 && ShellWords.Plain(ruby)
    ensures var words := [ruby] + InstallArguments;
      forall i :: 0 <= i < |words| ==> |words[i]| > 0 && ShellWords.Bare(words[i])
  {
    InstallArgumentsPlain();
    var words := [ruby] + InstallArguments;
    forall i | 0 <= i < |words|
      ensures ShellWords.Bare(words[i])
    {
      ShellWords.PlainIsBare(words[i]);
    }
  }

  /** A `cd` followed by bare words is read as `cd`, the directory, `&&` and
      those words. */
  lemma CdThenBareWords(p: string, words: seq<string>)
    requires ShellWords.NoQuote(p)
    requires |words| > 0
    requires forall i :: 0 <= i < |words| ==> |words[i]| > 0 && ShellWords.Bare(words[i])
    ensures ShellWords.Words(CdAndRun(p, words)) == Some(["cd", p, "&&"] + words)
  {
    var tail := JoinWith(words, " ");
    CdPrefixWords(p, tail);
    var w := ["cd", p, "&&"];
    ShellWords.BareWords(w, words);
    assert w + words[..|words| - 1] + [words[|words| - 1]] == w + words;
  }
}
