/** Creating the remote directories an rsync destination needs
    (`Remote#mkdir_p`) and the rsync command lines of `rsync_dir` and
    `rsync_file`. The rsync processes themselves are not modelled: only the
    argument vectors they would be given. */
module Provisioning {
  import opened Wrappers
  import opened RubyPath
  import opened Filesystem
  import opened SyncRemote

  /** The server answered the stat of `p` with attributes. Any other answer,
      "no such file" or a refusal, counts as missing. */
  predicate StatOk(fs: RemoteFs, p: string) {
    Stat(fs, p).Ok?
  }

  /** The requests of one `mkdir_p` call: the paths it stats, in order, and
      the directories it creates, in order. */
  datatype MkdirPlan = MkdirPlan(stats: seq<string>, mkdirs: seq<string>)

  /** What `mkdir_p(dir)` promises: it stats every ancestor of `dir` from
      `dir` itself up to (excluding) "/", and creates, shallowest first, the
      longest run of them that starts at `dir` and was not reported present. */
  predicate MissingRunPlan(fs: RemoteFs, dir: string, plan: MkdirPlan)
    requires Absolute(dir)
  {
    var n := |plan.mkdirs|;
    && plan.stats == Ancestors(dir)
    && n <= |plan.stats|
    && (forall i :: 0 <= i < n ==> plan.mkdirs[i] == plan.stats[n - 1 - i])
    && (forall i :: 0 <= i < n ==> !StatOk(fs, plan.stats[i]))
    && (n < |plan.stats| ==> StatOk(fs, plan.stats[n]))
  }

  /** One step up the walk from `dir` to "/". */
  lemma WalkStep(ops: seq<string>, p: string, dir: string)
    requires Absolute(p) && p != "/" && Absolute(dir)
    requires ops + Ancestors(p) == Ancestors(dir)
    ensures Absolute(Dirname(p)) && |Dirname(p)| < |p|
    ensures (ops + [p]) + Ancestors(Dirname(p)) == Ancestors(dir)
  {
    AncestorsStep(p);
    assert ops + Ancestors(p) == (ops + [p]) + Ancestors(Dirname(p));
  }

  /** The first loop of `mkdir_p`: the paths it stats, walking up with
      `File.dirname` until "/". */
  method WalkUp(dir: string) returns (ops: seq<string>)
    requires Absolute(dir)
    ensures ops == Ancestors(dir)
  {
    ops := [];
    var p := dir;
    while p != "/"
      invariant Absolute(p)
      invariant ops + Ancestors(p) == Ancestors(dir)
      decreases |p|
    {
      WalkStep(ops, p, dir);
      ops := ops + [p];
      p := Dirname(p);
    }
    assert ops + [] == ops;
  }

  /** The `take_while` of `mkdir_p`: how many stats from the front were not
      answered ok. */
  method MissingPrefix(fs: RemoteFs, ops: seq<string>) returns (n: nat)
    ensures n <= |ops|
    ensures forall i :: 0 <= i < n ==> !StatOk(fs, ops[i])
    ensures n < |ops| ==> StatOk(fs, ops[n])
  {
    n := 0;
    while n < |ops| && !StatOk(fs, ops[n])
      invariant n <= |ops|
      invariant forall i :: 0 <= i < n ==> !StatOk(fs, ops[i])
    {
      n := n + 1;
    }
  }

  /** `missing.reverse`: the first `n` paths, last first. */
  method ReversePrefix(ops: seq<string>, n: nat) returns (r: seq<string>)
    requires n <= |ops|
    ensures |r| == n
    ensures forall i :: 0 <= i < n ==> r[i] == ops[n - 1 - i]
  {
    r := [];
    var k := n;
    while k > 0
      invariant 0 <= k <= n
      invariant |r| == n - k
      invariant forall i :: 0 <= i < n - k ==> r[i] == ops[n - 1 - i]
    {
      k := k - 1;
      r := r + [ops[k]];
    }
  }

  /** `Remote#mkdir_p`: walk up with `File.dirname` until "/", take the
      ancestors while their stat is not ok, and create them in reverse. */
  method MkdirP(fs: RemoteFs, dir: string) returns (plan: MkdirPlan)
    requires Absolute(dir)
    ensures MissingRunPlan(fs, dir, plan)
  {
    var ops := WalkUp(dir);
    var n := MissingPrefix(fs, ops);
    var mkdirs := ReversePrefix(ops, n);
    plan := MkdirPlan(ops, mkdirs);
  }

  /** `mkdir_p` creates nothing when the target already exists, never
      creates "/" or a directory reported present, and afterwards the target
      is "/", was present, or is the last directory created. */
  lemma MissingRunPlanCreatesOnlyMissing(fs: RemoteFs, dir: string, plan: MkdirPlan)
    requires Absolute(dir) && MissingRunPlan(fs, dir, plan)
    ensures StatOk(fs, dir) ==> plan.mkdirs == []
    ensures forall i :: 0 <= i < |plan.mkdirs| ==> plan.mkdirs[i] != "/" && !StatOk(fs, plan.mkdirs[i])
    ensures dir == "/" || StatOk(fs, dir) || (|plan.mkdirs| > 0 && plan.mkdirs[|plan.mkdirs| - 1] == dir)
  {
    AncestorsShape(dir);
  }

  /** Reversing the first `n` links of a parent chain gives a chain that
      runs from the shallowest of them to the deepest. */
  lemma ReversedChain<T>(a: seq<T>, r: seq<T>, parent: T -> T)
    requires |r| <= |a|
    requires forall i :: 0 <= i < |r| ==> r[i] == a[|r| - 1 - i]
    requires forall i :: 0 <= i < |a| - 1 ==> a[i + 1] == parent(a[i])
    ensures forall i :: 0 < i < |r| ==> parent(r[i]) == r[i - 1]
    ensures 0 < |r| < |a| ==> parent(r[0]) == a[|r|]
  {
    var n := |r|;
    forall i | 0 < i < n
      ensures parent(r[i]) == r[i - 1]
    {
      assert r[i - 1] == a[(n - 1 - i) + 1];
    }
  }

  /** `mkdir_p` creates parents before children: each created directory's
      parent was created just before it, and the first one's parent is "/"
      or was reported present. */
  lemma MissingRunPlanParentsFirst(fs: RemoteFs, dir: string, plan: MkdirPlan)
    requires Absolute(dir) && MissingRunPlan(fs, dir, plan)
    ensures forall i :: 0 < i < |plan.mkdirs| ==> Dirname(plan.mkdirs[i]) == plan.mkdirs[i - 1]
    ensures |plan.mkdirs| > 0 ==>
      Dirname(plan.mkdirs[0]) == "/" || StatOk(fs, Dirname(plan.mkdirs[0]))
  {
    AncestorsLinked(dir);
    ReversedChain(plan.stats, plan.mkdirs, Dirname);
  }

  /** The result of `rsync_dir` or `rsync_file`: the directories provisioned
      on the remote and the rsync argument vector. */
  datatype Transfer = Transfer(provision: MkdirPlan, argv: seq<string>)

  /** `Remote#rsync_dir`: provision the remote copy of `localDir`, then
      mirror the directory's contents into it, deleting extraneous files. */
  method RsyncDir(fs: RemoteFs, remote: Remote, localDir: string) returns (t: Transfer)
    requires PathPrefix(remote.uri.path)
    ensures Absolute(RemotePath(remote, localDir))
    ensures MissingRunPlan(fs, RemotePath(remote, localDir), t.provision)
    ensures |t.argv| == 5 && t.argv[..3] == ["rsync", "-a", "--delete-after"]
    ensures t.argv[3] == localDir + "/"
    ensures t.argv[4] == RsyncTarget(remote.uri) + ":" + RemotePath(remote, localDir) + "/"
  {
    var remoteDir := RemotePath(remote, localDir);
    var plan := MkdirP(fs, remoteDir);
    t := Transfer(plan, ["rsync", "-a", "--delete-after", localDir + "/",
                         RsyncTarget(remote.uri) + ":" + remoteDir + "/"]);
  }

  /** `Remote#rsync_file` as written: it provisions the parent of the LOCAL
      path on the remote, not the parent of the destination, which lies under
      the URI path. */
  method RsyncFileAsWritten(fs: RemoteFs, remote: Remote, localFile: string) returns (t: Transfer)
    requires Absolute(localFile)
    ensures Absolute(Dirname(localFile))
    ensures MissingRunPlan(fs, Dirname(localFile), t.provision)
    ensures t.argv == ["rsync", "-a", localFile, RsyncTarget(remote.uri) + ":" + RemotePath(remote, localFile)]
  {
    DirnameAbsolute(localFile);
    var plan := MkdirP(fs, Dirname(localFile));
    t := Transfer(plan, ["rsync", "-a", localFile, RsyncTarget(remote.uri) + ":" + RemotePath(remote, localFile)]);
  }

  /** The parent of an absolute path is absolute, "/" included. */
  lemma DirnameAbsolute(s: string)
    requires Absolute(s)
    ensures Absolute(Dirname(s))
  {
    if s == "/" {
      assert LeadingSeps(s) == 1;
      assert StripTrailingSeps(s) == "";
    } else {
      DirnameOfAbsolute(s);
    }
  }

  /** The three parents the example below needs. */
  lemma ExampleParents()
    ensures Dirname("/ws/stamp") == "/ws" && Dirname("/ws") == "/"
    ensures Dirname("/srv/ws/stamp") == "/srv/ws"
  {
    assert Join("/ws", "stamp") == "/ws/stamp";
    DirnameOfJoin("/ws", "stamp");
    assert Join("/", "ws") == "/ws";
    DirnameOfJoin("/", "ws");
    assert Join("/srv/ws", "stamp") == "/srv/ws/stamp";
    DirnameOfJoin("/srv/ws", "stamp");
  }

  /** With URI path "/srv", an empty remote and the stamp "/ws/stamp",
      `rsync_file` as written provisions "/ws" (the parent of the local
      path), creating "/ws" and nothing else, so the parent "/srv/ws" of its
      destination "/srv/ws/stamp" is left missing. */
  lemma RsyncFileAsWrittenMissesDestination(plan: MkdirPlan)
    requires MissingRunPlan(map[], "/ws", plan)
    ensures Dirname("/ws/stamp") == "/ws"
    ensures plan.mkdirs == ["/ws"]
    ensures RemotePath(Remote(Uri("ssh", "host", None, None, "/srv"), "host", true), "/ws/stamp") == "/srv/ws/stamp"
    ensures Dirname("/srv/ws/stamp") == "/srv/ws"
    ensures "/srv/ws" !in plan.mkdirs && !StatOk(map[], "/srv/ws")
  {
    ExampleParents();
    ExamplePlan(plan);
    ExampleDestination();
    ExampleDistinct();
  }

  lemma ExampleDistinct()
    ensures "/srv/ws" != "/ws"
  {
    assert "/srv/ws"[1] != "/ws"[1];
  }

  lemma ExamplePlan(plan: MkdirPlan)
    requires MissingRunPlan(map[], "/ws", plan)
    ensures plan.mkdirs == ["/ws"]
  {
    ExampleAncestors();
  }

  lemma ExampleDestination()
    ensures RemotePath(Remote(Uri("ssh", "host", None, None, "/srv"), "host", true), "/ws/stamp") == "/srv/ws/stamp"
  {
  }

  lemma ExampleAncestors()
    ensures Ancestors("/ws") == ["/ws"]
  {
    ExampleParents();
    AncestorsStep("/ws");
  }

  /** `rsync_file` provisioning the parent of its destination: afterwards
      that parent is "/", was present, or has just been created. */
  method RsyncFile(fs: RemoteFs, remote: Remote, localFile: string) returns (t: Transfer)
    requires PathPrefix(remote.uri.path)
    ensures Absolute(Dirname(RemotePath(remote, localFile)))
    ensures MissingRunPlan(fs, Dirname(RemotePath(remote, localFile)), t.provision)
    ensures var parent := Dirname(RemotePath(remote, localFile));
      parent == "/" || StatOk(fs, parent) || parent in t.provision.mkdirs
    ensures t.argv == ["rsync", "-a", localFile, RsyncTarget(remote.uri) + ":" + RemotePath(remote, localFile)]
  {
    var remoteFile := RemotePath(remote, localFile);
    DirnameAbsolute(remoteFile);
    var plan := MkdirP(fs, Dirname(remoteFile));
    MissingRunPlanCreatesOnlyMissing(fs, Dirname(remoteFile), plan);
    t := Transfer(plan, ["rsync", "-a", localFile, RsyncTarget(remote.uri) + ":" + remoteFile]);
  }
}
