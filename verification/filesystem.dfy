/** The two filesystems the sync code looks at, as values: the local one
    (what `File.exist?`, `File.stat` and `File.read` see) and the remote one
    (what the SFTP server answers to stat, open and download requests), plus
    the log of writes and commands the code sends to the remote. */
module Filesystem {
  import opened Wrappers

  newtype byte = x: int | 0 <= x < 256

  type Bytes = seq<byte>

  /** SFTP status code SSH_FX_NO_SUCH_FILE. */
  const FX_NO_SUCH_FILE: nat := 2

  /** A local file: `File.stat` size and mtime (`tv_sec`, `tv_usec`) and its
      content. */
  datatype LocalFile = LocalFile(size: nat, sec: int, usec: nat, content: Bytes)

  type LocalFs = map<string, LocalFile>

  /** SFTP file attributes: size, whole-second mtime, and the sub-second
      nanoseconds. Each is optional in an SFTP attribute record: a server
      may leave any of them out, and Net::SFTP then answers `nil`. */
  datatype Attrs = Attrs(size: Option<nat>, mtime: Option<nat>, nsec: Option<nat>)

  /** What the server holds at a path: an entry it describes and lets the
      client read; an entry it describes but refuses to open for reading
      (no read permission, a directory), with the status of that refusal;
      or a refusal of every request with an SFTP status code (permission
      denied on the directory above, failure, ...). */
  datatype Entry =
    | Present(attrs: Attrs, content: Bytes)
    | Unreadable(attrs: Attrs, code: nat)
    | Refused(code: nat)

  /** A path the map does not mention does not exist on the remote. */
  type RemoteFs = map<string, Entry>

  /** The answer to a stat request, or to an open followed by an fstat. */
  datatype StatReply = Ok(attrs: Attrs) | Status(code: nat)

  /** `stat`/`stat!` of a path: the server describes any entry it has,
      readable or not. */
  function Stat(fs: RemoteFs, path: string): (r: StatReply)
    ensures r.Ok? <==> path in fs && !fs[path].Refused?
    ensures path !in fs ==> r == Status(FX_NO_SUCH_FILE)
  {
    if path !in fs then Status(FX_NO_SUCH_FILE)
    else match fs[path]
      case Present(a, _) => Ok(a)
      case Unreadable(a, _) => Ok(a)
      case Refused(code) => Status(code)
  }

  /** `file.open(path)` then `stat` on the handle: the open fails on an
      entry the server will not let the client read. */
  function OpenStat(fs: RemoteFs, path: string): (r: StatReply)
    ensures r.Ok? <==> path in fs && fs[path].Present?
    ensures path !in fs ==> r == Status(FX_NO_SUCH_FILE)
    ensures r.Ok? ==> r == Stat(fs, path)
    ensures path in fs && fs[path].Unreadable? ==> Stat(fs, path).Ok? && r == Status(fs[path].code)
  {
    if path in fs && fs[path].Unreadable? then Status(fs[path].code) else Stat(fs, path)
  }

  /** `sftp.download!` of a path the server reported present: the content,
      or the status with which the server refuses to open it. */
  function Download(fs: RemoteFs, path: string): (r: Result<Bytes, nat>)
    requires Stat(fs, path).Ok?
    ensures r.Success? <==> fs[path].Present?
    ensures r.Success? ==> r.value == fs[path].content
    ensures r.Failure? ==> r.error == fs[path].code
  {
    match fs[path]
    case Present(_, content) => Success(content)
    case Unreadable(_, code) => Failure(code)
  }

  /** One request that changes the remote: an upload of some bytes to a
      path, or a shell command run through `exec!`. */
  datatype RemoteWrite = Put(path: string, content: Bytes) | Exec(command: string)

  /** The remote after a sequence of writes, uploads stamped with `now`.
      What a command does on the remote is not modelled: `Exec` leaves the
      map as it is. */
  function ApplyWrites(fs: RemoteFs, writes: seq<RemoteWrite>, now: nat): RemoteFs
    decreases |writes|
  {
    if |writes| == 0 then fs
    else
      var fs' := match writes[0]
        case Put(p, c) => fs[p := Present(Attrs(Some(|c|), Some(now), None), c)]
        case Exec(_) => fs;
      ApplyWrites(fs', writes[1..], now)
  }

  /** After the writes, a path holds the content of the last upload to it. */
  lemma {:induction false} ApplyWritesLastPut(fs: RemoteFs, writes: seq<RemoteWrite>, now: nat, i: nat)
    requires i < |writes| && writes[i].Put?
    requires forall j :: i < j < |writes| && writes[j].Put? ==> writes[j].path != writes[i].path
    ensures var r := ApplyWrites(fs, writes, now);
      writes[i].path in r && r[writes[i].path] == Present(Attrs(Some(|writes[i].content|), Some(now), None), writes[i].content)
    decreases |writes|
  {
    var fs' := match writes[0]
      case Put(p, c) => fs[p := Present(Attrs(Some(|c|), Some(now), None), c)]
      case Exec(_) => fs;
    if i == 0 {
      UntouchedByWrites(fs', writes[1..], now, writes[0].path);
    } else {
      ApplyWritesLastPut(fs', writes[1..], now, i - 1);
    }
  }

  /** Writes that never upload to `p` leave `p` as it was. */
  lemma {:induction false} UntouchedByWrites(fs: RemoteFs, writes: seq<RemoteWrite>, now: nat, p: string)
    requires forall j :: 0 <= j < |writes| && writes[j].Put? ==> writes[j].path != p
    ensures p in ApplyWrites(fs, writes, now) <==> p in fs
    ensures p in fs ==> ApplyWrites(fs, writes, now)[p] == fs[p]
    decreases |writes|
  {
    if |writes| > 0 {
      var fs' := match writes[0]
        case Put(q, c) => fs[q := Present(Attrs(Some(|c|), Some(now), None), c)]
        case Exec(_) => fs;
      UntouchedByWrites(fs', writes[1..], now, p);
    }
  }
}

/** The exceptions the sync core raises, one constructor per raise site. */
module SyncErrors {

  datatype SyncError =
    | UnsupportedProtocol(scheme: string)
    | NoRemoteNamed(message: string)
    | NoTargetCalled(name: string)
    | StatFailed(path: string, code: nat)
    | LocalFileMissing(path: string)
    | DownloadRefused(path: string, code: nat)
    | UploadRefused(path: string, code: nat)
    | InstallFailed(exitStatus: int)
}
