/**
 * The plugin operations of the driver. Each locked operation runs atomically
 * and is a pure step: it takes the catalog and the answers of the outside
 * world (the shared-filesystem client and the operating system), and returns
 * the new catalog, the reply, and the calls it issued, in order.
 */
module Driver {
  import opened Results
  import opened Int64s
  import opened Paths
  import opened VolumeCatalog
  import opened Listing

  /** A system call's error as the driver tells them apart. */
  datatype Errno = NoError | EEXIST | ENOENT | EOTHER

  /** The outcome of a call into the shared-filesystem client. */
  datatype Remote = Succeeded | Failed

  /** A call the driver issues to the shared filesystem or to the operating system. */
  datatype Effect =
    | RemoteMakeDir(name: string)
    | RemoteRemoveDir(name: string)
    | MakeMountpoint(path: string)
    | Bind(source: string, target: string)
    | Unbind(target: string)

  /** The errors an operation returns to the plugin handler. */
  datatype Error =
    | RemoteError
    | ConflictError(mismatch: Mismatch)
    | MkdirError(mkdirErrno: Errno)
    | MountError(mountErrno: Errno)
    | UnmountError(unmountErrno: Errno)
    | NotFound(name: string)
    | NilDereference

  /** The outcome of one locked operation. */
  datatype Step<+T> = Step(catalog: Catalog, result: Result<T, Error>, effects: seq<Effect>)

  /** The scope `Capabilities` declares: volumes are shared by every host of the cluster. */
  const Scope: string := "global"

  /**
   * `Create`: open a client session, register the name with `add(name, "", "", 0)`,
   * then create the remote directory. The record is registered before the
   * remote call, so it stays when that call fails; for a known name the
   * registration bumps the counter. The registration itself never fails.
   */
  function Create(c: Catalog, name: string, session: Remote, makeDir: Remote): (s: Step<()>)
    ensures session == Failed ==> s == Step(c, Err(RemoteError), [])
    ensures session == Succeeded ==> s.effects == [RemoteMakeDir(name)]
    ensures session == Succeeded ==> (s.result.Ok? <==> makeDir == Succeeded)
    ensures s.result.Err? ==> s.result.error == RemoteError
    ensures session == Succeeded ==> s.catalog.Keys == c.Keys + {name}
    ensures session == Succeeded ==> forall n :: n in c && n != name ==> s.catalog[n] == c[n]
    ensures session == Succeeded && name !in c ==> s.catalog[name] == Volume(name, "", "", 0)
    ensures session == Succeeded && name in c ==>
      s.catalog[name] == c[name].(mounts := Inc(c[name].mounts))
  {
    if session.Failed? then Step(c, Err(RemoteError), [])
    else
      var added := Add(c, name, "", "", 0);
      match added.err
      case Some(mismatch) => Step(added.catalog, Err(ConflictError(mismatch)), [])
      case None => Step(added.catalog, if makeDir == Succeeded then Ok(()) else Err(RemoteError), [RemoteMakeDir(name)])
  }

  /**
   * `Remove`: delete the remote directory and, only once that succeeded, the
   * catalog record. The counter is not consulted, so a mounted volume can be
   * removed; no other record is touched.
   */
  function Remove(c: Catalog, name: string, session: Remote, removeDir: Remote): (s: Step<()>)
    ensures s.result.Ok? <==> session == Succeeded && removeDir == Succeeded
    ensures s.result.Err? ==> s.catalog == c && s.result.error == RemoteError
    ensures s.result.Ok? ==> s.catalog.Keys == c.Keys - {name}
    ensures forall n :: n in s.catalog ==> n in c && s.catalog[n] == c[n]
    ensures s.effects == (if session == Succeeded then [RemoteRemoveDir(name)] else [])
  {
    if session.Failed? then Step(c, Err(RemoteError), [])
    else if removeDir.Failed? then Step(c, Err(RemoteError), [RemoteRemoveDir(name)])
    else Step(c - {name}, Ok(()), [RemoteRemoveDir(name)])
  }

  /**
   * `Path`: the canonical mountpoint of a volume, computed without the catalog
   * or the cluster. The name is not checked: a one-component name is appended
   * to the Docker root, any other is cleaned with it (`Paths.DotDotEscapesRoots`).
   */
  function Path(name: string): (mp: string)
    ensures OneComponent(name) ==> mp == DockerRoot + "/" + name
    ensures name == "" ==> mp == DockerRoot
    ensures mp != "" && mp[0] == '/'
  {
    Mountpoint(name)
  }

  /**
   * `Get`: the volume exists when changing into its remote directory leaves
   * the session somewhere other than the base directory; its reported
   * mountpoint is the computed one, whatever the catalog holds.
   */
  function Get(name: string, session: Remote, cwdAfterChangeDir: string): (r: Result<VolumeInfo, Error>)
    ensures r.Ok? <==> session == Succeeded && cwdAfterChangeDir != BaseDir
    ensures r.Ok? ==> r.value == VolumeInfo(name, Path(name))
    ensures session == Failed ==> r == Err(RemoteError)
    ensures session == Succeeded && cwdAfterChangeDir == BaseDir ==> r == Err(NotFound(name))
  {
    if session.Failed? then Err(RemoteError)
    else if cwdAfterChangeDir == BaseDir then Err(NotFound(name))
    else Ok(VolumeInfo(name, Mountpoint(name)))
  }

  /**
   * `List`: read the base directory entry by entry (`entries` is what the
   * reads yield before the first end or error) and report each non-pseudo
   * entry with the catalog's path for it.
   */
  method List(c: Catalog, session: Remote, openDir: Remote, entries: seq<string>)
    returns (r: Result<seq<VolumeInfo>, Error>)
    ensures r.Ok? <==> session == Succeeded && openDir == Succeeded
    ensures r.Err? ==> r.error == RemoteError
    ensures r.Ok? ==> r.value == Decorated(c, entries)
  {
    if session.Failed? || openDir.Failed? {
      return Err(RemoteError);
    }
    var ls: seq<VolumeInfo> := [];
    var i := 0;
    while i < |entries|
      invariant 0 <= i <= |entries|
      invariant ls == Decorated(c, entries[..i])
    {
      var name := entries[i];
      assert entries[..i + 1][..i] == entries[..i];
      if name != "." && name != ".." {
        ls := ls + [Decorate(c, name)];
      }
      i := i + 1;
    }
    assert entries[..|entries|] == entries;
    return Ok(ls);
  }

  /** What the operating system answers to each `mkdir` and to the bind Mount may issue. */
  datatype MountEnv = MountEnv(mkdirMountpoint: Errno, mkdirRoot: Errno, mkdirRetry: Errno, bind: Errno)

  /** The mountpoint directory ends up usable: created, already there, or created after its parent. */
  predicate MountpointReady(env: MountEnv)
  {
    || env.mkdirMountpoint == NoError
    || env.mkdirMountpoint == EEXIST
    || (env.mkdirMountpoint == ENOENT && env.mkdirRoot == NoError && env.mkdirRetry == NoError)
  }

  /** The `mkdir` calls Mount issues for its mountpoint and the error that stops it, if any. */
  datatype Prepared = Prepared(failure: Option<Error>, effects: seq<Effect>)

  /**
   * Mount's mountpoint preparation: `mkdir(mp)`; when the parent is missing,
   * `mkdir` of the Docker root and then `mkdir(mp)` again, any failure of
   * these two being fatal; "already exists" on the first call is success.
   */
  function PrepareMountpoint(mp: string, env: MountEnv): (p: Prepared)
    ensures p.failure.None? <==> MountpointReady(env)
    ensures p.failure.Some? ==> p.failure.value.MkdirError? && p.failure.value.mkdirErrno != NoError
    ensures 1 <= |p.effects| <= 3 && p.effects[0] == MakeMountpoint(mp)
    ensures |p.effects| > 1 <==> env.mkdirMountpoint == ENOENT
    ensures |p.effects| > 1 ==> p.effects[1] == MakeMountpoint(DockerRoot)
    ensures |p.effects| == 3 ==> p.effects[2] == MakeMountpoint(mp)
    ensures |p.effects| == 3 <==> env.mkdirMountpoint == ENOENT && env.mkdirRoot == NoError
    ensures env.mkdirMountpoint == EOTHER ==> p.failure == Some(MkdirError(EOTHER))
    ensures env.mkdirMountpoint == ENOENT && env.mkdirRoot != NoError ==>
      p.failure == Some(MkdirError(env.mkdirRoot))
    ensures env.mkdirMountpoint == ENOENT && env.mkdirRoot == NoError && env.mkdirRetry != NoError ==>
      p.failure == Some(MkdirError(env.mkdirRetry))
  {
    match env.mkdirMountpoint
    case ENOENT =>
      if env.mkdirRoot != NoError then
        Prepared(Some(MkdirError(env.mkdirRoot)), [MakeMountpoint(mp), MakeMountpoint(DockerRoot)])
      else if env.mkdirRetry != NoError then
        Prepared(Some(MkdirError(env.mkdirRetry)), [MakeMountpoint(mp), MakeMountpoint(DockerRoot), MakeMountpoint(mp)])
      else
        Prepared(None, [MakeMountpoint(mp), MakeMountpoint(DockerRoot), MakeMountpoint(mp)])
    case EOTHER => Prepared(Some(MkdirError(EOTHER)), [MakeMountpoint(mp)])
    case _ => Prepared(None, [MakeMountpoint(mp)])
  }

  /** `effects` holds a bind. */
  predicate Binds(effects: seq<Effect>)
  {
    exists e :: e in effects && e.Bind?
  }

  /**
   * The tail of `Mount` once `add` has run: prepare the mountpoint `mp` and,
   * when the counter `mounts` is at most one, bind the remote directory onto it.
   */
  function MountOnto(cat: Catalog, name: string, mp: string, mounts: int64, env: MountEnv): (s: Step<string>)
    ensures s.catalog == cat
    ensures s.effects == PrepareMountpoint(mp, env).effects +
      (if MountpointReady(env) && mounts <= 1 then [Bind(RemotePath(name), mp)] else [])
    ensures !MountpointReady(env) ==> s.result == Err(PrepareMountpoint(mp, env).failure.value)
    ensures MountpointReady(env) && mounts <= 1 && env.bind != NoError ==> s.result == Err(MountError(env.bind))
    ensures s.result.Ok? ==> s.result.value == mp
    ensures s.result.Ok? <==> MountpointReady(env) && (mounts > 1 || env.bind == NoError)
    ensures s.result.Err? ==> s.result.error.MkdirError? || s.result.error == MountError(env.bind)
    ensures Binds(s.effects) <==> MountpointReady(env) && mounts <= 1
    ensures forall i :: 0 <= i < |s.effects| && s.effects[i].Bind? ==>
      i == |s.effects| - 1 && s.effects[i] == Bind(RemotePath(name), mp)
    ensures forall e :: e in s.effects ==>
      e == Bind(RemotePath(name), mp) || e == MakeMountpoint(mp) || e == MakeMountpoint(DockerRoot)
  {
    var prep := PrepareMountpoint(mp, env);
    if prep.failure.Some? then
      Step(cat, Err(prep.failure.value), prep.effects)
    else if mounts <= 1 then
      var effects := prep.effects + [Bind(RemotePath(name), mp)];
      assert effects[|effects| - 1] in effects;
      Step(cat, if env.bind == NoError then Ok(mp) else Err(MountError(env.bind)), effects)
    else
      Step(cat, Ok(mp), prep.effects)
  }

  /**
   * `Mount`: `add(name, ID, Join(root, name), 1)`; on a reported mismatch the
   * stored path replaces the computed one (the mismatch itself is swallowed),
   * so the mountpoint used is always the one the record holds afterwards.
   * Then the mountpoint is prepared and, when the counter is at most one
   * after the increment, the remote directory is bound onto it. A failure
   * leaves the increment in place.
   */
  function Mount(c: Catalog, name: string, id: string, env: MountEnv): (s: Step<string>)
    ensures s.catalog.Keys == c.Keys + {name}
    ensures forall n :: n in c && n != name ==> s.catalog[n] == c[n]
    ensures name !in c ==> s.catalog[name] == Volume(name, id, Mountpoint(name), 1)
    ensures name in c ==> s.catalog[name].mounts == Inc(c[name].mounts)
    ensures name in c ==> s.catalog[name].name == c[name].name
    ensures name in c && c[name].id != "" ==> s.catalog[name].id == c[name].id
    ensures name in c && c[name].id == "" ==> s.catalog[name].id == id
    ensures name in c && c[name].mountPath != "" ==> s.catalog[name].mountPath == c[name].mountPath
    ensures name in c && c[name].mountPath == "" ==> s.catalog[name].mountPath == Mountpoint(name)
    ensures s.result.Ok? ==> s.result.value == s.catalog[name].mountPath
    ensures s.result.Ok? <==> MountpointReady(env) && (s.catalog[name].mounts > 1 || env.bind == NoError)
    ensures s.result.Err? ==> s.result.error.MkdirError? || s.result.error == MountError(env.bind)
    ensures s.effects == PrepareMountpoint(s.catalog[name].mountPath, env).effects +
      (if MountpointReady(env) && s.catalog[name].mounts <= 1
       then [Bind(RemotePath(name), s.catalog[name].mountPath)] else [])
    ensures !MountpointReady(env) ==>
      s.result == Err(PrepareMountpoint(s.catalog[name].mountPath, env).failure.value)
    ensures MountpointReady(env) && s.catalog[name].mounts <= 1 && env.bind != NoError ==>
      s.result == Err(MountError(env.bind))
    ensures Binds(s.effects) <==> MountpointReady(env) && s.catalog[name].mounts <= 1
    ensures forall i :: 0 <= i < |s.effects| && s.effects[i].Bind? ==>
      i == |s.effects| - 1 && s.effects[i] == Bind(RemotePath(name), s.catalog[name].mountPath)
    ensures forall e :: e in s.effects ==>
      e == Bind(RemotePath(name), s.catalog[name].mountPath) || e == MakeMountpoint(s.catalog[name].mountPath)
      || e == MakeMountpoint(DockerRoot)
  {
    var computed := Mountpoint(name);
    var added := Add(c, name, id, computed, 1);
    var mp := if added.err.Some? then added.catalog[name].mountPath else computed;
    assert mp == added.catalog[name].mountPath;
    MountOnto(added.catalog, name, mp, added.catalog[name].mounts, env)
  }

  /**
   * `Unmount`: decrement a known volume's counter with no lower bound, and
   * unbind the computed mountpoint `Join(root, name)` exactly when the counter
   * reaches zero. For a name the catalog does not know, reading the counter
   * dereferences a nil record: the request fails and nothing changes.
   */
  function Unmount(c: Catalog, name: string, id: string, unbind: Errno): (s: Step<()>)
    ensures name !in c ==> s == Step(c, Err(NilDereference), [])
    ensures s.catalog.Keys == c.Keys
    ensures forall n :: n in c && n != name ==> s.catalog[n] == c[n]
    ensures name in c ==> s.catalog[name] == c[name].(mounts := Dec(c[name].mounts))
    ensures name in c ==> (s.effects != [] <==> c[name].mounts == 1)
    ensures name in c && c[name].mounts == 1 ==>
      s.effects == [Unbind(Mountpoint(name))] && (s.result.Ok? <==> unbind == NoError)
    ensures name in c && c[name].mounts != 1 ==> s.effects == [] && s.result.Ok?
    ensures name in c && s.result.Err? ==> s.result.error == UnmountError(unbind)
  {
    if name !in c then Step(c, Err(NilDereference), [])
    else
      var v := c[name];
      var c' := c[name := v.(mounts := Dec(v.mounts))];
      if c'[name].mounts == 0 then
        Step(c', if unbind == NoError then Ok(()) else Err(UnmountError(unbind)), [Unbind(Mountpoint(name))])
      else
        Step(c', Ok(()), [])
  }
}
