/**
 * The evidently intended behaviour of the three counter defects of the
 * driver, next to requests that exhibit each defect in the as-written model:
 *  - `add` ignores its count for a known name, so a repeated Create bumps the
 *    counter and the next Mount does not bind;
 *  - Unmount of an unknown name dereferences a nil record;
 *  - Unmount does not stop at zero, so a later pair of mounts binds twice.
 * With `add` honouring its count and Unmount refusing unknown names and
 * releasing nothing below zero, a volume is bound exactly while its counter
 * is positive, for every sequence of Create, Mount and Unmount requests whose
 * outside calls succeed.
 */
module Intended {
  import opened Results
  import opened Int64s
  import opened Paths
  import opened VolumeCatalog
  import opened Driver
  import opened Refcount

  /** `add` moving a known record's counter by its count argument, identity fields reconciled as before. */
  function Add(c: Catalog, name: string, id: string, mountPath: string, delta: int64): (r: Added)
    ensures r.catalog.Keys == c.Keys + {name}
    ensures forall n :: n in c && n != name ==> r.catalog[n] == c[n]
    ensures name !in c ==> r.catalog[name] == Volume(name, id, mountPath, delta) && r.err == None
    ensures name in c && MIN <= c[name].mounts as int + delta as int <= MAX ==>
      r.catalog[name].mounts as int == c[name].mounts as int + delta as int
    ensures name in c ==>
      r.catalog[name].(mounts := c[name].mounts) == VolumeCatalog.Add(c, name, id, mountPath, delta).catalog[name].(mounts := c[name].mounts)
    ensures r.err == VolumeCatalog.Add(c, name, id, mountPath, delta).err
  {
    var reconciled := VolumeCatalog.Add(c, name, id, mountPath, delta);
    if name in c then
      var v := reconciled.catalog[name];
      Added(reconciled.catalog[name := v.(mounts := Wrap(c[name].mounts as int + delta as int))], reconciled.err)
    else
      reconciled
  }

  /** Create registering with count zero: a known volume's record is left exactly as it was. */
  function Create(c: Catalog, name: string, session: Remote, makeDir: Remote): (s: Step<()>)
    ensures session.Failed? ==> s == Step(c, Err(RemoteError), [])
    ensures session.Succeeded? ==> s.effects == [RemoteMakeDir(name)] && (s.result.Ok? <==> makeDir.Succeeded?)
    ensures session.Succeeded? && name in c ==> s.catalog == c
    ensures session.Succeeded? && name !in c ==> s.catalog == c[name := Volume(name, "", "", 0)]
  {
    if session.Failed? then Step(c, Err(RemoteError), [])
    else
      var added := Add(c, name, "", "", 0);
      assert name in c ==> added.catalog[name] == c[name];
      match added.err
      case Some(mismatch) => Step(added.catalog, Err(ConflictError(mismatch)), [])
      case None => Step(added.catalog, if makeDir.Succeeded? then Ok(()) else Err(RemoteError), [RemoteMakeDir(name)])
  }

  /**
   * Unmount refusing a name the catalog does not know, and releasing nothing
   * when no claim is outstanding; otherwise as written.
   */
  function Unmount(c: Catalog, name: string, id: string, unbind: Errno): (s: Step<()>)
    ensures name !in c ==> s == Step(c, Err(NotFound(name)), [])
    ensures name in c && c[name].mounts <= 0 ==> s == Step(c, Ok(()), [])
    ensures name in c && c[name].mounts > 0 ==>
      s.catalog == c[name := c[name].(mounts := c[name].mounts - 1)]
    ensures name in c && c[name].mounts > 0 ==> (s.effects == [Unbind(Mountpoint(name))] <==> c[name].mounts == 1)
    ensures name in c && c[name].mounts > 1 ==> s.effects == []
  {
    if name !in c then Step(c, Err(NotFound(name)), [])
    else if c[name].mounts <= 0 then Step(c, Ok(()), [])
    else Driver.Unmount(c, name, id, unbind)
  }

  /** `a` is a Create, Mount or Unmount whose outside calls all succeed. */
  predicate Untroubled(a: Action)
  {
    match a
    case CreateAct(session, makeDir) => session.Succeeded? && makeDir.Succeeded?
    case RemoveAct(_, _) => false
    case MountAct(_, env) => env == AllSucceed
    case UnmountAct(_, unbind) => unbind == NoError
  }

  /** Performing `a` on volume `name` with Create and Unmount as intended: the new catalog and the calls issued. */
  function Perform(c: Catalog, name: string, a: Action): (Catalog, seq<Effect>)
  {
    match a
    case CreateAct(session, makeDir) => var s := Create(c, name, session, makeDir); (s.catalog, s.effects)
    case UnmountAct(id, unbind) => var s := Unmount(c, name, id, unbind); (s.catalog, s.effects)
    case _ => Refcount.Perform(c, name, a)
  }

  /** Binds minus unbinds among `effects`: how many times the volume is bound afterwards. */
  function Balance(effects: seq<Effect>): int
    decreases |effects|
  {
    if effects == [] then 0
    else (if effects[0].Bind? then 1 else if effects[0].Unbind? then -1 else 0) + Balance(effects[1..])
  }

  lemma {:induction false} BalanceAppend(a: seq<Effect>, b: seq<Effect>)
    ensures Balance(a + b) == Balance(a) + Balance(b)
    decreases |a|
  {
    if a != [] {
      assert (a + b)[1..] == a[1..] + b;
      BalanceAppend(a[1..], b);
    } else {
      assert a + b == b;
    }
  }

  /** When every call succeeds, Mount issues one `mkdir` and then a bind exactly when the counter is at most one. */
  lemma MountWhenAllSucceed(c: Catalog, name: string, id: string)
    ensures var s := Mount(c, name, id, AllSucceed);
      var mp := s.catalog[name].mountPath;
      && s.result == Ok(mp)
      && s.effects == [MakeMountpoint(mp)] + (if s.catalog[name].mounts <= 1 then [Bind(RemotePath(name), mp)] else [])
      && Balance(s.effects) == (if s.catalog[name].mounts <= 1 then 1 else 0)
  {
    var s := Mount(c, name, id, AllSucceed);
    var mp := s.catalog[name].mountPath;
    assert PrepareMountpoint(mp, AllSucceed).effects == [MakeMountpoint(mp)];
    BalanceAppend([MakeMountpoint(mp)], [Bind(RemotePath(name), mp)]);
  }

  /**
   * The volume is bound once exactly while its counter is positive, and the
   * counter is never negative; a volume the catalog does not know is not bound.
   */
  ghost predicate BoundWhilePositive(c: Catalog, name: string, balance: int)
  {
    if name in c then 0 <= c[name].mounts && balance == (if c[name].mounts > 0 then 1 else 0)
    else balance == 0
  }

  /** One intended, untroubled operation keeps the volume bound exactly while its counter is positive. */
  lemma PerformKeepsBoundWhilePositive(c: Catalog, name: string, a: Action, balance: int)
    requires BoundWhilePositive(c, name, balance)
    requires Untroubled(a)
    requires name in c ==> c[name].mounts as int < MAX
    ensures var r := Perform(c, name, a);
      && BoundWhilePositive(r.0, name, balance + Balance(r.1))
      && (name in r.0 ==> r.0[name].mounts as int <= (if name in c then c[name].mounts as int else 0) + 1)
  {
    var r := Perform(c, name, a);
    match a
    case CreateAct(_, _) =>
      assert Balance(r.1) == 0;
    case RemoveAct(_, _) =>
      assert false;
    case MountAct(id, _) =>
      MountWhenAllSucceed(c, name, id);
    case UnmountAct(_, _) =>
      if name in c && c[name].mounts == 1 {
        assert Balance(r.1) == -1;
      } else {
        assert r.1 == [];
      }
  }

  /**
   * Intended behaviour, for every sequence of Create, Mount and Unmount
   * requests on one volume whose outside calls succeed: starting bound
   * exactly while the counter is positive, the volume stays so, so each first
   * claim binds once and each last release unbinds once.
   */
  lemma {:induction false} BoundIffPositive(c: Catalog, name: string, steps: seq<(string, Action)>, balance: int)
    requires BoundWhilePositive(c, name, balance)
    requires OnVolume(steps, name)
    requires forall i :: 0 <= i < |steps| ==> Untroubled(steps[i].1)
    requires name in c ==> c[name].mounts as int + |steps| <= MAX
    requires |steps| <= MAX
    ensures var r := Run(Perform, c, steps);
      BoundWhilePositive(r.0, name, balance + Balance(r.1))
    decreases |steps|
  {
    if steps != [] {
      assert steps[0].0 == name && Untroubled(steps[0].1);
      var first := Perform(c, name, steps[0].1);
      PerformKeepsBoundWhilePositive(c, name, steps[0].1, balance);
      var rest := Run(Perform, first.0, steps[1..]);
      assert forall i :: 0 <= i < |steps[1..]| ==> steps[1..][i] == steps[i + 1];
      BoundIffPositive(first.0, name, steps[1..], balance + Balance(first.1));
      BalanceAppend(first.1, rest.1);
    }
  }

  /**
   * As written, creating an already created, unmounted volume again bumps its
   * counter, whether or not the remote `MakeDir` then fails on the existing
   * directory (the registration comes first), so the next mount, though it
   * succeeds, binds nothing: Docker is handed a mountpoint on which the
   * volume is not mounted.
   */
  lemma RepeatedCreateSkipsBind(c: Catalog, name: string, id: string, makeDir: Remote)
    requires name in c && c[name].mounts == 0
    ensures var again := Driver.Create(c, name, Succeeded, makeDir);
      var m := Mount(again.catalog, name, id, AllSucceed);
      && (again.result.Ok? <==> makeDir.Succeeded?)
      && again.catalog[name].mounts == 1
      && m.result.Ok?
      && m.catalog[name].mounts == 2
      && !Binds(m.effects)
  {
  }

  /** As intended, creating it again changes nothing, whatever `MakeDir` answers, and the next mount binds. */
  lemma RepeatedCreateKeepsBind(c: Catalog, name: string, id: string, makeDir: Remote)
    requires name in c && c[name].mounts == 0
    ensures var again := Create(c, name, Succeeded, makeDir);
      var m := Mount(again.catalog, name, id, AllSucceed);
      && (again.result.Ok? <==> makeDir.Succeeded?)
      && again.catalog == c
      && m.result.Ok?
      && m.catalog[name].mounts == 1
      && Binds(m.effects)
  {
  }

  /**
   * As written, an unmount of an unmounted volume drives its counter to -1;
   * the next two mounts then both see a counter of at most one and both bind,
   * with no unbind between them.
   */
  lemma StrayUnmountBindsTwice(c: Catalog, name: string, id: string)
    requires name in c && c[name].mounts == 0
    ensures var u := Driver.Unmount(c, name, id, NoError);
      var m1 := Mount(u.catalog, name, id, AllSucceed);
      var m2 := Mount(m1.catalog, name, id, AllSucceed);
      && u.result == Ok(()) && u.effects == [] && u.catalog[name].mounts == -1
      && Binds(m1.effects) && Binds(m2.effects)
      && m2.catalog[name].mounts == 1
  {
  }

  /** As intended, the stray unmount releases nothing and only the first of the two mounts binds. */
  lemma StrayUnmountReleasesNothing(c: Catalog, name: string, id: string)
    requires name in c && c[name].mounts == 0
    ensures var u := Unmount(c, name, id, NoError);
      var m1 := Mount(u.catalog, name, id, AllSucceed);
      var m2 := Mount(m1.catalog, name, id, AllSucceed);
      && u == Step(c, Ok(()), [])
      && Binds(m1.effects) && !Binds(m2.effects)
      && m2.catalog[name].mounts == 2
  {
  }

  /** As written, unmounting a name the catalog does not know faults; as intended it is reported not found. */
  lemma UnknownUnmountFaults(name: string, id: string, unbind: Errno)
    ensures Driver.Unmount(map[], name, id, unbind).result == Err(NilDereference)
    ensures Unmount(map[], name, id, unbind) == Step(map[], Err(NotFound(name)), [])
  {
  }
}
