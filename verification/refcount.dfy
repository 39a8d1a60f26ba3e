/**
 * Properties that relate several driver operations: how the mount counter
 * tracks a run of Mount and Unmount requests on one volume, when binds are
 * issued, and the shape of every catalog the operations can reach.
 */
module Refcount {
  import opened Int64s
  import opened Paths
  import opened VolumeCatalog
  import opened Driver

  /** The operating system's answers when every call Mount issues succeeds. */
  const AllSucceed: MountEnv := MountEnv(NoError, NoError, NoError, NoError)

  /** A locked catalog operation, with the outside world's answers to the calls it issues. */
  datatype Action =
    | CreateAct(createSession: Remote, makeDir: Remote)
    | RemoveAct(removeSession: Remote, removeDir: Remote)
    | MountAct(id: string, env: MountEnv)
    | UnmountAct(uid: string, unbind: Errno)

  /** Performing `a` on volume `name`: the new catalog and the calls issued. */
  function Perform(c: Catalog, name: string, a: Action): (Catalog, seq<Effect>)
  {
    match a
    case CreateAct(session, makeDir) => var s := Create(c, name, session, makeDir); (s.catalog, s.effects)
    case RemoveAct(session, removeDir) => var s := Remove(c, name, session, removeDir); (s.catalog, s.effects)
    case MountAct(id, env) => var s := Mount(c, name, id, env); (s.catalog, s.effects)
    case UnmountAct(id, unbind) => var s := Unmount(c, name, id, unbind); (s.catalog, s.effects)
  }

  /**
   * The catalog after performing `steps`, each on its own volume, one after
   * another with the step function `perform`, and every call issued.
   */
  function Run(perform: (Catalog, string, Action) -> (Catalog, seq<Effect>), c: Catalog, steps: seq<(string, Action)>):
    (Catalog, seq<Effect>)
    decreases |steps|
  {
    if steps == [] then (c, [])
    else
      var first := perform(c, steps[0].0, steps[0].1);
      var rest := Run(perform, first.0, steps[1..]);
      (rest.0, first.1 + rest.1)
  }

  /** Every step of `steps` is on volume `name`. */
  predicate OnVolume(steps: seq<(string, Action)>, name: string)
  {
    forall i :: 0 <= i < |steps| ==> steps[i].0 == name
  }

  /** Every step of `steps` is a mount or an unmount. */
  predicate ClaimsOnly(steps: seq<(string, Action)>)
  {
    forall i :: 0 <= i < |steps| ==> steps[i].1.MountAct? || steps[i].1.UnmountAct?
  }

  /** The number of mounts in `steps`. */
  function Mounts(steps: seq<(string, Action)>): nat
    decreases |steps|
  {
    if steps == [] then 0 else (if steps[0].1.MountAct? then 1 else 0) + Mounts(steps[1..])
  }

  /** The number of unmounts in `steps`. */
  function Unmounts(steps: seq<(string, Action)>): nat
    decreases |steps|
  {
    if steps == [] then 0 else (if steps[0].1.UnmountAct? then 1 else 0) + Unmounts(steps[1..])
  }

  /**
   * For a known volume, whatever the operating system answers, the counter
   * moves by exactly +1 per mount and -1 per unmount (as long as it cannot
   * wrap around), the record stays, and no other record changes.
   */
  lemma {:induction false} CounterTracksRequests(c: Catalog, name: string, steps: seq<(string, Action)>)
    requires name in c && OnVolume(steps, name) && ClaimsOnly(steps)
    requires MIN + |steps| <= c[name].mounts as int <= MAX - |steps|
    ensures name in Run(Perform, c, steps).0
    ensures Run(Perform, c, steps).0[name].mounts as int == c[name].mounts as int + Mounts(steps) - Unmounts(steps)
    ensures Run(Perform, c, steps).0.Keys == c.Keys
    ensures forall n :: n in c && n != name ==> Run(Perform, c, steps).0[n] == c[n]
    decreases |steps|
  {
    if steps != [] {
      assert steps[0].0 == name && (steps[0].1.MountAct? || steps[0].1.UnmountAct?);
      var c1 := Perform(c, name, steps[0].1).0;
      assert Run(Perform, c, steps).0 == Run(Perform, c1, steps[1..]).0;
      assert c1[name].mounts as int == c[name].mounts as int + (if steps[0].1.MountAct? then 1 else -1);
      assert forall i :: 0 <= i < |steps[1..]| ==> steps[1..][i] == steps[i + 1];
      CounterTracksRequests(c1, name, steps[1..]);
    }
  }

  /**
   * Starting from a volume the catalog does not know, after a run of mounts
   * and unmounts that opens with a mount, the counter equals the number of
   * mounts minus the number of unmounts; nothing clamps it at zero.
   */
  lemma CounterFromUnknown(c: Catalog, name: string, steps: seq<(string, Action)>)
    requires name !in c && OnVolume(steps, name) && ClaimsOnly(steps)
    requires |steps| > 0 && steps[0].1.MountAct?
    requires |steps| <= MAX
    ensures name in Run(Perform, c, steps).0
    ensures Run(Perform, c, steps).0[name].mounts as int == Mounts(steps) - Unmounts(steps)
  {
    assert steps[0].0 == name;
    var c1 := Mount(c, name, steps[0].1.id, steps[0].1.env).catalog;
    assert Run(Perform, c, steps).0 == Run(Perform, c1, steps[1..]).0;
    assert forall i :: 0 <= i < |steps[1..]| ==> steps[1..][i] == steps[i + 1];
    CounterTracksRequests(c1, name, steps[1..]);
  }

  /** Unmounts of a volume the catalog does not know all fail and change nothing. */
  lemma {:induction false} UnknownUnmountsChangeNothing(c: Catalog, name: string, steps: seq<(string, Action)>)
    requires name !in c && OnVolume(steps, name)
    requires forall i :: 0 <= i < |steps| ==> steps[i].1.UnmountAct?
    ensures Run(Perform, c, steps) == (c, [])
    decreases |steps|
  {
    if steps != [] {
      assert steps[0].0 == name && steps[0].1.UnmountAct?;
      var first := Unmount(c, name, steps[0].1.uid, steps[0].1.unbind);
      assert first.catalog == c && first.effects == [];
      assert forall i :: 0 <= i < |steps[1..]| ==> steps[1..][i] == steps[i + 1];
      UnknownUnmountsChangeNothing(c, name, steps[1..]);
      var rest := Run(Perform, c, steps[1..]);
      assert Run(Perform, c, steps) == (rest.0, first.effects + rest.1);
      assert rest.0 == c && rest.1 == [];
      assert first.effects + rest.1 == [];
    }
  }

  /**
   * A mount issues a bind exactly when its mountpoint could be prepared and
   * the counter before it was at most zero (or the name was unknown); the
   * only other case is the wrap-around from the largest int64.
   */
  lemma MountBindsIffNotPositive(c: Catalog, name: string, id: string, env: MountEnv)
    ensures Binds(Mount(c, name, id, env).effects) <==>
      MountpointReady(env) && (name !in c || c[name].mounts <= 0 || c[name].mounts as int == MAX)
  {
  }

  /** An unmount issues an unbind exactly when the volume is known and its counter was one. */
  lemma UnmountUnbindsIffLast(c: Catalog, name: string, id: string, unbind: Errno)
    ensures Unmount(c, name, id, unbind).effects != [] <==> name in c && c[name].mounts == 1
  {
  }

  /** Every operation keeps the catalog well formed. */
  lemma PerformPreservesWellFormed(c: Catalog, name: string, a: Action)
    requires WellFormed(c)
    ensures WellFormed(Perform(c, name, a).0)
  {
  }

  /** Every catalog the driver reaches from its empty start is well formed. */
  lemma {:induction false} ReachableWellFormed(c: Catalog, steps: seq<(string, Action)>)
    requires WellFormed(c)
    ensures WellFormed(Run(Perform, c, steps).0)
    decreases |steps|
  {
    if steps != [] {
      var first := Perform(c, steps[0].0, steps[0].1);
      PerformPreservesWellFormed(c, steps[0].0, steps[0].1);
      ReachableWellFormed(first.0, steps[1..]);
    }
  }

  /**
   * In a well-formed catalog the mountpoint Mount uses, binds and returns is
   * always the computed one that Path reports and Unmount unbinds: the
   * stored-path fallback never picks a different path.
   */
  lemma MountUsesPath(c: Catalog, name: string, id: string, env: MountEnv)
    requires WellFormed(c)
    ensures Mount(c, name, id, env).catalog[name].mountPath == Path(name)
    ensures Mount(c, name, id, env).result.Ok? ==> Mount(c, name, id, env).result.value == Path(name)
    ensures Binds(Mount(c, name, id, env).effects) ==>
      Bind(RemotePath(name), Path(name)) in Mount(c, name, id, env).effects
  {
  }

  /** In a well-formed catalog, Unmount unbinds the stored mountpoint whenever one is stored. */
  lemma UnmountUnbindsStoredPath(c: Catalog, name: string, id: string, unbind: Errno)
    requires WellFormed(c)
    requires name in c && c[name].mounts == 1 && c[name].mountPath != ""
    ensures Unmount(c, name, id, unbind).effects == [Unbind(c[name].mountPath)]
  {
  }
}
