/**
 * Request sequences on one volume of a fresh driver, every outside call
 * succeeding unless stated: create and mount a volume, mount it twice,
 * release both claims, mount a volume that was never created, and mount
 * again after a failed bind. They hold for every volume name; for a
 * one-component name such as `data` the mountpoint is
 * `/var/lib/docker-volumes/data` and the bound directory `/docker/data`.
 */
module Scenarios {
  import opened Results
  import opened Paths
  import opened VolumeCatalog
  import opened Driver
  import opened Refcount

  /** Create then mount: one `mkdir` of the mountpoint, then the remote directory is bound onto it. */
  lemma CreateThenMount(name: string)
    ensures var created := Create(map[], name, Succeeded, Succeeded);
      var mounted := Mount(created.catalog, name, "c1", AllSucceed);
      && created.result == Ok(())
      && created.catalog == map[name := Volume(name, "", "", 0)]
      && mounted.result == Ok(Mountpoint(name))
      && mounted.effects == [MakeMountpoint(Mountpoint(name)), Bind(RemotePath(name), Mountpoint(name))]
      && mounted.catalog == map[name := Volume(name, "c1", Mountpoint(name), 1)]
  {
    var created := Create(map[], name, Succeeded, Succeeded);
    assert created.catalog == map[name := Volume(name, "", "", 0)];
    assert Add(created.catalog, name, "c1", Mountpoint(name), 1).catalog == map[name := Volume(name, "c1", Mountpoint(name), 1)];
    assert PrepareMountpoint(Mountpoint(name), AllSucceed).effects == [MakeMountpoint(Mountpoint(name))];
  }

  /**
   * Two claims from different clients share one bind: the second mount only
   * prepares the mountpoint, and the first client's ID stays on the record.
   */
  lemma TwoClaimsShareOneBind(name: string)
    ensures var c0 := Create(map[], name, Succeeded, Succeeded).catalog;
      var m1 := Mount(c0, name, "c1", AllSucceed);
      var m2 := Mount(m1.catalog, name, "c2", AllSucceed);
      && m2.result == Ok(Mountpoint(name))
      && m2.effects == [MakeMountpoint(Mountpoint(name))]
      && m2.catalog == map[name := Volume(name, "c1", Mountpoint(name), 2)]
  {
    CreateThenMount(name);
    var c0 := Create(map[], name, Succeeded, Succeeded).catalog;
    var m1 := Mount(c0, name, "c1", AllSucceed);
    assert Add(m1.catalog, name, "c2", Mountpoint(name), 1).catalog == map[name := Volume(name, "c1", Mountpoint(name), 2)];
    assert PrepareMountpoint(Mountpoint(name), AllSucceed).effects == [MakeMountpoint(Mountpoint(name))];
  }

  /** Releasing the two claims of `TwoClaimsShareOneBind` unbinds only with the last one. */
  lemma LastReleaseUnbinds(name: string)
    ensures var c := map[name := Volume(name, "c1", Mountpoint(name), 2)];
      var u1 := Unmount(c, name, "c1", NoError);
      var u2 := Unmount(u1.catalog, name, "c2", NoError);
      && u1.result == Ok(()) && u1.effects == [] && u1.catalog[name].mounts == 1
      && u2.result == Ok(()) && u2.effects == [Unbind(Mountpoint(name))] && u2.catalog[name].mounts == 0
  {
  }

  /** Mounting a name that was never created synthesises its record with one claim and binds it. */
  lemma MountWithoutCreate(name: string)
    ensures var m := Mount(map[], name, "c1", AllSucceed);
      && m.catalog == map[name := Volume(name, "c1", Mountpoint(name), 1)]
      && m.effects == [MakeMountpoint(Mountpoint(name)), Bind(RemotePath(name), Mountpoint(name))]
  {
    assert PrepareMountpoint(Mountpoint(name), AllSucceed).effects == [MakeMountpoint(Mountpoint(name))];
  }

  /** A failed bind is reported but its claim stays counted, so the next mount does not bind. */
  lemma FailedBindKeepsClaim(name: string)
    ensures var m1 := Mount(map[], name, "c1", AllSucceed.(bind := EOTHER));
      var m2 := Mount(m1.catalog, name, "c1", AllSucceed);
      && m1.result == Err(MountError(EOTHER))
      && m1.catalog[name].mounts == 1
      && m2.result == Ok(Mountpoint(name))
      && !Binds(m2.effects)
  {
  }
}
