/**
 * The driver's in-memory volume catalog (`Driver.volumes`) and its single
 * mutator `add`, which either registers a new record or bumps the counter of
 * a known one and reconciles its identity fields.
 */
module VolumeCatalog {
  import opened Results
  import opened Int64s
  import opened Paths

  /** One catalog record: `ID` is the last mounting client, `mounts` the reference count. */
  datatype Volume = Volume(name: string, id: string, mountPath: string, mounts: int64)

  /** Volume name to record. */
  type Catalog = map<string, Volume>

  /** The error `add` reports when a given value disagrees with a stored one. */
  datatype Mismatch =
    | IdMismatch(storedId: string, givenId: string)
    | PathMismatch(storedPath: string, givenPath: string)

  /** The catalog after `add`, and the error it returned, if any. */
  datatype Added = Added(catalog: Catalog, err: Option<Mismatch>)

  /** A given non-empty value disagrees with a stored non-empty one. */
  predicate Conflicts(stored: string, given: string)
  {
    stored != "" && given != "" && stored != given
  }

  /** An empty stored value is filled in with the given one; a non-empty one is kept. */
  function Merge(stored: string, given: string): string
  {
    if stored == "" then given else stored
  }

  /**
   * `add(name, ID, mountPath, mounts)`. For an unknown name it inserts the
   * record the arguments describe. For a known name it ignores `mounts` and
   * increments the stored counter by one, fills in empty identity fields,
   * and reports a mismatch for a conflicting one without undoing anything;
   * when both fields conflict the path mismatch is the one returned.
   */
  function Add(c: Catalog, name: string, id: string, mountPath: string, mounts: int64): (r: Added)
    ensures r.catalog.Keys == c.Keys + {name}
    ensures forall n :: n in c && n != name ==> r.catalog[n] == c[n]
    ensures name !in c ==> r.catalog[name] == Volume(name, id, mountPath, mounts) && r.err == None
    ensures name in c ==> r.catalog[name].name == c[name].name
    ensures name in c ==> r.catalog[name].mounts == Inc(c[name].mounts)
    ensures name in c && c[name].id != "" ==> r.catalog[name].id == c[name].id
    ensures name in c && c[name].id == "" ==> r.catalog[name].id == id
    ensures name in c && c[name].mountPath != "" ==> r.catalog[name].mountPath == c[name].mountPath
    ensures name in c && c[name].mountPath == "" ==> r.catalog[name].mountPath == mountPath
    ensures name in c ==>
      (r.err.Some? <==> Conflicts(c[name].id, id) || Conflicts(c[name].mountPath, mountPath))
    ensures name in c && Conflicts(c[name].mountPath, mountPath) ==>
      r.err == Some(PathMismatch(c[name].mountPath, mountPath))
    ensures name in c && !Conflicts(c[name].mountPath, mountPath) && Conflicts(c[name].id, id) ==>
      r.err == Some(IdMismatch(c[name].id, id))
  {
    if name in c then
      var v := c[name];
      var err :=
        if Conflicts(v.mountPath, mountPath) then Some(PathMismatch(v.mountPath, mountPath))
        else if Conflicts(v.id, id) then Some(IdMismatch(v.id, id))
        else None;
      var v' := v.(mounts := Inc(v.mounts), id := Merge(v.id, id), mountPath := Merge(v.mountPath, mountPath));
      Added(c[name := v'], err)
    else
      Added(c[name := Volume(name, id, mountPath, mounts)], None)
  }

  /** For a known name, nothing `add` does depends on its count argument. */
  lemma AddIgnoresCountOfKnownName(c: Catalog, name: string, id: string, mountPath: string, m1: int64, m2: int64)
    requires name in c
    ensures Add(c, name, id, mountPath, m1) == Add(c, name, id, mountPath, m2)
  {
  }

  /**
   * Repeating the same `add` reports the same verdict: a conflicting value is
   * never stored, so it conflicts again, and a compatible one stays compatible.
   */
  lemma AddRetryKeepsVerdict(c: Catalog, name: string, id: string, mountPath: string, mounts: int64)
    ensures var once := Add(c, name, id, mountPath, mounts);
      Add(once.catalog, name, id, mountPath, mounts).err == once.err
  {
  }

  /**
   * The shape every record reached through the driver's operations has: it is
   * filed under its own name and its path is either unset or the volume's
   * computed mountpoint.
   */
  ghost predicate WellFormed(c: Catalog)
  {
    forall n :: n in c ==> c[n].name == n && (c[n].mountPath == "" || c[n].mountPath == Mountpoint(n))
  }

  /** `add` keeps the catalog well formed when given an unset path or the volume's own mountpoint. */
  lemma AddPreservesWellFormed(c: Catalog, name: string, id: string, mountPath: string, mounts: int64)
    requires WellFormed(c)
    requires mountPath == "" || mountPath == Mountpoint(name)
    ensures WellFormed(Add(c, name, id, mountPath, mounts).catalog)
    ensures Add(c, name, id, mountPath, mounts).err.Some? ==>
      Add(c, name, id, mountPath, mounts).err.value.IdMismatch?
  {
  }
}
