# CephFS volume plugin: catalog and mount reference counting

A Dafny model of the core of a Docker volume plugin that exposes directories
of a shared CephFS filesystem as named volumes. The core is the driver's
in-memory volume catalog, a map from volume name to a record
`Volume{name, ID, mountPath, mounts}`, and the plugin operations that read or
change it:

- `add`, which registers a record or bumps and reconciles an existing one;
- `Create`, `Remove`, `Mount`, `Unmount` and `List`;
- the mountpoint computation shared by `Path`, `Get` and `Mount`;
- `Capabilities`, which declares the fixed scope `"global"` (`Driver.Scope`).

Each locked operation is one atomic, pure step: `Catalog` in, and out come
the new `Catalog`, the reply (`Result<T, Error>`), and the calls it issued, in
order (`Effect`: remote `MakeDir`/`RemoveDir`, `mkdir` of a mountpoint,
`Bind(remotePath, mountpoint)`, `Unbind(mountpoint)`). The outside world
enters as parameters:

- `Remote` is the outcome of a call into the CephFS client: opening a session, `MakeDir`, `RemoveDir`, `OpenDir`;
- `Errno` is the answer of a system call: `mkdir`, `mount`, `umount`;
- `List` receives the entries the directory reads yield;
- `Get` receives the directory its `ChangeDir` probe lands in.

The modules follow the program's structure:

- `Int64s` holds the `int64` counter with explicit two's-complement wrap-around;
- `Paths` holds Go's `path.Join` with its lexical cleaning, the Docker mountpoint root and the remote base directory;
- `VolumeCatalog` holds `Volume` and `add`;
- `Listing` holds what `List` reports;
- `Driver` holds the plugin operations;
- `Refcount` holds the properties that relate several operations: counter arithmetic, when binds and unbinds happen, and the shape of every reachable catalog;
- `Scenarios` holds request sequences on one volume, for every volume name;
- `Intended` holds the corrected behaviour for the defects under "## Findings".

The `Driver` module follows the code as written, including its quirks:

- `add` ignores its count argument for a known name, so a repeated `Create` bumps the counter;
- `Mount` binds whenever the counter is at most one after the increment;
- the counter is not clamped at zero;
- `Unmount` of an unknown name dereferences a nil record. This is modelled as the explicit error outcome `NilDereference`, with the catalog unchanged and no calls issued;
- `Create` registers the record before the remote `MakeDir`;
- `Unmount` unbinds the computed `Join(root, name)`, not the stored path.

Further choices of the code that the model keeps:

- a known name's counter moves by one, whatever count is given to `add`;
- `Create` registers before it creates the remote directory, and can never report a conflict;
- `Mount` swallows `add`'s mismatch error; on any mismatch, of the ID or the path, it uses the stored path;
- the counter can go negative;
- `Unmount` of an unknown name faults; it never reports "not found";
- volume names are never checked (main.go:190, 276, 310, 343). A name with a slash, `.` or `..` is cleaned into the path by `path.Join`, so `Mount("..")` binds the root of the shared filesystem onto `/var/lib` (`Paths.DotDotEscapesRoots`). The containment and injectivity properties of paths are therefore stated for one-component names.

The constant `volume.DefaultDockerRootDirectory`, `/var/lib/docker-volumes`,
belongs to Docker's plugin helper library. That library is not part of this
model.

## Model

| member | source | states |
|---|---|---|
| `Int64s.Wrap` | main.go:40 | the int64 value a Go `int64` computation yields: congruent to the exact result modulo 2^64, and equal to it when in range |
| `Int64s.Inc` | main.go:64 | `mounts++` is the wrapped successor: exactly one more below the maximum, the minimum after it |
| `Int64s.Dec` | main.go:331 | `mounts--` is the wrapped predecessor: exactly one less above the minimum |
| `Int64s.IncDecInverse` | main.go:331 | one decrement undoes one increment and vice versa, across the wrap too |
| `Paths.Join` | main.go:276 | `path.Join(dir, name)` is empty only when both arguments are, and rooted whenever `dir` is |
| `Paths.JoinOfComponent` | main.go:276 | for a clean directory and a one-component name (not empty, `.` or `..`, no slash), `path.Join` is the directory, one slash, then the name |
| `Paths.JoinOfEmpty` | main.go:276 | joining a clean directory and the empty name gives the directory back |
| `Paths.JoinIgnoresTrailingSlash` | main.go:276 | `path.Join(dir, name + "/")` equals `path.Join(dir, name)` for every non-empty directory and every name |
| `Paths.RootsAreClean` | main.go:310 | the Docker root and the remote base directory are already clean, so one-component names are appended to them unchanged |
| `Paths.JoinInjective` | main.go:276 | for one-component names, joining onto one clean directory never maps two names to the same path |
| `Paths.Mountpoint` | main.go:276 | the computed mountpoint is rooted; for a one-component name it lies directly under the Docker root, and for the empty name it is the Docker root |
| `Paths.RemotePath` | main.go:310 | the bound directory is rooted; for a one-component name it lies directly under the remote base directory `/docker` |
| `Paths.MountpointInjective` | main.go:343 | distinct one-component names never share a computed mountpoint |
| `Paths.MountpointsCollide` | main.go:276 | without that hypothesis mountpoints do collide: a name and the same name with a trailing slash share one |
| `Paths.DotDotEscapesRoots` | main.go:276 | the unchecked name `..` is cleaned away: its mountpoint is `/var/lib` and its bound directory `/`, outside both roots |
| `VolumeCatalog.Add` | main.go:61-84 | unknown name: the one record the arguments describe is inserted, with no error. Known name: the counter moves by exactly one whatever the count argument is, and an empty ID or path is filled in while a non-empty one never changes. An error is reported iff a given non-empty value differs from a stored non-empty one; the path mismatch wins when both differ, and nothing is rolled back. No other record changes |
| `VolumeCatalog.AddIgnoresCountOfKnownName` | main.go:63-64 | for a known name the whole outcome of `add` is independent of its count argument |
| `VolumeCatalog.AddRetryKeepsVerdict` | main.go:61-84 | for a known or a new name, a conflicting value is never stored, so repeating the same `add` reports the same error, or again none |
| `VolumeCatalog.AddPreservesWellFormed` | main.go:61-84 | given an empty path or the volume's own mountpoint, `add` keeps every record filed under its name with an unset or computed path, and can then only report an ID mismatch |
| `Listing.Decorated` | main.go:211-224 | the listing is never longer than the entries read |
| `Listing.DecoratedSound` | main.go:213-220 | every reported volume is a read entry other than `.` and `..`, carrying the catalog's stored path when the catalog knows it and an empty one otherwise, so catalog-only names never appear |
| `Listing.DecoratedComplete` | main.go:212-222 | every read entry other than `.` and `..` is reported |
| `Listing.DecoratedAppend` | main.go:211-224 | the listing keeps the read order: the listing of concatenated reads is the concatenation of their listings |
| `Listing.DecoratedLength` | main.go:214 | exactly the pseudo-entries are dropped |
| `Driver.Scope` | main.go:174-178 | `Capabilities` always declares the scope `"global"`: a volume is shared by every host of the cluster |
| `Driver.Create` | main.go:179-194 | a failed session changes nothing. Otherwise the name is registered before the remote `MakeDir` and stays registered when it fails: an unknown name gets a record with counter 0 and no ID or path, a known one gets its counter bumped. The reply is an error exactly when `MakeDir` fails, and it is never a conflict |
| `Driver.Remove` | main.go:246-267 | the record is deleted only when the session and the remote `RemoveDir` succeed, whatever its counter. On failure the catalog is unchanged, and no other record is touched |
| `Driver.Path` | main.go:339-344 | computed without catalog or cluster, the mountpoint is rooted: the Docker root itself for an empty name, the root, a slash and the name for a one-component name |
| `Driver.Get` | main.go:228-245 | success iff the session opens and the directory probe lands somewhere other than the base directory. It then reports the computed mountpoint, and the catalog plays no part. A probe that stays in the base directory means "not found" |
| `Driver.List` | main.go:195-227 | fails iff the session or the directory cannot be opened; otherwise returns exactly the decorated listing of the entries read |
| `Driver.PrepareMountpoint` | main.go:283-308 | the mountpoint is usable iff its `mkdir` succeeds or finds it existing, or finds its parent missing and both the parent's `mkdir` and the retry succeed. The calls issued are `mkdir(mp)`, then `mkdir(root)` only on a missing parent, then the retry `mkdir(mp)` only when `mkdir(root)` succeeded. A failure reports the failing call's own error: the first call's for an error other than "missing" or "exists", else the root's, else the retry's |
| `Driver.MountOnto` | main.go:283-320 | after `add`: the calls are exactly the mountpoint preparation's, followed by a bind of `/docker/<name>` onto the mountpoint iff the mountpoint is usable and the counter is at most one. The reply is the mountpoint iff neither `mkdir` nor the issued bind failed; an unusable mountpoint reports the preparation's error, a failed bind its own |
| `Driver.Mount` | main.go:268-321 | the record's counter moves by one, and an unknown name gets a record with counter 1. A known record keeps its name and a set ID, and an empty ID is filled in with the client's. The mountpoint used, bound and returned is the record's stored path, which a previously stored path wins over the computed one. The calls are the mountpoint preparation's, then a bind iff the mountpoint is usable and the counter is at most one afterwards; a failure reports the failing call's own error. Failures leave the increment in place, and add mismatches are never reported |
| `Driver.Unmount` | main.go:322-338 | unknown name: nil-dereference fault, nothing changes, nothing issued. Known name: the counter moves down by exactly one, and an unbind of the computed mountpoint is issued iff the counter was exactly one; otherwise the reply is success with no call |
| `Refcount.CounterTracksRequests` | main.go:277 | for a known volume, after any mix of mounts and unmounts with any OS answers, the counter equals its start plus #mounts minus #unmounts, and no other record changes |
| `Refcount.CounterFromUnknown` | main.go:330-331 | from an unknown name, a run opening with a mount leaves the counter at #mounts minus #unmounts, unclamped |
| `Refcount.UnknownUnmountsChangeNothing` | main.go:330-333 | unmounts of a name the catalog does not know leave the catalog as it was and issue nothing |
| `Refcount.MountBindsIffNotPositive` | main.go:309 | a mount binds iff its mountpoint is usable and the prior counter was at most zero (or absent), or at the int64 maximum, where it wraps |
| `Refcount.UnmountUnbindsIffLast` | main.go:333-334 | an unmount unbinds iff the volume is known and its counter was exactly one |
| `Refcount.PerformPreservesWellFormed` | main.go:179-338 | every operation keeps each record filed under its own name with an unset or computed path |
| `Refcount.ReachableWellFormed` | main.go:57 | every catalog reachable from the empty one through any history of operations is well formed |
| `Refcount.MountUsesPath` | main.go:276-282 | in a reachable catalog, the mountpoint Mount stores, binds and returns is the one `Path` reports and `Unmount` unbinds |
| `Refcount.UnmountUnbindsStoredPath` | main.go:334 | in a reachable catalog, the computed path Unmount unbinds equals the stored path whenever one is stored |
| `Scenarios.CreateThenMount` | main.go:268-321 | for any name, Create then Mount returns the computed mountpoint after one `mkdir` of it and a bind of the remote directory onto it, leaving the record with the client's ID and counter 1 |
| `Scenarios.TwoClaimsShareOneBind` | main.go:268-321 | a second client's mount reuses the bind and keeps the first ID, leaving the counter at 2 |
| `Scenarios.LastReleaseUnbinds` | main.go:322-337 | from those two claims, the first unmount issues nothing and the second unbinds the mountpoint |
| `Scenarios.MountWithoutCreate` | main.go:75-81 | mounting a never-created name synthesises its record with counter 1 and binds it |
| `Scenarios.FailedBindKeepsClaim` | main.go:310-316 | a failed bind is reported but its claim stays counted, so the next mount binds nothing |
| `Intended.Add` | main.go:61-84 | as `add`, but a known record's counter moves by the count argument; the reconciliation and the error are unchanged |
| `Intended.Create` | main.go:190 | registering a known volume again leaves its record exactly as it was |
| `Intended.Unmount` | main.go:330-337 | an unknown name is reported not found with nothing changed; with no claim outstanding nothing is released; otherwise one claim is released, unbinding with the last |
| `Intended.MountWhenAllSucceed` | main.go:283-320 | when every call succeeds, Mount issues one `mkdir` and then a bind iff the counter is at most one |
| `Intended.PerformKeepsBoundWhilePositive` | main.go:309-334 | one corrected Create, Mount or Unmount whose outside calls succeed keeps the volume bound once exactly while its counter is positive |
| `Intended.BoundIffPositive` | main.go:309-334 | corrected behaviour, any sequence of Create/Mount/Unmount whose calls succeed: the counter stays non-negative and binds minus unbinds is 1 while it is positive, else 0 |
| `Intended.RepeatedCreateSkipsBind` | main.go:63-64 | as written, Create of a created, unmounted volume bumps its counter whether or not the remote `MakeDir` fails, so the next Mount succeeds with counter 2 and no bind |
| `Intended.RepeatedCreateKeepsBind` | main.go:63-64 | as intended, the same Create changes nothing, whatever `MakeDir` answers, and the next Mount binds |
| `Intended.StrayUnmountBindsTwice` | main.go:331 | as written, an unmount at 0 drives the counter to -1 and the next two mounts both bind |
| `Intended.StrayUnmountReleasesNothing` | main.go:331 | as intended, that unmount releases nothing and only the first of the two mounts binds |
| `Intended.UnknownUnmountFaults` | main.go:333 | as written an unknown name faults; as intended it is reported not found with nothing changed |

## Left out

- Locking: the `sync.RWMutex` (main.go:49) is not modelled. Each locked operation is one atomic step, and interleavings, including those of the unlocked `Get` and `Path`, are not modelled.
- Cluster connection, session setup and base-directory bootstrap (main.go:110-167): these are remote I/O, reduced to a single `Remote` outcome per operation.
- Remote directories are not modelled as state. Their calls' outcomes are parameters, so a Create-then-Get round trip is not stated: `Get`'s answer comes from its probe parameter.
- `List`: a read error and the end of the directory both end the loop (main.go:212). The model receives only the entries read before that point. `dir.Close` is not modelled.
- The bind device string `servers:path` and the `name=…,secret=…` option string (main.go:97-105): these are configuration and secrets. A bind records only the remote path and the mountpoint.
- Go's `path` package is not part of this model. `Paths.Join` and `Paths.Clean` follow its documented lexical rules.
- Configuration loading, the socket handler and `main` (main.go:86-92, 350-377): these are environment, file and socket I/O.
- Debug logging throughout: it has no effect on state.
- `Refcount.CounterTracksRequests`: stated only while the counter cannot wrap around, that is for fewer requests than the distance to the int64 limits. The wrap itself is modelled by `Int64s.Inc` and `Int64s.Dec`.
- `Refcount.CounterFromUnknown`: stated for runs that open with a mount. Unmounts before the first mount fault, as `Refcount.UnknownUnmountsChangeNothing` states.
- `Intended.BoundIffPositive`: stated for runs where every outside call succeeds, and without `Remove`. A failed bind keeps its claim, and `Remove` ignores the counter. In both cases the source leaves a counter that disagrees with the binds, and the model keeps that behaviour.

## Findings

| source | as written | input that shows it | evidently intended | confidence | as-written member | corrected member |
|---|---|---|---|---|---|---|
| main.go:63-64 | `add` on a known name always does `mounts++`, so `Create`'s `add(name, "", "", 0)` bumps the counter | `Create("v")`, `Create("v")`, `Mount("v")`: counter 2, no bind, Mount replies with a mountpoint on which nothing is mounted | a known record's counter moves by the count argument, so Create leaves it alone | not executed; high | `Intended.RepeatedCreateSkipsBind` | `Intended.Create` |
| main.go:330-333 | the counter of `d.volumes[r.Name]` is read even when the name is unknown, dereferencing a nil record | `Unmount("ghost")` on an empty catalog | report "not found" and change nothing | not executed; high | `Intended.UnknownUnmountFaults` | `Intended.Unmount` |
| main.go:331 | the counter is decremented with no lower bound | `Create("v")`, `Unmount("v")`, `Mount("v")`, `Mount("v")`: counter -1, then two binds with no unbind between them | an unmount with no outstanding claim releases nothing, so the counter is never negative | not executed; medium | `Intended.StrayUnmountBindsTwice` | `Intended.BoundIffPositive` |
