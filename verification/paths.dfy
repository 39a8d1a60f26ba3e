/**
 * The paths the driver computes: local mountpoints and remote volume
 * directories, both built with Go's `path.Join`, which cleans its result
 * lexically (`path.Clean`): empty and `.` fields vanish, `..` removes the
 * field before it, and a trailing slash is dropped.
 */
module Paths {

  /** Docker's default root for plugin mountpoints (`volume.DefaultDockerRootDirectory`). */
  const DockerRoot: string := "/var/lib/docker-volumes"

  /** The directory of the shared filesystem holding one sub-directory per volume. */
  const BaseDir: string := "/docker"

  /** `name` is a single path component: `Join` appends it unchanged. */
  predicate OneComponent(name: string)
  {
    name != "" && name != "." && name != ".." && '/' !in name
  }

  /** The slash-separated fields of `p`, empty ones included: `a//b` has the fields `a`, ``, `b`. */
  function Fields(p: string): (fs: seq<string>)
    ensures |fs| >= 1
    decreases |p|
  {
    if p == [] then [""]
    else
      var rest := Fields(p[1..]);
      if p[0] == '/' then [""] + rest else [[p[0]] + rest[0]] + rest[1..]
  }

  /** The names `Clean` keeps once it has also read field `f`. */
  function Resolve1(rooted: bool, names: seq<string>, f: string): (kept: seq<string>)
    requires forall i :: 0 <= i < |names| ==> names[i] != ""
    ensures forall i :: 0 <= i < |kept| ==> kept[i] != ""
  {
    if f == "" || f == "." then names
    else if f == ".." then
      if |names| > 0 && names[|names| - 1] != ".." then names[..|names| - 1]
      else if rooted then names
      else names + [".."]
    else names + [f]
  }

  /** The names `Clean` keeps from the fields `fs`, read left to right. */
  function Resolve(rooted: bool, fs: seq<string>): (kept: seq<string>)
    ensures forall i :: 0 <= i < |kept| ==> kept[i] != ""
    decreases |fs|
  {
    if fs == [] then [] else Resolve1(rooted, Resolve(rooted, fs[..|fs| - 1]), fs[|fs| - 1])
  }

  /** `names` separated by single slashes. */
  function Slashed(names: seq<string>): (s: string)
    requires names != []
    ensures |s| >= |names[0]|
    decreases |names|
  {
    if |names| == 1 then names[0] else Slashed(names[..|names| - 1]) + "/" + names[|names| - 1]
  }

  /** The kept names written out: after a leading slash when rooted, `/` or `.` when there are none. */
  function Render(rooted: bool, names: seq<string>): string
  {
    if names == [] then (if rooted then "/" else ".")
    else if rooted then "/" + Slashed(names)
    else Slashed(names)
  }

  /** `path.Clean(p)`. */
  function Clean(p: string): (q: string)
    ensures q != ""
    ensures p != "" && p[0] == '/' ==> q[0] == '/'
  {
    if p == "" then "."
    else
      var rooted := p[0] == '/';
      Render(rooted, Resolve(rooted, Fields(p)))
  }

  /** `path.Join(dir, name)`: the non-empty arguments joined with a slash, then cleaned. */
  function Join(dir: string, name: string): (p: string)
    ensures p == "" <==> dir == "" && name == ""
    ensures dir != "" && dir[0] == '/' ==> p[0] == '/'
  {
    if dir == "" && name == "" then ""
    else if dir == "" then Clean(name)
    else Clean(dir + "/" + name)
  }

  lemma {:induction false} FieldsConcat(a: string, b: string)
    ensures Fields(a + "/" + b) == Fields(a) + Fields(b)
    decreases |a|
  {
    if a == [] {
      assert (a + "/" + b)[1..] == b;
    } else {
      assert (a + "/" + b)[1..] == a[1..] + "/" + b;
      FieldsConcat(a[1..], b);
    }
  }

  lemma FieldsRooted(b: string)
    ensures Fields("/" + b) == [""] + Fields(b)
  {
    assert ("/" + b)[1..] == b;
  }

  lemma {:induction false} FieldsOfComponent(name: string)
    requires '/' !in name
    ensures Fields(name) == [name]
    decreases |name|
  {
    if name != [] {
      FieldsOfComponent(name[1..]);
      assert name == [name[0]] + name[1..];
    }
  }

  lemma ResolveSnoc(rooted: bool, fs: seq<string>, f: string)
    ensures Resolve(rooted, fs + [f]) == Resolve1(rooted, Resolve(rooted, fs), f)
  {
    assert (fs + [f])[..|fs|] == fs;
  }

  /** A directory that `Clean` leaves alone, other than the bare root or `.`. */
  predicate CleanDir(dir: string)
  {
    dir != "" && dir != "/" && dir != "." && Clean(dir) == dir
  }

  /** Joining a clean directory and a one-component name is plain concatenation with one slash. */
  lemma JoinOfComponent(dir: string, name: string)
    requires CleanDir(dir) && OneComponent(name)
    ensures Join(dir, name) == dir + "/" + name
  {
    var rooted := dir[0] == '/';
    FieldsConcat(dir, name);
    FieldsOfComponent(name);
    ResolveSnoc(rooted, Fields(dir), name);
    var kept := Resolve(rooted, Fields(dir));
    assert Resolve(rooted, Fields(dir + "/" + name)) == kept + [name];
    assert kept != [];
    assert (kept + [name])[..|kept|] == kept;
  }

  /** Joining a clean directory and the empty name gives the directory back. */
  lemma JoinOfEmpty(dir: string)
    requires CleanDir(dir)
    ensures Join(dir, "") == dir
  {
    var rooted := dir[0] == '/';
    FieldsConcat(dir, "");
    assert Fields("") == [""];
    ResolveSnoc(rooted, Fields(dir), "");
    assert Resolve(rooted, Fields(dir + "/" + "")) == Resolve(rooted, Fields(dir));
  }

  lemma {:induction false} FieldsOfSlashed(names: seq<string>)
    requires names != []
    requires forall i :: 0 <= i < |names| ==> OneComponent(names[i])
    ensures Fields(Slashed(names)) == names
    decreases |names|
  {
    var last := names[|names| - 1];
    FieldsOfComponent(last);
    if |names| > 1 {
      var init := names[..|names| - 1];
      FieldsOfSlashed(init);
      FieldsConcat(Slashed(init), last);
      assert names == init + [last];
    }
  }

  lemma {:induction false} ResolveRootedNames(names: seq<string>)
    requires forall i :: 0 <= i < |names| ==> OneComponent(names[i])
    ensures Resolve(true, [""] + names) == names
    decreases |names|
  {
    if names == [] {
      assert Resolve(true, [""]) == Resolve1(true, Resolve(true, []), "");
    } else {
      var init := names[..|names| - 1];
      var last := names[|names| - 1];
      ResolveRootedNames(init);
      assert [""] + names == ([""] + init) + [last];
      ResolveSnoc(true, [""] + init, last);
      assert names == init + [last];
    }
  }

  /** An absolute path of one-component names is already clean, and `Clean` keeps exactly those names. */
  lemma RootedNamesClean(names: seq<string>)
    requires names != []
    requires forall i :: 0 <= i < |names| ==> OneComponent(names[i])
    ensures Resolve(true, Fields("/" + Slashed(names))) == names
    ensures Clean("/" + Slashed(names)) == "/" + Slashed(names)
  {
    var p := "/" + Slashed(names);
    FieldsRooted(Slashed(names));
    FieldsOfSlashed(names);
    assert Fields(p) == [""] + names;
    ResolveRootedNames(names);
    assert p[0] == '/';
    assert Clean(p) == Render(true, Resolve(true, Fields(p)));
  }

  lemma DockerRootNames()
    ensures Resolve(true, Fields(DockerRoot)) == ["var", "lib", "docker-volumes"]
    ensures CleanDir(DockerRoot)
  {
    var root := ["var", "lib", "docker-volumes"];
    assert OneComponent(root[0]) && OneComponent(root[1]) && OneComponent(root[2]);
    assert DockerRoot == "/" + Slashed(root);
    RootedNamesClean(root);
  }

  lemma BaseDirNames()
    ensures Resolve(true, Fields(BaseDir)) == ["docker"]
    ensures CleanDir(BaseDir)
  {
    var base := ["docker"];
    assert OneComponent(base[0]);
    assert BaseDir == "/" + Slashed(base);
    RootedNamesClean(base);
  }

  /** Both roots are clean directories. */
  lemma RootsAreClean()
    ensures CleanDir(DockerRoot) && CleanDir(BaseDir)
  {
    DockerRootNames();
    BaseDirNames();
  }

  /** For a one-component name, `Join` appends it to the directory, so it is injective. */
  lemma JoinInjective(dir: string, a: string, b: string)
    requires CleanDir(dir) && OneComponent(a) && OneComponent(b)
    requires Join(dir, a) == Join(dir, b)
    ensures a == b
  {
    JoinOfComponent(dir, a);
    JoinOfComponent(dir, b);
    assert a == (dir + "/" + a)[|dir| + 1..];
  }

  /** The mountpoint `path.Join(DefaultDockerRootDirectory, name)` used by Path, Get, Mount and Unmount. */
  function Mountpoint(name: string): (mp: string)
    ensures mp != "" && mp[0] == '/'
    ensures name == "" ==> mp == DockerRoot
    ensures OneComponent(name) ==> mp == DockerRoot + "/" + name
  {
    RootsAreClean();
    JoinOfEmpty(DockerRoot);
    if OneComponent(name) then JoinOfComponent(DockerRoot, name); Join(DockerRoot, name)
    else Join(DockerRoot, name)
  }

  /** The remote directory `path.Join(baseDir, name)` bound by Mount. */
  function RemotePath(name: string): (p: string)
    ensures p != "" && p[0] == '/'
    ensures name == "" ==> p == BaseDir
    ensures OneComponent(name) ==> p == BaseDir + "/" + name
  {
    RootsAreClean();
    JoinOfEmpty(BaseDir);
    if OneComponent(name) then JoinOfComponent(BaseDir, name); Join(BaseDir, name)
    else Join(BaseDir, name)
  }

  /** Distinct one-component names get distinct mountpoints. */
  lemma MountpointInjective(a: string, b: string)
    requires OneComponent(a) && OneComponent(b) && a != b
    ensures Mountpoint(a) != Mountpoint(b)
  {
    assert Mountpoint(a)[|DockerRoot| + 1..] == a;
  }

  /** `Join` drops a trailing slash of the name, so `a/` and `a` name the same path. */
  lemma JoinIgnoresTrailingSlash(dir: string, name: string)
    requires dir != ""
    ensures Join(dir, name + "/") == Join(dir, name)
  {
    var rooted := dir[0] == '/';
    FieldsConcat(dir, name + "/");
    assert name + "/" == name + "/" + "";
    FieldsConcat(name, "");
    FieldsConcat(dir, name);
    assert Fields(dir + "/" + (name + "/")) == (Fields(dir) + Fields(name)) + [""];
    ResolveSnoc(rooted, Fields(dir) + Fields(name), "");
    assert (dir + "/" + (name + "/"))[0] == dir[0] && (dir + "/" + name)[0] == dir[0];
  }

  /** Joining `..` onto a rooted directory drops the directory's last kept name. */
  lemma JoinOfDotDot(dir: string, kept: seq<string>)
    requires dir != "" && dir[0] == '/'
    requires Resolve(true, Fields(dir)) == kept && kept != [] && kept[|kept| - 1] != ".."
    ensures Join(dir, "..") == Render(true, kept[..|kept| - 1])
  {
    FieldsOfComponent("..");
    FieldsConcat(dir, "..");
    ResolveSnoc(true, Fields(dir), "..");
    assert (dir + "/" + "..")[0] == '/';
  }

  lemma DotDotKeepsTwoNames()
    ensures Join(DockerRoot, "..") == Render(true, ["var", "lib"])
  {
    var kept := ["var", "lib", "docker-volumes"];
    DockerRootNames();
    JoinOfDotDot(DockerRoot, kept);
    assert kept[..2] == ["var", "lib"];
  }

  lemma DotDotUnderDockerRoot()
    ensures Join(DockerRoot, "..") == "/var/lib"
  {
    DotDotKeepsTwoNames();
    assert Slashed(["var", "lib"]) == "var/lib";
  }

  lemma DotDotUnderBaseDir()
    ensures Join(BaseDir, "..") == "/"
  {
    BaseDirNames();
    JoinOfDotDot(BaseDir, ["docker"]);
  }

  /**
   * `..` is cleaned, not appended: it leaves both roots, so its mountpoint is
   * `/var/lib` and its remote directory is the root of the shared filesystem.
   */
  lemma DotDotEscapesRoots()
    ensures Mountpoint("..") == "/var/lib"
    ensures RemotePath("..") == "/"
  {
    DotDotUnderDockerRoot();
    DotDotUnderBaseDir();
  }

  /** Two different names can share a mountpoint: any name and the same name with a trailing slash. */
  lemma MountpointsCollide(name: string)
    ensures name + "/" != name
    ensures Mountpoint(name + "/") == Mountpoint(name)
  {
    JoinIgnoresTrailingSlash(DockerRoot, name);
    assert |name + "/"| != |name|;
  }
}
