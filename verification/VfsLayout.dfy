/** The filesystem that an app starts with. */
module VfsLayout {
  import opened Common
  import opened VfsTree
  import opened Volumes
  import opened VolumeRuns
  import opened VolumeRegions

  // ----- Reading a directory of the host -----

  function Names(host: map<HostPath, Kind>, path: HostPath): set<string> {
    set r | r in host && r.parts != [] && HostPath(r.mount, ParentOf(r.parts)) == path :: NameOf(r.parts)
  }

  lemma NamesAreJoined(host: map<HostPath, Kind>, path: HostPath, name: string)
    ensures name in Names(host, path) <==> path.Join(name) in host
  {
    var r := path.Join(name);
    assert ParentOf(r.parts) == path.parts && NameOf(r.parts) == name;
    forall r | r in host && r.parts != [] && HostPath(r.mount, ParentOf(r.parts)) == path ensures r == path.Join(NameOf(r.parts)) {
    }
  }

  function Below(host: map<HostPath, Kind>, path: HostPath): set<HostPath> {
    set r | r in host && path.IsPrefixOf(r)
  }

  lemma LessBelow(host: map<HostPath, Kind>, path: HostPath, name: string)
    requires path in host
    ensures Below(host, path.Join(name)) < Below(host, path)
  {
    assert path in Below(host, path) && path !in Below(host, path.Join(name));
    forall r | r in Below(host, path.Join(name)) ensures r in Below(host, path) {
      assert path.parts <= path.Join(name).parts;
    }
  }

  function FromHostDir(host: map<HostPath, Kind>, path: HostPath, writeable: bool): Node
    requires path in host
    decreases Below(host, path)
  {
    Directory(map name | name in Names(host, path) :: FromHostEntry(host, path, name, writeable),
              if writeable then Some(path) else None)
  }

  function FromHostEntry(host: map<HostPath, Kind>, path: HostPath, name: string, writeable: bool): Node
    requires path in host && name in Names(host, path)
    decreases Below(host, path), 0
  {
    NamesAreJoined(host, path, name);
    LessBelow(host, path, name);
    if host[path.Join(name)] == DirectoryKind then FromHostDir(host, path.Join(name), writeable)
    else File(OnHost(path.Join(name)), writeable)
  }

  method ReadHostDir(host: map<HostPath, Kind>, path: HostPath, writeable: bool) returns (node: Node)
    requires path in host
    ensures node == FromHostDir(host, path, writeable)
    decreases Below(host, path)
  {
    hide Below, Names;
    var children: map<string, Node> := map[];
    var rest := Names(host, path);
    while rest != {}
      invariant rest <= Names(host, path) && children.Keys == Names(host, path) - rest
      invariant forall name :: name in children ==> children[name] == FromHostEntry(host, path, name, writeable)
      decreases rest
    {
      var name := NextOf(rest);
      NamesAreJoined(host, path, name);
      LessBelow(host, path, name);
      if host[path.Join(name)] == DirectoryKind {
        var child := ReadHostDir(host, path.Join(name), writeable);
        children := children[name := child];
      } else {
        children := children[name := File(OnHost(path.Join(name)), writeable)];
      }
      rest := rest - {name};
    }
    node := Directory(children, if writeable then Some(path) else None);
  }

  /** What a host entry shows up as. */
  function Shown(kind: Kind, path: HostPath, writeable: bool): Info {
    Info(kind, writeable, if writeable || kind == FileKind then Some(path) else None)
  }

  lemma {:induction false} NothingBelowFile(host: map<HostPath, Kind>, path: HostPath, q: Components)
    requires IsTreelike(host) && q != [] && HostKind(host, path) != Some(DirectoryKind)
    ensures path.Append(q) !in host
    decreases |q|
  {
    var up := ParentOf(q);
    assert ParentOf(path.Append(q).parts) == path.parts + up;
    if up == [] {
      assert path.parts + up == path.parts;
    } else {
      NothingBelowFile(host, path, up);
    }
  }

  /** A directory that is read shows exactly what is on the host, each entry under its host path. */
  lemma {:induction false} StatFromHostDir(host: map<HostPath, Kind>, path: HostPath, writeable: bool, q: Components)
    requires IsTreelike(host) && HostKind(host, path) == Some(DirectoryKind)
    ensures Stat(FromHostDir(host, path, writeable), q) ==
            match HostKind(host, path.Append(q))
            case Some(kind) => Some(Shown(kind, path.Append(q), writeable))
            case None => None
    decreases |q|
  {
    if q == [] {
      assert path.parts + q == path.parts;
    } else {
      hide IsTreelike, Stat, FromHostDir;
      var next := path.Join(q[0]);
      assert next.parts + q[1..] == path.parts + q;
      EntryShown(host, path, writeable, q);
      if HostKind(host, next) == Some(DirectoryKind) {
        StatFromHostDir(host, next, writeable, q[1..]);
      } else {
        EntryIsFile(host, path, writeable, q);
      }
    }
  }

  lemma EntryShown(host: map<HostPath, Kind>, path: HostPath, writeable: bool, q: Components)
    requires path in host && q != []
    ensures path.Join(q[0]) !in host ==> Stat(FromHostDir(host, path, writeable), q) == None
    ensures path.Join(q[0]) in host ==>
              && q[0] in Names(host, path)
              && Stat(FromHostDir(host, path, writeable), q) == Stat(FromHostEntry(host, path, q[0], writeable), q[1..])
    ensures HostKind(host, path.Join(q[0])) == Some(DirectoryKind) ==>
              FromHostEntry(host, path, q[0], writeable) == FromHostDir(host, path.Join(q[0]), writeable)
  {
    hide Stat, Names;
    NamesAreJoined(host, path, q[0]);
    StatChild(FromHostDir(host, path, writeable), q);
  }

  lemma EntryIsFile(host: map<HostPath, Kind>, path: HostPath, writeable: bool, q: Components)
    requires IsTreelike(host) && path in host && q != [] && HostKind(host, path.Join(q[0])) != Some(DirectoryKind)
    ensures q[0] in Names(host, path) ==>
              Stat(FromHostEntry(host, path, q[0], writeable), q[1..]) ==
              if q[1..] == [] then Some(Shown(FileKind, path.Join(q[0]), writeable)) else None
    ensures q[1..] != [] ==> path.Join(q[0]).Append(q[1..]) !in host
    ensures q[1..] == [] ==> path.Join(q[0]).Append(q[1..]) == path.Join(q[0])
  {
    hide IsTreelike;
    var next := path.Join(q[0]);
    NamesAreJoined(host, path, q[0]);
    if q[1..] != [] {
      NothingBelowFile(host, next, q[1..]);
    } else {
      assert next.parts + q[1..] == next.parts;
    }
  }

  // ----- Building a tree -----

  function WithChild(node: Node, name: string, child: Node): Node
    requires node.Directory? && name !in node.children
  {
    node.(children := node.children[name := child])
  }

  function Under(name: string, regions: set<Components>): set<Components> {
    set r | r in regions :: [name] + r
  }

  lemma UnderName(name: string, regions: set<Components>, q: Components)
    ensures q in Under(name, regions) <==> q != [] && q[0] == name && q[1..] in regions
  {
    if q != [] && q[0] == name && q[1..] in regions {
      assert q == [name] + q[1..];
    }
    forall r | r in regions ensures ([name] + r)[1..] == r {
    }
  }

  lemma ChildStat(node: Node, name: string, child: Node, q: Components)
    requires node.Directory? && name !in node.children
    ensures Stat(WithChild(node, name, child), q) ==
            if q != [] && q[0] == name then Stat(child, q[1..]) else Stat(node, q)
    ensures q != [] && q[0] == name ==> Stat(node, q) == None
  {
    hide Stat;
    RootStat(node);
    RootStat(WithChild(node, name, child));
    if q != [] {
      StatChild(node, q);
      StatChild(WithChild(node, name, child), q);
    }
  }

  lemma RootStat(node: Node)
    ensures Stat(node, []) == Some(InfoOf(node))
  {
  }

  /** A child whose parts are all in place can be put into a directory of which the same holds. */
  lemma ChildFits(node: Node, regions: set<Components>, name: string, child: Node, inside: set<Components>,
      host: map<HostPath, Kind>)
    requires node.Directory? && name !in node.children
    requires TreeFits(node, regions) && HostHas(node, host) && TreeFits(child, inside) && HostHas(child, host)
    ensures InStep(Volume(WithChild(node, name, child), regions + Under(name, inside), host))
  {
    hide Stat, Under, WithChild;
    var node', regions' := WithChild(node, name, child), regions + Under(name, inside);
    forall q ensures Fits(node', regions', q) {
      EntryFits(node, regions, name, child, inside, q);
    }
    forall q ensures IsOnHost(node', host, q) {
      ChildStat(node, name, child, q);
      if q != [] && q[0] == name {
        assert IsOnHost(child, host, q[1..]);
      } else {
        assert IsOnHost(node, host, q);
      }
    }
    forall g | g in regions' ensures IsDirectory(node', g) && IsWriteable(node', g) {
      UnderName(name, inside, g);
      ChildStat(node, name, child, g);
    }
  }

  lemma EntryFits(node: Node, regions: set<Components>, name: string, child: Node, inside: set<Components>, q: Components)
    requires node.Directory? && name !in node.children && TreeFits(node, regions) && TreeFits(child, inside)
    ensures Fits(WithChild(node, name, child), regions + Under(name, inside), q)
  {
    hide Stat, Under, WithChild;
    ChildStat(node, name, child, q);
    UnderName(name, inside, q);
    if q != [] {
      ChildStat(node, name, child, ParentOf(q));
    }
    if q != [] && q[0] == name {
      var r := q[1..];
      assert Fits(child, inside, r);
      if r != [] {
        assert ParentOf(q)[1..] == ParentOf(r) && ParentOf(q)[0] == name && NameOf(q) == NameOf(r);
      }
    } else {
      assert Fits(node, regions, q);
    }
  }

  lemma HostDirFits(host: map<HostPath, Kind>, path: HostPath)
    requires IsTreelike(host) && HostKind(host, path) == Some(DirectoryKind)
    ensures InStep(Volume(FromHostDir(host, path, true), {[]}, host))
  {
    hide Stat, FromHostDir, IsTreelike, Fits, IsOnHost;
    forall q ensures Fits(FromHostDir(host, path, true), {[]}, q) && IsOnHost(FromHostDir(host, path, true), host, q) {
      HostEntryFits(host, path, q);
    }
    StatFromHostDir(host, path, true, []);
    assert path.parts + [] == path.parts;
  }

  lemma HostEntryFits(host: map<HostPath, Kind>, path: HostPath, q: Components)
    requires IsTreelike(host) && HostKind(host, path) == Some(DirectoryKind)
    ensures Fits(FromHostDir(host, path, true), {[]}, q) && IsOnHost(FromHostDir(host, path, true), host, q)
  {
    hide Stat, FromHostDir;
    StatFromHostDir(host, path, true, q);
    if q != [] {
      var up := ParentOf(q);
      StatFromHostDir(host, path, true, up);
      assert q == up + [NameOf(q)];
      assert path.Append(q) == path.Append(up).Join(NameOf(q));
      assert ParentOf(path.Append(q).parts) == path.Append(up).parts;
    }
  }

  // ----- The layout -----

  const ROOT := HostPath(0, [])
  const APP_SANDBOX := HostPath(1, [])
  const DOCUMENTS := HostPath(2, [])
  const LIBRARY := HostPath(3, [])
  const TMP := HostPath(4, [])
  const FAKE_UUID := "00000000-0000-0000-0000-000000000000"

  function ReadOnlyDir(): (node: Node) {
    Directory(map[], None)
  }

  /** A bundle: whatever is in it cannot be written to, and is in an archive or on the host. */
  ghost predicate IsBundle(bundle: Node, host: map<HostPath, Kind>) {
    HostHas(bundle, host) && forall q :: !IsWriteable(bundle, q)
  }

  /** What the host has for an app before it starts. */
  ghost predicate IsPrepared(host: map<HostPath, Kind>) {
    && IsTreelike(host)
    && HostKind(host, ROOT) == HostKind(host, APP_SANDBOX) == HostKind(host, DOCUMENTS) == HostKind(host, LIBRARY)
       == HostKind(host, TMP) == Some(DirectoryKind)
    && ROOT.Join("var") !in host && ROOT.Join("usr") !in host
  }

  function Libraries(libraries: map<string, string>): Node {
    Directory(map name | name in libraries :: File(Resource(libraries[name]), false), None)
  }

  function AppDir(host: map<HostPath, Kind>, bundleName: string, bundle: Node): Node
    requires bundleName !in {"Documents", "Library", "tmp"} && DOCUMENTS in host && LIBRARY in host && TMP in host
  {
    WithChild(
      WithChild(
        WithChild(WithChild(Directory(map[], Some(APP_SANDBOX)), bundleName, bundle),
                  "Documents", FromHostDir(host, DOCUMENTS, true)),
        "Library", FromHostDir(host, LIBRARY, true)),
      "tmp", FromHostDir(host, TMP, true))
  }

  function VarDir(appDir: Node, library: Node): Node {
    WithChild(ReadOnlyDir(), "mobile",
              WithChild(WithChild(ReadOnlyDir(), "Applications", WithChild(ReadOnlyDir(), FAKE_UUID, appDir)), "Library", library))
  }

  ghost function Layout(host: map<HostPath, Kind>, bundleName: string, bundle: Node, libraries: map<string, string>): Node
    requires bundleName !in {"Documents", "Library", "tmp"} && IsPrepared(host)
  {
    NamesAreJoined(host, ROOT, "var");
    NamesAreJoined(host, ROOT, "usr");
    WithChild(
      WithChild(FromHostDir(host, ROOT, true), "var", VarDir(AppDir(host, bundleName, bundle), FromHostDir(host, LIBRARY, true))),
      "usr", WithChild(ReadOnlyDir(), "lib", Libraries(libraries)))
  }

  function Home(): Components {
    ["var", "mobile", "Applications", FAKE_UUID]
  }

  function Regions(): set<Components> {
    {[], Home(), Home() + ["Documents"], Home() + ["Library"], Home() + ["tmp"], ["var", "mobile", "Library"]}
  }

  lemma ReadOnlyFits(node: Node, host: map<HostPath, Kind>)
    requires IsBundle(node, host)
    ensures InStep(Volume(node, {}, host))
  {
    forall q ensures Fits(node, {}, q) {
    }
  }

  lemma EmptyDirIsBundle(host: map<HostPath, Kind>)
    ensures IsBundle(ReadOnlyDir(), host)
  {
    forall q ensures IsOnHost(ReadOnlyDir(), host, q) {
    }
  }

  lemma LibrariesAreBundle(libraries: map<string, string>, host: map<HostPath, Kind>)
    ensures IsBundle(Libraries(libraries), host)
  {
    var node := Libraries(libraries);
    forall q ensures IsOnHost(node, host, q) && !IsWriteable(node, q) {
      if q != [] {
        StatChild(node, q);
        if q[0] in libraries {
          LeafAlone(node.children[q[0]], q[1..]);
        }
      }
    }
  }

  lemma SandboxFits(host: map<HostPath, Kind>)
    requires HostKind(host, APP_SANDBOX) == Some(DirectoryKind)
    ensures InStep(Volume(Directory(map[], Some(APP_SANDBOX)), {[]}, host))
  {
    var node := Directory(map[], Some(APP_SANDBOX));
    forall q ensures Fits(node, {[]}, q) && IsOnHost(node, host, q) {
    }
  }

  function AppRegions(): set<Components> {
    {[], ["Documents"], ["Library"], ["tmp"]}
  }

  lemma UnderMany(name: string)
    ensures Under(name, {}) == {} && Under(name, {[]}) == {[name]}
    ensures forall a, b {:trigger Under(name, a + b)} :: Under(name, a + b) == Under(name, a) + Under(name, b)
    ensures forall q {:trigger Under(name, {q})} :: Under(name, {q}) == {[name] + q}
  {
    assert [name] + [] == [name];
  }

  lemma AppDirFits(host: map<HostPath, Kind>, bundleName: string, bundle: Node)
    requires bundleName !in {"Documents", "Library", "tmp"} && IsPrepared(host) && IsBundle(bundle, host)
    ensures InStep(Volume(AppDir(host, bundleName, bundle), AppRegions(), host))
  {
    hide TreeFits, HostHas, FromHostDir, Under, IsBundle, IsTreelike;
    var sandbox := Directory(map[], Some(APP_SANDBOX));
    var documents, library, tmp := FromHostDir(host, DOCUMENTS, true), FromHostDir(host, LIBRARY, true),
        FromHostDir(host, TMP, true);
    SandboxFits(host);
    ReadOnlyFits(bundle, host);
    HostDirFits(host, DOCUMENTS);
    HostDirFits(host, LIBRARY);
    HostDirFits(host, TMP);
    var dir1 := WithChild(sandbox, bundleName, bundle);
    var dir2 := WithChild(dir1, "Documents", documents);
    var dir3 := WithChild(dir2, "Library", library);
    UnderMany(bundleName);
    UnderMany("Documents");
    UnderMany("Library");
    UnderMany("tmp");
    ChildFits(sandbox, {[]}, bundleName, bundle, {}, host);
    ChildFits(dir1, {[]} + {}, "Documents", documents, {[]}, host);
    ChildFits(dir2, {[]} + {} + {["Documents"]}, "Library", library, {[]}, host);
    ChildFits(dir3, {[]} + {} + {["Documents"]} + {["Library"]}, "tmp", tmp, {[]}, host);
    assert {[]} + {} + {["Documents"]} + {["Library"]} + {["tmp"]} == AppRegions();
  }

  lemma VarFits(host: map<HostPath, Kind>, appDir: Node, library: Node)
    requires InStep(Volume(appDir, AppRegions(), host)) && InStep(Volume(library, {[]}, host))
    ensures InStep(Volume(VarDir(appDir, library), Under("mobile", Under("Applications", Under(FAKE_UUID, AppRegions())) + {["Library"]}), host))
  {
    hide TreeFits, HostHas, Under, AppRegions, IsBundle;
    EmptyDirIsBundle(host);
    ReadOnlyFits(ReadOnlyDir(), host);
    var r0 := {} + Under(FAKE_UUID, AppRegions());
    var r1 := {} + Under("Applications", r0);
    ChildFits(ReadOnlyDir(), {}, FAKE_UUID, appDir, AppRegions(), host);
    var applications := WithChild(ReadOnlyDir(), FAKE_UUID, appDir);
    ChildFits(ReadOnlyDir(), {}, "Applications", applications, r0, host);
    var mobile := WithChild(ReadOnlyDir(), "Applications", applications);
    UnderMany("Library");
    ChildFits(mobile, r1, "Library", library, {[]}, host);
    ChildFits(ReadOnlyDir(), {}, "mobile", WithChild(mobile, "Library", library), r1 + {["Library"]}, host);
    assert r0 == Under(FAKE_UUID, AppRegions()) && r1 == Under("Applications", r0);
    assert {} + Under("mobile", r1 + {["Library"]}) == Under("mobile", r1 + {["Library"]});
  }

  lemma UnderFive(name: string, a: Components, b: Components, c: Components, d: Components, e: Components)
    ensures Under(name, {a, b, c, d}) == {[name] + a, [name] + b, [name] + c, [name] + d}
    ensures Under(name, {a, b, c, d, e}) == {[name] + a, [name] + b, [name] + c, [name] + d, [name] + e}
  {
  }

  lemma RegionsAreThese()
    ensures {[]} + Under("var", Under("mobile", Under("Applications", Under(FAKE_UUID, AppRegions())) + {["Library"]})) + {} == Regions()
  {
    hide Under;
    var library := ["Library"];
    UnderFive(FAKE_UUID, [], ["Documents"], ["Library"], ["tmp"], []);
    assert [FAKE_UUID] + [] == [FAKE_UUID];
    var a, b, c, d := [FAKE_UUID], [FAKE_UUID] + ["Documents"], [FAKE_UUID] + ["Library"], [FAKE_UUID] + ["tmp"];
    assert Under(FAKE_UUID, AppRegions()) == {a, b, c, d};
    UnderFive("Applications", a, b, c, d, []);
    var a1, b1, c1, d1 := ["Applications"] + a, ["Applications"] + b, ["Applications"] + c, ["Applications"] + d;
    assert {a1, b1, c1, d1} + {library} == {a1, b1, c1, d1, library};
    UnderFive("mobile", a1, b1, c1, d1, library);
    var a2, b2, c2, d2, e2 := ["mobile"] + a1, ["mobile"] + b1, ["mobile"] + c1, ["mobile"] + d1, ["mobile"] + library;
    UnderFive("var", a2, b2, c2, d2, e2);
    assert ["var"] + a2 == Home() && ["var"] + b2 == Home() + ["Documents"] && ["var"] + c2 == Home() + ["Library"];
    assert ["var"] + d2 == Home() + ["tmp"] && ["var"] + e2 == ["var", "mobile", "Library"];
  }

  /** An app starts with tree and host in step: `/` is on the host with read-only directories in it, the app's own
      directory is on the host with regions and the read-only bundle in it, and one host directory is in two places. */
  lemma LayoutIsInStep(host: map<HostPath, Kind>, bundleName: string, bundle: Node, libraries: map<string, string>)
    requires bundleName !in {"Documents", "Library", "tmp"} && IsPrepared(host) && IsBundle(bundle, host)
    ensures InStep(Volume(Layout(host, bundleName, bundle, libraries), Regions(), host))
  {
    hide TreeFits, HostHas, FromHostDir, Under, AppRegions, IsBundle, Regions, AppDir, VarDir, Libraries, IsTreelike;
    var library := FromHostDir(host, LIBRARY, true);
    HostDirFits(host, ROOT);
    HostDirFits(host, LIBRARY);
    AppDirFits(host, bundleName, bundle);
    VarFits(host, AppDir(host, bundleName, bundle), library);
    LibrariesAreBundle(libraries, host);
    ReadOnlyFits(Libraries(libraries), host);
    EmptyDirIsBundle(host);
    ReadOnlyFits(ReadOnlyDir(), host);
    ChildFits(ReadOnlyDir(), {}, "lib", Libraries(libraries), {}, host);
    UnderMany("lib");
    UnderMany("usr");
    var none: set<Components> := {};
    assert none + none == none;
    LayoutParts(host, bundleName, bundle, libraries);
    var root := FromHostDir(host, ROOT, true);
    var varDir := VarDir(AppDir(host, bundleName, bundle), library);
    var inVar := Under("mobile", Under("Applications", Under(FAKE_UUID, AppRegions())) + {["Library"]});
    ChildFits(root, {[]}, "var", varDir, inVar, host);
    ChildFits(WithChild(root, "var", varDir), {[]} + Under("var", inVar), "usr", WithChild(ReadOnlyDir(), "lib", Libraries(libraries)), {}, host);
    RegionsAreThese();
  }

  lemma LayoutParts(host: map<HostPath, Kind>, bundleName: string, bundle: Node, libraries: map<string, string>)
    requires bundleName !in {"Documents", "Library", "tmp"} && IsPrepared(host)
    ensures var root := FromHostDir(host, ROOT, true);
            root.Directory? && "var" !in root.children && "usr" !in root.children
  {
    NamesAreJoined(host, ROOT, "var");
    NamesAreJoined(host, ROOT, "usr");
  }

  // ----- What the layout allows -----

  lemma InStepTells(v: Volume)
    requires InStep(v)
    ensures TreeFits(v.root, v.regions) && forall q :: IsOnHost(v.root, v.host, q)
  {
  }

  lemma AppDirStat(host: map<HostPath, Kind>, bundleName: string, bundle: Node, q: Components)
    requires bundleName !in {"Documents", "Library", "tmp"} && IsPrepared(host)
    ensures var app := AppDir(host, bundleName, bundle);
            Stat(app, q) ==
            if q == [] then Some(Info(DirectoryKind, true, Some(APP_SANDBOX)))
            else if q[0] == "tmp" then Stat(FromHostDir(host, TMP, true), q[1..])
            else if q[0] == "Library" then Stat(FromHostDir(host, LIBRARY, true), q[1..])
            else if q[0] == "Documents" then Stat(FromHostDir(host, DOCUMENTS, true), q[1..])
            else if q[0] == bundleName then Stat(bundle, q[1..])
            else None
  {
    hide FromHostDir, IsTreelike, Stat, WithChild;
    var sandbox := Directory(map[], Some(APP_SANDBOX));
    LeafAlone(sandbox, q);
    ChildStat(sandbox, bundleName, bundle, q);
    var dir1 := WithChild(sandbox, bundleName, bundle);
    AppDirParts(host, bundleName, bundle);
    ChildStat(dir1, "Documents", FromHostDir(host, DOCUMENTS, true), q);
    var dir2 := WithChild(dir1, "Documents", FromHostDir(host, DOCUMENTS, true));
    ChildStat(dir2, "Library", FromHostDir(host, LIBRARY, true), q);
    var dir3 := WithChild(dir2, "Library", FromHostDir(host, LIBRARY, true));
    ChildStat(dir3, "tmp", FromHostDir(host, TMP, true), q);
  }

  lemma AppDirParts(host: map<HostPath, Kind>, bundleName: string, bundle: Node)
    requires bundleName !in {"Documents", "Library", "tmp"} && IsPrepared(host)
    ensures var dir1 := WithChild(Directory(map[], Some(APP_SANDBOX)), bundleName, bundle);
            && dir1.Directory? && "Documents" !in dir1.children
            && var dir2 := WithChild(dir1, "Documents", FromHostDir(host, DOCUMENTS, true));
               && dir2.Directory? && "Library" !in dir2.children
               && var dir3 := WithChild(dir2, "Library", FromHostDir(host, LIBRARY, true));
                  dir3.Directory? && "tmp" !in dir3.children
  {
    hide FromHostDir, IsTreelike;
  }

  lemma VarStat(appDir: Node, library: Node, q: Components)
    ensures Stat(VarDir(appDir, library), []) == Some(Info(DirectoryKind, false, None))
    ensures Stat(VarDir(appDir, library), ["mobile", "Applications", FAKE_UUID] + q) == Stat(appDir, q)
    ensures Stat(VarDir(appDir, library), ["mobile", "Library"] + q) == Stat(library, q)
  {
    hide Stat;
    var applications := WithChild(ReadOnlyDir(), FAKE_UUID, appDir);
    var mobile := WithChild(WithChild(ReadOnlyDir(), "Applications", applications), "Library", library);
    var varDir := VarDir(appDir, library);
    RootStat(varDir);
    var a, b := ["mobile", "Applications", FAKE_UUID] + q, ["mobile", "Library"] + q;
    assert a[1..][1..][1..] == q && b[1..][1..] == q && a[1..][0] == "Applications" && a[1..][1..][0] == FAKE_UUID && b[1..][0] == "Library";
    StatChild(varDir, a);
    StatChild(mobile, a[1..]);
    StatChild(applications, a[1..][1..]);
    StatChild(varDir, b);
    StatChild(mobile, b[1..]);
  }

  lemma LayoutStat(host: map<HostPath, Kind>, bundleName: string, bundle: Node, libraries: map<string, string>,
      q: Components)
    requires bundleName !in {"Documents", "Library", "tmp"} && IsPrepared(host)
    ensures var root := Layout(host, bundleName, bundle, libraries);
            && Stat(root, []) == Some(Info(DirectoryKind, true, Some(ROOT)))
            && Stat(root, ["var"]) == Some(Info(DirectoryKind, false, None))
            && Stat(root, Home() + q) == Stat(AppDir(host, bundleName, bundle), q)
            && Stat(root, ["var", "mobile", "Library"] + q) == Stat(FromHostDir(host, LIBRARY, true), q)
  {
    hide Stat, IsTreelike, AppDir, VarDir;
    var root, library := Layout(host, bundleName, bundle, libraries), FromHostDir(host, LIBRARY, true);
    LayoutParts(host, bundleName, bundle, libraries);
    RootStat(root);
    var varDir := VarDir(AppDir(host, bundleName, bundle), library);
    VarStat(AppDir(host, bundleName, bundle), library, q);
    var a, b := Home() + q, ["var", "mobile", "Library"] + q;
    assert a[1..] == ["mobile", "Applications", FAKE_UUID] + q && b[1..] == ["mobile", "Library"] + q;
    assert ["var"][1..] == [] && root.children["var"] == varDir;
    StatChild(root, a);
    StatChild(root, b);
    StatChild(root, ["var"]);
  }

  /** Opening `/var` for writing, with creation, is not rejected: an empty file takes its place, and with it the app's
      whole home directory is gone from the tree. */
  lemma VarGivesWay(host: map<HostPath, Kind>, bundleName: string, bundle: Node, libraries: map<string, string>)
    requires bundleName !in {"Documents", "Library", "tmp"} && IsPrepared(host) && IsBundle(bundle, host)
    ensures var v := Volume(Layout(host, bundleName, bundle, libraries), Regions(), host);
            && !Panics(v, MakeFile(["var"])) && IsDirectory(v.root, Home())
            && Stat(Next(v, MakeFile(["var"])).root, ["var"]) == Some(Info(FileKind, true, Some(ROOT.Join("var"))))
            && Stat(Next(v, MakeFile(["var"])).root, Home()) == None
  {
    hide Stat, IsTreelike, InStep, Layout, Next, Panics, IsBundle, Regions, AppDir;
    var v := Volume(Layout(host, bundleName, bundle, libraries), Regions(), host);
    LayoutIsInStep(host, bundleName, bundle, libraries);
    LayoutStat(host, bundleName, bundle, libraries, []);
    AppDirStat(host, bundleName, bundle, []);
    assert Home() + [] == Home() && ParentOf(["var"]) == [] && NameOf(["var"]) == "var";
    InStepTells(v);
    DirectoryOpenedForWriting(v, ["var"]);
    assert ["var"] <= Home() && ["var"] <= ["var"];
    assert NewPath(v.root, ["var"]) == ROOT.Join("var");
  }

  /** A directory left over in the app's directory from an earlier run is not shown. Made anew it is reused, and the
      attempt to remove it ends the emulator if anything is in it. */
  lemma LeftOverDirectoryPanics(host: map<HostPath, Kind>, bundleName: string, bundle: Node, libraries: map<string,
      string>,
                                name: string, file: string)
    requires bundleName !in {"Documents", "Library", "tmp"} && IsPrepared(host) && IsBundle(bundle, host)
    requires name !in {"Documents", "Library", "tmp", bundleName} && HostKind(host, APP_SANDBOX.Join(name).Join(file)) == Some(FileKind)
    ensures var v, c := Volume(Layout(host, bundleName, bundle, libraries), Regions(), host), Home() + [name];
            Stat(v.root, c) == None && Survives(v, [MakeDir(c)]) && Panics(After(v, [MakeDir(c)]), Delete(c))
  {
    hide Stat, InStep, Layout, Next, Panics, IsBundle, Regions, AppDir;
    var v, c := Volume(Layout(host, bundleName, bundle, libraries), Regions(), host), Home() + [name];
    LayoutIsInStep(host, bundleName, bundle, libraries);
    LayoutStat(host, bundleName, bundle, libraries, []);
    LayoutStat(host, bundleName, bundle, libraries, [name]);
    AppDirStat(host, bundleName, bundle, []);
    AppDirStat(host, bundleName, bundle, [name]);
    assert Home() + [] == Home() && ParentOf(c) == Home() && NameOf(c) == name;
    var p, r := APP_SANDBOX.Join(name), APP_SANDBOX.Join(name).Join(file);
    assert ParentOf(r.parts) == p.parts && p.IsPrefixOf(r) && r != p;
    InStepTells(v);
    LeftOversShow(v, c);
    PanicsInStep(v, MakeDir(c));
    assert [MakeDir(c)][..0] == [] && After(v, []) == v;
  }

  /** The library's host directory is in two places, so that what is removed in one is still shown in the other. */
  lemma LibraryIsInTwoPlaces(host: map<HostPath, Kind>, bundleName: string, bundle: Node, libraries: map<string,
      string>, q: Components)
    requires bundleName !in {"Documents", "Library", "tmp"} && IsPrepared(host) && IsBundle(bundle, host)
    ensures var v := Volume(Layout(host, bundleName, bundle, libraries), Regions(), host);
            var a, b := Home() + ["Library"] + q, ["var", "mobile", "Library"] + q;
            && Stat(v.root, a) == Stat(v.root, b)
            && (DeleteOutcome(v, a).Ok? ==> IsMisstep(v, Delete(a)))
  {
    hide InStep, Layout, IsBundle, Regions, AppDir, IsTreelike, FromHostDir;
    var v := Volume(Layout(host, bundleName, bundle, libraries), Regions(), host);
    var a, b := Home() + ["Library"] + q, ["var", "mobile", "Library"] + q;
    assert a == Home() + (["Library"] + q) && (["Library"] + q)[1..] == q;
    LayoutStat(host, bundleName, bundle, libraries, q);
    LayoutStat(host, bundleName, bundle, libraries, ["Library"] + q);
    AppDirStat(host, bundleName, bundle, ["Library"] + q);
    assert a[2] != b[2];
    assert HostOf(v.root, b) == HostOf(v.root, a);
  }

  /** The empty `tmp`, although a region, can be removed, and the two stay in step. */
  lemma TmpCanBeRemoved(host: map<HostPath, Kind>, bundleName: string, bundle: Node, libraries: map<string, string>)
    requires bundleName !in {"Documents", "Library", "tmp"} && IsPrepared(host) && IsBundle(bundle, host)
    requires !HasLeftOvers(host, TMP)
    ensures var v := Volume(Layout(host, bundleName, bundle, libraries), Regions(), host);
            DeleteOutcome(v, Home() + ["tmp"]) == Ok
  {
    hide Stat, InStep, Layout, IsBundle, Regions, AppDir, IsTreelike, FromHostDir;
    var v, c := Volume(Layout(host, bundleName, bundle, libraries), Regions(), host), Home() + ["tmp"];
    LayoutStat(host, bundleName, bundle, libraries, []);
    AppDirStat(host, bundleName, bundle, []);
    assert Home() + [] == Home() && ParentOf(c) == Home();
    forall q | c <= q ensures Stat(v.root, q) == (if q == c then Some(Info(DirectoryKind, true, Some(TMP))) else None) {
      var r := ["tmp"] + q[|c|..];
      assert q == Home() + r && r[1..] == q[|c|..] && (q == c <==> r[1..] == []);
      LayoutStat(host, bundleName, bundle, libraries, r);
      AppDirStat(host, bundleName, bundle, r);
      StatFromHostDir(host, TMP, true, r[1..]);
      assert TMP.IsPrefixOf(TMP.Append(r[1..])) && (r[1..] == [] ==> TMP.Append(r[1..]) == TMP);
    }
    assert c <= c;
    assert forall r :: r in host && TMP.IsPrefixOf(r) ==> r == TMP;
  }

  /** Renaming the app's directory moves its host directory, and the documents, which are elsewhere, are lost to it. */
  lemma MovedHomeLosesDocuments(host: map<HostPath, Kind>, bundleName: string, bundle: Node, libraries: map<string,
      string>, name: string)
    requires bundleName !in {"Documents", "Library", "tmp"} && IsPrepared(host) && IsBundle(bundle, host)
    requires name != "var" && ROOT.Join(name) !in host && APP_SANDBOX.Join("Documents") !in host
    ensures var v := Volume(Layout(host, bundleName, bundle, libraries), Regions(), host);
            MoveOutcome(v, Home(), [name]) == Ok && IsMisstep(v, Move(Home(), [name]))
  {
    hide Stat, InStep, Layout, IsBundle, Regions, AppDir, FromHostDir, MovesWhole, OthersStay, HostCanRename, IsTreelike;
    var v := Volume(Layout(host, bundleName, bundle, libraries), Regions(), host);
    LayoutStat(host, bundleName, bundle, libraries, []);
    AppDirStat(host, bundleName, bundle, []);
    assert Home() + [] == Home() && ParentOf([name]) == [] && NameOf([name]) == name && !(Home() <= []);
    assert NewPath(v.root, [name]) == ROOT.Join(name);
    HomeCanMove(host, name);
    DocumentsAreElsewhere(host, bundleName, bundle, libraries);
  }

  lemma HomeCanMove(host: map<HostPath, Kind>, name: string)
    requires IsPrepared(host) && ROOT.Join(name) !in host
    ensures HostCanRename(host, APP_SANDBOX, ROOT.Join(name))
  {
    var new_ := ROOT.Join(name);
    assert ParentOf(new_.parts) == [];
    forall r | r in host && new_.IsPrefixOf(r) ensures r == new_ {
      if r != new_ {
        assert r == new_.Append(new_.Behind(r));
        NothingBelowFile(host, new_, new_.Behind(r));
      }
    }
  }

  lemma DocumentsAreElsewhere(host: map<HostPath, Kind>, bundleName: string, bundle: Node, libraries: map<string, string>)
    requires bundleName !in {"Documents", "Library", "tmp"} && IsPrepared(host) && IsBundle(bundle, host)
    requires APP_SANDBOX.Join("Documents") !in host
    ensures !MovesWhole(Layout(host, bundleName, bundle, libraries), host, Home(), APP_SANDBOX)
  {
    hide Stat, Layout, IsBundle, AppDir, FromHostDir, IsTreelike;
    var root, documents := Layout(host, bundleName, bundle, libraries), ["Documents"];
    LayoutStat(host, bundleName, bundle, libraries, []);
    LayoutStat(host, bundleName, bundle, libraries, documents);
    AppDirStat(host, bundleName, bundle, []);
    AppDirStat(host, bundleName, bundle, documents);
    StatFromHostDir(host, DOCUMENTS, true, []);
    assert documents[..0] == [] && documents[1..] == [] && DOCUMENTS.Append([]) == DOCUMENTS && Home() + [] == Home();
    assert AreWriteable(root, Home(), documents);
    assert APP_SANDBOX.Append(documents) == APP_SANDBOX.Join("Documents");
    assert HostOf(root, Home() + documents) == Some(DOCUMENTS);
  }

  /** A file of the library removed by way of one of its two places is still shown in the other. Removing it there as well
      ends the emulator, although the host has nothing left over. */
  lemma SecondDeletionPanics(host: map<HostPath, Kind>, bundleName: string, bundle: Node, libraries: map<string, string>, file: string)
    requires bundleName !in {"Documents", "Library", "tmp"} && IsPrepared(host) && IsBundle(bundle, host)
    requires HostKind(host, LIBRARY.Join(file)) == Some(FileKind)
    ensures var v := Volume(Layout(host, bundleName, bundle, libraries), Regions(), host);
            var a, b := Home() + ["Library"] + [file], ["var", "mobile", "Library"] + [file];
            && Survives(v, [Delete(a)])
            && Panics(After(v, [Delete(a)]), Delete(b))
            && IsStale(After(v, [Delete(a)]), Delete(b)) && !IsRefused(After(v, [Delete(a)]), Delete(b))
  {
    hide InStep, Layout, IsBundle, Regions, AppDir, IsTreelike, FromHostDir, Stat, Put, Kept, TreeFits, Survives, IsAlone;
    var v := Volume(Layout(host, bundleName, bundle, libraries), Regions(), host);
    var a, b := Home() + ["Library"] + [file], ["var", "mobile", "Library"] + [file];
    LayoutIsInStep(host, bundleName, bundle, libraries);
    LibraryFile(host, bundleName, bundle, libraries, file);
    FileIsLeaf(v.root, a);
    assert DeleteOutcome(v, a) == Ok;
    var w := Next(v, Delete(a));
    DeleteTakesOut(v, a);
    StepAfterOne(v, Delete(a));
    assert a[2] != b[2] && ParentOf(b)[2] != a[2];
    assert !(a <= b) && !(a <= ParentOf(b));
    assert Stat(w.root, b) == Stat(v.root, b) && Stat(w.root, ParentOf(b)) == Stat(v.root, ParentOf(b));
    StepKeepsTreeIn(v, Delete(a));
    PanicsExactly(w, Delete(b));
  }

  lemma StepAfterOne(v: Volume, op: Op)
    ensures After(v, [op]) == Next(v, op) && (Survives(v, [op]) <==> !Panics(v, op))
  {
    hide Next, Panics;
    assert [op][..0] == [];
  }

  lemma StepKeepsTreeIn(v: Volume, op: Op)
    requires InStep(v)
    ensures TreeFits(Next(v, op).root, Next(v, op).regions)
  {
    StepKeepsTree(v, op);
  }

  lemma LibraryFile(host: map<HostPath, Kind>, bundleName: string, bundle: Node, libraries: map<string, string>, file: string)
    requires bundleName !in {"Documents", "Library", "tmp"} && IsPrepared(host) && HostKind(host, LIBRARY.Join(file)) == Some(FileKind)
    ensures var root := Layout(host, bundleName, bundle, libraries);
            var a, b := Home() + ["Library"] + [file], ["var", "mobile", "Library"] + [file];
            && Stat(root, a) == Stat(root, b) == Some(Info(FileKind, true, Some(LIBRARY.Join(file))))
            && Stat(root, ParentOf(a)) == Stat(root, ParentOf(b)) == Some(Info(DirectoryKind, true, Some(LIBRARY)))
  {
    hide Layout, AppDir, IsTreelike, FromHostDir, Stat;
    var q := [file];
    assert Home() + ["Library"] + q == Home() + (["Library"] + q) && (["Library"] + q)[1..] == q;
    assert Home() + ["Library"] == Home() + (["Library"] + []) && (["Library"] + [])[1..] == [];
    LayoutStat(host, bundleName, bundle, libraries, q);
    LayoutStat(host, bundleName, bundle, libraries, []);
    LayoutStat(host, bundleName, bundle, libraries, ["Library"] + q);
    LayoutStat(host, bundleName, bundle, libraries, ["Library"] + []);
    AppDirStat(host, bundleName, bundle, ["Library"] + q);
    AppDirStat(host, bundleName, bundle, ["Library"] + []);
    StatFromHostDir(host, LIBRARY, true, q);
    StatFromHostDir(host, LIBRARY, true, []);
    assert LIBRARY.Append(q) == LIBRARY.Join(file) && LIBRARY.Append([]) == LIBRARY;
    assert ParentOf(Home() + ["Library"] + q) == Home() + (["Library"] + []);
    assert ParentOf(["var", "mobile", "Library"] + q) == ["var", "mobile", "Library"] + [];
  }

  // ----- The documents -----

  /** No read-only file of the tree is in the host directory `mount`. */
  ghost predicate NoneReadOnlyIn(node: Node, mount: nat) {
    forall q {:trigger HostOf(node, q)} :: HostOf(node, q).Some? && !IsWriteable(node, q) ==> HostOf(node, q).value.mount != mount
  }

  lemma ChildReadOnly(node: Node, name: string, child: Node, mount: nat)
    requires node.Directory? && name !in node.children && NoneReadOnlyIn(node, mount) && NoneReadOnlyIn(child, mount)
    ensures NoneReadOnlyIn(WithChild(node, name, child), mount)
  {
    hide Stat, WithChild;
    var node' := WithChild(node, name, child);
    forall q | HostOf(node', q).Some? && !IsWriteable(node', q) ensures HostOf(node', q).value.mount != mount {
      ChildStat(node, name, child, q);
      if q != [] && q[0] == name {
        assert HostOf(child, q[1..]) == HostOf(node', q);
      } else {
        assert HostOf(node, q) == HostOf(node', q);
      }
    }
  }

  lemma HostDirNotReadOnly(host: map<HostPath, Kind>, path: HostPath, mount: nat)
    requires IsTreelike(host) && HostKind(host, path) == Some(DirectoryKind)
    ensures NoneReadOnlyIn(FromHostDir(host, path, true), mount)
  {
    hide Stat, FromHostDir, IsTreelike;
    forall q ensures HostOf(FromHostDir(host, path, true), q).Some? ==> IsWriteable(FromHostDir(host, path, true), q) {
      StatFromHostDir(host, path, true, q);
    }
  }

  lemma PlainParts(libraries: map<string, string>, mount: nat)
    ensures NoneReadOnlyIn(ReadOnlyDir(), mount) && NoneReadOnlyIn(Libraries(libraries), mount)
    ensures NoneReadOnlyIn(Directory(map[], Some(APP_SANDBOX)), mount)
  {
    var node := Libraries(libraries);
    forall q ensures HostOf(node, q) == None {
      if q != [] {
        StatChild(node, q);
        if q[0] in libraries {
          LeafAlone(node.children[q[0]], q[1..]);
        }
      }
    }
  }

  lemma AppDirReadOnly(host: map<HostPath, Kind>, bundleName: string, bundle: Node, mount: nat)
    requires bundleName !in {"Documents", "Library", "tmp"} && IsPrepared(host) && NoneReadOnlyIn(bundle, mount)
    ensures NoneReadOnlyIn(AppDir(host, bundleName, bundle), mount)
  {
    hide FromHostDir, IsTreelike, NoneReadOnlyIn;
    var sandbox := Directory(map[], Some(APP_SANDBOX));
    PlainParts(map[], mount);
    HostDirNotReadOnly(host, DOCUMENTS, mount);
    HostDirNotReadOnly(host, LIBRARY, mount);
    HostDirNotReadOnly(host, TMP, mount);
    AppDirParts(host, bundleName, bundle);
    var dir1 := WithChild(sandbox, bundleName, bundle);
    ChildReadOnly(sandbox, bundleName, bundle, mount);
    ChildReadOnly(dir1, "Documents", FromHostDir(host, DOCUMENTS, true), mount);
    var dir2 := WithChild(dir1, "Documents", FromHostDir(host, DOCUMENTS, true));
    ChildReadOnly(dir2, "Library", FromHostDir(host, LIBRARY, true), mount);
    ChildReadOnly(WithChild(dir2, "Library", FromHostDir(host, LIBRARY, true)), "tmp", FromHostDir(host, TMP, true), mount);
  }

  lemma VarReadOnly(appDir: Node, library: Node, mount: nat)
    requires NoneReadOnlyIn(appDir, mount) && NoneReadOnlyIn(library, mount)
    ensures NoneReadOnlyIn(VarDir(appDir, library), mount)
  {
    hide NoneReadOnlyIn;
    PlainParts(map[], mount);
    var applications := WithChild(ReadOnlyDir(), FAKE_UUID, appDir);
    ChildReadOnly(ReadOnlyDir(), FAKE_UUID, appDir, mount);
    ChildReadOnly(ReadOnlyDir(), "Applications", applications, mount);
    var mobile := WithChild(ReadOnlyDir(), "Applications", applications);
    ChildReadOnly(mobile, "Library", library, mount);
    ChildReadOnly(ReadOnlyDir(), "mobile", WithChild(mobile, "Library", library), mount);
  }

  lemma LayoutReadOnly(host: map<HostPath, Kind>, bundleName: string, bundle: Node, libraries: map<string, string>, mount: nat)
    requires bundleName !in {"Documents", "Library", "tmp"} && IsPrepared(host) && NoneReadOnlyIn(bundle, mount)
    ensures NoneReadOnlyIn(Layout(host, bundleName, bundle, libraries), mount)
  {
    hide NoneReadOnlyIn, AppDir, VarDir, Libraries, FromHostDir, IsTreelike;
    var root, library := FromHostDir(host, ROOT, true), FromHostDir(host, LIBRARY, true);
    LayoutParts(host, bundleName, bundle, libraries);
    AppDirReadOnly(host, bundleName, bundle, mount);
    HostDirNotReadOnly(host, ROOT, mount);
    HostDirNotReadOnly(host, LIBRARY, mount);
    VarReadOnly(AppDir(host, bundleName, bundle), library, mount);
    PlainParts(libraries, mount);
    var varDir := VarDir(AppDir(host, bundleName, bundle), library);
    ChildReadOnly(root, "var", varDir, mount);
    ChildReadOnly(ReadOnlyDir(), "lib", Libraries(libraries), mount);
    ChildReadOnly(WithChild(root, "var", varDir), "usr", WithChild(ReadOnlyDir(), "lib", Libraries(libraries)), mount);
  }

  lemma RegionHosts(host: map<HostPath, Kind>, bundleName: string, bundle: Node, libraries: map<string, string>)
    requires bundleName !in {"Documents", "Library", "tmp"} && IsPrepared(host)
    ensures var root := Layout(host, bundleName, bundle, libraries);
            && HostOf(root, []) == Some(ROOT) && HostOf(root, Home()) == Some(APP_SANDBOX)
            && HostOf(root, Home() + ["Documents"]) == Some(DOCUMENTS) && HostOf(root, Home() + ["Library"]) == Some(LIBRARY)
            && HostOf(root, Home() + ["tmp"]) == Some(TMP) && HostOf(root, ["var", "mobile", "Library"]) == Some(LIBRARY)
  {
    hide Layout, AppDir, IsTreelike, FromHostDir, Stat;
    LayoutStat(host, bundleName, bundle, libraries, []);
    AppDirStat(host, bundleName, bundle, []);
    assert Home() + [] == Home() && ["var", "mobile", "Library"] + [] == ["var", "mobile", "Library"];
    LayoutStat(host, bundleName, bundle, libraries, ["Documents"]);
    LayoutStat(host, bundleName, bundle, libraries, ["Library"]);
    LayoutStat(host, bundleName, bundle, libraries, ["tmp"]);
    AppDirStat(host, bundleName, bundle, ["Documents"]);
    AppDirStat(host, bundleName, bundle, ["Library"]);
    AppDirStat(host, bundleName, bundle, ["tmp"]);
    assert ["Documents"][1..] == [] && ["Library"][1..] == [] && ["tmp"][1..] == [];
    StatFromHostDir(host, DOCUMENTS, true, []);
    StatFromHostDir(host, LIBRARY, true, []);
    StatFromHostDir(host, TMP, true, []);
    assert DOCUMENTS.Append([]) == DOCUMENTS && LIBRARY.Append([]) == LIBRARY && TMP.Append([]) == TMP;
  }

  // ----- What the layout shows -----

  const READ_ONLY_DIR := Info(DirectoryKind, false, None)

  /** What is in `/var`: the app's directory, and the library once more. */
  function VarShows(app: Node, library: Node, q: Components): Option<Info> {
    if q == [] || q == ["mobile"] || q == ["mobile", "Applications"] then Some(READ_ONLY_DIR)
    else if ["mobile", "Library"] <= q then Stat(library, q[2..])
    else if ["mobile", "Applications", FAKE_UUID] <= q then Stat(app, q[3..])
    else None
  }

  /** What is in `/usr`: libraries that are part of the emulator. */
  function UsrShows(libraries: map<string, string>, q: Components): Option<Info> {
    if q == [] || q == ["lib"] then Some(READ_ONLY_DIR)
    else if |q| == 2 && q[0] == "lib" && q[1] in libraries then Some(Info(FileKind, false, None))
    else None
  }

  lemma VarShown(app: Node, library: Node, q: Components)
    ensures Stat(VarDir(app, library), q) == VarShows(app, library, q)
  {
    hide Stat;
    var applications := WithChild(ReadOnlyDir(), FAKE_UUID, app);
    var mobile := WithChild(ReadOnlyDir(), "Applications", applications);
    var both := WithChild(mobile, "Library", library);
    LeafAlone(ReadOnlyDir(), q);
    ChildStat(ReadOnlyDir(), "mobile", both, q);
    if q != [] && q[0] == "mobile" {
      var r := q[1..];
      assert q == ["mobile"] + r;
      LeafAlone(ReadOnlyDir(), r);
      ChildStat(ReadOnlyDir(), "Applications", applications, r);
      ChildStat(mobile, "Library", library, r);
      if r != [] {
        assert r[1..] == q[2..];
        if r[0] == "Applications" {
          LeafAlone(ReadOnlyDir(), r[1..]);
          ChildStat(ReadOnlyDir(), FAKE_UUID, app, r[1..]);
          if r[1..] != [] {
            assert r[1..][1..] == q[3..] && r[1..][0] == q[2];
          } else {
            assert q == ["mobile", "Applications"];
          }
        }
      }
    }
  }

  lemma UsrShown(libraries: map<string, string>, q: Components)
    ensures Stat(WithChild(ReadOnlyDir(), "lib", Libraries(libraries)), q) == UsrShows(libraries, q)
  {
    hide Stat;
    LeafAlone(ReadOnlyDir(), q);
    ChildStat(ReadOnlyDir(), "lib", Libraries(libraries), q);
    if q != [] && q[0] == "lib" {
      var r := q[1..];
      assert q == ["lib"] + r;
      RootStat(Libraries(libraries));
      if r != [] {
        StatChild(Libraries(libraries), r);
        assert r[0] == q[1];
        if r[0] in libraries {
          LeafAlone(Libraries(libraries).children[r[0]], r[1..]);
        }
      }
    }
  }

  /** All that an app finds at the start: the emulator's libraries in `/usr/lib`, the library and its own directory in
      `/var/mobile`, and everything else as the host has it for `/`. Its directory has the bundle, the documents, the library
      and `tmp` in it, and nothing else. */
  lemma LayoutShows(host: map<HostPath, Kind>, bundleName: string, bundle: Node, libraries: map<string, string>, q: Components)
    requires bundleName !in {"Documents", "Library", "tmp"} && IsPrepared(host)
    ensures Stat(Layout(host, bundleName, bundle, libraries), q) ==
            if q == [] then Some(Info(DirectoryKind, true, Some(ROOT)))
            else if q[0] == "usr" then UsrShows(libraries, q[1..])
            else if q[0] == "var" then VarShows(AppDir(host, bundleName, bundle), FromHostDir(host, LIBRARY, true), q[1..])
            else Stat(FromHostDir(host, ROOT, true), q)
    ensures Stat(AppDir(host, bundleName, bundle), q) ==
            if q == [] then Some(Info(DirectoryKind, true, Some(APP_SANDBOX)))
            else if q[0] == "tmp" then Stat(FromHostDir(host, TMP, true), q[1..])
            else if q[0] == "Library" then Stat(FromHostDir(host, LIBRARY, true), q[1..])
            else if q[0] == "Documents" then Stat(FromHostDir(host, DOCUMENTS, true), q[1..])
            else if q[0] == bundleName then Stat(bundle, q[1..])
            else None
  {
    hide Stat, IsTreelike, FromHostDir;
    AppDirStat(host, bundleName, bundle, q);
    hide AppDir;
    LayoutParts(host, bundleName, bundle, libraries);
    LayoutStat(host, bundleName, bundle, libraries, q);
    var root := FromHostDir(host, ROOT, true);
    var varDir := VarDir(AppDir(host, bundleName, bundle), FromHostDir(host, LIBRARY, true));
    var usr := WithChild(ReadOnlyDir(), "lib", Libraries(libraries));
    hide VarDir, Libraries;
    ChildStat(root, "var", varDir, q);
    ChildStat(WithChild(root, "var", varDir), "usr", usr, q);
    if q != [] {
      VarShown(AppDir(host, bundleName, bundle), FromHostDir(host, LIBRARY, true), q[1..]);
      UsrShown(libraries, q[1..]);
    }
  }

  /** The documents are sealed off at the start. */
  lemma DocumentsAreSealed(host: map<HostPath, Kind>, bundleName: string, bundle: Node, libraries: map<string, string>)
    requires bundleName !in {"Documents", "Library", "tmp"} && IsPrepared(host) && IsBundle(bundle, host)
    requires NoneReadOnlyIn(bundle, DOCUMENTS.mount)
    ensures var v := Volume(Layout(host, bundleName, bundle, libraries), Regions(), host);
            TreeFits(v.root, v.regions) && IsSealed(v, Home() + ["Documents"])
  {
    hide Layout, AppDir, IsTreelike, FromHostDir, Stat, TreeFits, IsBundle, IsOnHost;
    var v, g := Volume(Layout(host, bundleName, bundle, libraries), Regions(), host), Home() + ["Documents"];
    LayoutIsInStep(host, bundleName, bundle, libraries);
    LayoutReadOnly(host, bundleName, bundle, libraries, DOCUMENTS.mount);
    RegionHosts(host, bundleName, bundle, libraries);
    forall below | below != [] && HostOf(v.root, g + below).Some? ensures IsWriteable(v.root, g + below) && g + below !in v.regions {
      DocumentStat(host, bundleName, bundle, libraries, below);
    }
  }

  lemma DocumentStat(host: map<HostPath, Kind>, bundleName: string, bundle: Node, libraries: map<string, string>, below: Components)
    requires bundleName !in {"Documents", "Library", "tmp"} && IsPrepared(host) && below != []
    ensures var root, q := Layout(host, bundleName, bundle, libraries), Home() + ["Documents"] + below;
            (HostOf(root, q).Some? ==> IsWriteable(root, q)) && q !in Regions()
  {
    hide Layout, AppDir, IsTreelike, FromHostDir, Stat;
    var r := ["Documents"] + below;
    assert Home() + ["Documents"] + below == Home() + r && r[1..] == below;
    LayoutStat(host, bundleName, bundle, libraries, r);
    AppDirStat(host, bundleName, bundle, r);
    StatFromHostDir(host, DOCUMENTS, true, below);
    assert |Home() + ["Documents"] + below| > 5;
  }

  /** Over any run that respects the documents, whatever happens to the library or to the app's directory beside them, all
      documents that are shown are on the host, and calls on them panic as they do in step. */
  lemma DocumentsStayInStep(host: map<HostPath, Kind>, bundleName: string, bundle: Node, libraries: map<string, string>,
                            ops: seq<Op>, op: Op)
    requires bundleName !in {"Documents", "Library", "tmp"} && IsPrepared(host) && IsBundle(bundle, host)
    requires NoneReadOnlyIn(bundle, DOCUMENTS.mount)
    requires AllRespect(Volume(Layout(host, bundleName, bundle, libraries), Regions(), host), ops, Home() + ["Documents"])
    ensures var w := After(Volume(Layout(host, bundleName, bundle, libraries), Regions(), host), ops);
            var g := Home() + ["Documents"];
            && (forall q :: g <= q ==> IsOnHost(w.root, w.host, q))
            && (g < PlaceOf(op) ==> (Panics(w, op) <==> IsRefused(w, op)))
  {
    hide Layout, TreeFits, Regions, IsBundle, NoneReadOnlyIn, IsTreelike, Panics, IsRefused, IsSeparate, IsPlain;
    var v, g := Volume(Layout(host, bundleName, bundle, libraries), Regions(), host), Home() + ["Documents"];
    DocumentsAreSealed(host, bundleName, bundle, libraries);
    SealedRun(v, ops, g);
    if g < PlaceOf(op) {
      SealedPanics(After(v, ops), op, g);
    }
  }
}
