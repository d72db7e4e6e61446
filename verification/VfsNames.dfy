/** What lookups rely on in the names of a tree, from the start of an app on. */
module VfsNames {
  import opened Common
  import opened VfsTree
  import opened Volumes
  import opened VolumeRuns
  import opened VfsLookup
  import opened VfsLayout
  import Paths

  lemma NamesByStat(root: Node)
    ensures NamesAreNormal(root) <==> forall q :: Stat(root, q).Some? ==> Paths.IsNormal(q)
    ensures NoNestedMarker(root) <==> forall q :: Stat(root, q).Some? ==> Paths.Deduplicated(q) == q
  {
    hide Paths.IsNormal, Paths.Deduplicated;
    assert forall q :: Stat(root, q).Some? <==> Lookup(root, q).Some?;
  }

  // ----- Calls -----

  /** The names that a call brings in are such as a path can have; those of a resolved path are. */
  predicate HasNormalNames(op: Op) {
    match op
    case MakeDir(c) => Paths.IsNormal(c)
    case MakeFile(c) => Paths.IsNormal(c)
    case Delete(_) => true
    case Move(_, to) => Paths.IsNormal(to)
  }

  lemma NormalParts(to: Components, from: Components, below: Components)
    requires Paths.IsNormal(to) && Paths.IsNormal(from + below)
    ensures Paths.IsNormal(to + below)
  {
    forall i | 0 <= i < |below| ensures Paths.IsPlain(below[i]) && '/' !in below[i] {
      assert (from + below)[|from| + i] == below[i];
    }
  }

  /** Where what is at `q` after a call comes from: it is new, or was there before, or has been moved. */
  lemma Origin(v: Volume, op: Op, q: Components)
    requires Succeeds(v, op) && Stat(Next(v, op).root, q).Some?
    ensures match op
            case MakeDir(c) => q == c || Stat(v.root, q).Some?
            case MakeFile(c) => q == c || Stat(v.root, q).Some?
            case Delete(_) => Stat(v.root, q).Some?
            case Move(from, to) => if to <= q then Stat(v.root, from + q[|to|..]).Some? else Stat(v.root, q).Some?
  {
    hide Stat, Put, Kept, HostCanRename, MovedHost, MovedRegions, Renamed, AreWriteable;
    match op
    case MakeDir(c) => MakeDirAdds(v, c);
    case MakeFile(c) =>
      if !IsWriteableFile(v.root, c) {
        MakeFileAdds(v, c);
      }
    case Delete(c) => DeleteTakesOut(v, c);
    case Move(from, to) =>
      MoveMoves(v, from, to);
      assert Stat(WithMoved(v, from, to).root, q) == MovedStat(v.root, from, to, NewPath(v.root, to), q);
  }

  lemma CallsKeepNames(v: Volume, op: Op)
    requires NamesAreNormal(v.root) && HasNormalNames(op)
    ensures NamesAreNormal(Next(v, op).root)
  {
    hide Stat, NamesAreNormal, Paths.IsNormal, Succeeds;
    NamesByStat(v.root);
    NamesByStat(Next(v, op).root);
    if Succeeds(v, op) {
      forall q | Stat(Next(v, op).root, q).Some? ensures Paths.IsNormal(q) {
        hide Next;
        Origin(v, op, q);
        if op.Move? && op.to <= q {
          NormalParts(op.to, op.from, q[|op.to|..]);
          assert q == op.to + q[|op.to|..];
        }
      }
    }
  }

  /** No path that a call makes has the sandbox prefix in it twice. */
  ghost predicate MakesNoMarker(v: Volume, op: Op) {
    match op
    case MakeDir(c) => Paths.Deduplicated(c) == c
    case MakeFile(c) => IsWriteableFile(v.root, c) || Paths.Deduplicated(c) == c
    case Delete(_) => true
    case Move(from, to) =>
      forall below {:trigger from + below} :: Stat(v.root, from + below).Some? ==> Paths.Deduplicated(to + below) == to + below
  }

  /** A call keeps the tree free of nested prefixes exactly if it makes none itself. */
  lemma CallsKeepMarkers(v: Volume, op: Op)
    requires NoNestedMarker(v.root) && Succeeds(v, op)
    ensures NoNestedMarker(Next(v, op).root) <==> MakesNoMarker(v, op)
  {
    hide Stat, NoNestedMarker, Paths.Deduplicated, Next;
    NamesByStat(v.root);
    NamesByStat(Next(v, op).root);
    if MakesNoMarker(v, op) {
      forall q | Stat(Next(v, op).root, q).Some? ensures Paths.Deduplicated(q) == q {
        Origin(v, op, q);
        if op.Move? && op.to <= q {
          assert q == op.to + q[|op.to|..];
          assert Stat(v.root, op.from + q[|op.to|..]).Some?;
        }
        if op.MakeFile? && IsWriteableFile(v.root, op.path) {
          WriteableIsThere(v.root, op.path);
        }
      }
    }
    if NoNestedMarker(Next(v, op).root) {
      Made(v, op);
    }
  }

  lemma WriteableIsThere(root: Node, c: Components)
    requires IsWriteableFile(root, c)
    ensures Stat(root, c).Some?
  {
  }

  lemma Made(v: Volume, op: Op)
    requires Succeeds(v, op) && forall q :: Stat(Next(v, op).root, q).Some? ==> Paths.Deduplicated(q) == q
    ensures MakesNoMarker(v, op)
  {
    hide Stat, Put, Kept, HostCanRename, MovedHost, MovedRegions, Renamed, AreWriteable, Paths.Deduplicated;
    match op
    case MakeDir(c) =>
      MakeDirAdds(v, c);
      assert Stat(WithDir(v, c).root, c).Some?;
    case MakeFile(c) =>
      if !IsWriteableFile(v.root, c) {
        MakeFileAdds(v, c);
        assert Stat(WithFile(v, c).root, c).Some?;
      }
    case Delete(_) =>
    case Move(from, to) =>
      MoveMoves(v, from, to);
      forall below | Stat(v.root, from + below).Some? ensures Paths.Deduplicated(to + below) == to + below {
        assert (to + below)[|to|..] == below;
        assert Stat(WithMoved(v, from, to).root, to + below) == MovedStat(v.root, from, to, NewPath(v.root, to), to + below);
      }
  }

  /** A rename can do it: a directory `var` with `mobile/Applications` in it can not be made in the documents, but one
      of another name can, and be renamed. Its entries can not be reached any more. */
  lemma RenameMakesNestedMarker(v: Volume)
    requires var from, to := Home() + ["Documents", "v"], Home() + ["Documents", "var"];
             MoveOutcome(v, from, to).Ok? && Stat(v.root, from + ["mobile", "Applications"]).Some?
    ensures !MakesNoMarker(v, Move(Home() + ["Documents", "v"], Home() + ["Documents", "var"]))
  {
    hide Stat, MoveOutcome, Paths.Deduplicated;
    var from, to, below := Home() + ["Documents", "v"], Home() + ["Documents", "var"], ["mobile", "Applications"];
    PrefixInDocuments();
    assert Stat(v.root, from + below).Some?;
  }

  lemma PrefixInDocuments()
    ensures var q := Home() + ["Documents", "var"] + ["mobile", "Applications"];
            Paths.Deduplicated(q) != q
  {
    hide Paths.SecondMarker;
    var q := Home() + ["Documents", "var"] + ["mobile", "Applications"];
    assert q[0..3] == Paths.Marker() && q[5..8] == Paths.Marker();
    assert Paths.MarkerAt(q, 0) && Paths.MarkerAt(q, 5);
    Paths.TwoMarkers(q, 0, 5);
    assert |q| == 8;
  }

  /** Over any run of calls with such names, the names in the tree are such as a path can have. */
  lemma {:induction false} RunsKeepNames(v: Volume, ops: seq<Op>)
    requires NamesAreNormal(v.root) && forall op :: op in ops ==> HasNormalNames(op)
    ensures NamesAreNormal(After(v, ops).root)
  {
    hide NamesAreNormal, HasNormalNames, Next;
    if ops == [] {
    } else {
      RunsKeepNames(v, ops[..|ops| - 1]);
      CallsKeepNames(After(v, ops[..|ops| - 1]), ops[|ops| - 1]);
    }
  }

  ghost predicate StaysUnnested(v: Volume, ops: seq<Op>) {
    NoNestedMarker(After(v, ops).root) && (ops != [] ==> StaysUnnested(v, ops[..|ops| - 1]))
  }

  ghost predicate NeverMakesMarker(v: Volume, ops: seq<Op>) {
    ops != [] ==>
      var w, op := After(v, ops[..|ops| - 1]), ops[|ops| - 1];
      NeverMakesMarker(v, ops[..|ops| - 1]) && (Succeeds(w, op) ==> MakesNoMarker(w, op))
  }

  /** Over any run, no path ever has a nested prefix if and only if no call makes one. */
  lemma {:induction false} RunsKeepMarkers(v: Volume, ops: seq<Op>)
    requires NoNestedMarker(v.root)
    ensures StaysUnnested(v, ops) <==> NeverMakesMarker(v, ops)
  {
    hide NoNestedMarker, MakesNoMarker, Succeeds;
    if ops == [] {
    } else {
      var front, op := ops[..|ops| - 1], ops[|ops| - 1];
      RunsKeepMarkers(v, front);
      if StaysUnnested(v, front) && Succeeds(After(v, front), op) {
        hide Next;
        CallsKeepMarkers(After(v, front), op);
      }
    }
  }

  // ----- The layout -----

  lemma ChildNames(node: Node, name: string, child: Node)
    requires node.Directory? && name !in node.children && NamesAreNormal(node) && NamesAreNormal(child) && Paths.IsNormal([name])
    ensures NamesAreNormal(WithChild(node, name, child))
  {
    hide Stat, WithChild, NamesAreNormal;
    NamesByStat(node);
    NamesByStat(child);
    NamesByStat(WithChild(node, name, child));
    forall q | Stat(WithChild(node, name, child), q).Some? ensures Paths.IsNormal(q) {
      ChildStat(node, name, child, q);
      if q != [] && q[0] == name {
        assert q == [name] + q[1..];
      }
    }
  }

  /** The host's names are such as a path can have. */
  ghost predicate HostNamesAreNormal(host: map<HostPath, Kind>) {
    forall p :: p in host ==> Paths.IsNormal(p.parts)
  }

  lemma HostDirNames(host: map<HostPath, Kind>, path: HostPath)
    requires IsTreelike(host) && HostKind(host, path) == Some(DirectoryKind) && HostNamesAreNormal(host)
    ensures NamesAreNormal(FromHostDir(host, path, true))
  {
    hide Stat, FromHostDir, IsTreelike, NamesAreNormal;
    NamesByStat(FromHostDir(host, path, true));
    forall q | Stat(FromHostDir(host, path, true), q).Some? ensures Paths.IsNormal(q) {
      StatFromHostDir(host, path, true, q);
      assert path.Append(q) in host;
      SuffixIsNormal(path.parts, q);
    }
  }

  lemma SuffixIsNormal(front: Components, q: Components)
    requires Paths.IsNormal(front + q)
    ensures Paths.IsNormal(q)
  {
    NormalParts([], front, q);
    assert [] + q == q;
  }

  lemma FlatNames(node: Node)
    requires node.Directory? && forall name :: name in node.children ==> node.children[name].File? && Paths.IsNormal([name])
    ensures NamesAreNormal(node)
  {
    forall q | Lookup(node, q).Some? ensures Paths.IsNormal(q) {
      if q != [] {
        LeafAlone(node.children[q[0]], q[1..]);
        assert Stat(node.children[q[0]], q[1..]).Some?;
        assert q[1..] == [] && q == [q[0]];
      }
    }
  }

  lemma LayoutNamesAreNormal()
    ensures forall name :: name in {"Documents", "Library", "tmp", "var", "usr", "lib", "mobile", "Applications", FAKE_UUID} ==>
              Paths.IsNormal([name])
  {
  }

  /** An app starts with names that lookups can rely on, if the host's and the bundle's are. */
  lemma LayoutHasNormalNames(host: map<HostPath, Kind>, bundleName: string, bundle: Node, libraries: map<string, string>)
    requires bundleName !in {"Documents", "Library", "tmp"} && IsPrepared(host) && HostNamesAreNormal(host)
    requires NamesAreNormal(bundle) && Paths.IsNormal([bundleName]) && forall name :: name in libraries ==> Paths.IsNormal([name])
    ensures NamesAreNormal(Layout(host, bundleName, bundle, libraries))
  {
    hide NamesAreNormal, FromHostDir, IsTreelike, Paths.IsNormal, HostNamesAreNormal;
    LayoutNamesAreNormal();
    HostDirNames(host, ROOT);
    HostDirNames(host, LIBRARY);
    AppDirNames(host, bundleName, bundle);
    FlatNames(Libraries(libraries));
    FlatNames(ReadOnlyDir());
    LayoutParts(host, bundleName, bundle, libraries);
    var app, library, root := AppDir(host, bundleName, bundle), FromHostDir(host, LIBRARY, true), FromHostDir(host, ROOT, true);
    VarNames(app, library);
    hide AppDir, VarDir;
    ChildNames(root, "var", VarDir(app, library));
    ChildNames(ReadOnlyDir(), "lib", Libraries(libraries));
    ChildNames(WithChild(root, "var", VarDir(app, library)), "usr", WithChild(ReadOnlyDir(), "lib", Libraries(libraries)));
  }

  lemma VarNames(app: Node, library: Node)
    requires NamesAreNormal(app) && NamesAreNormal(library)
    ensures NamesAreNormal(VarDir(app, library))
  {
    hide NamesAreNormal, Paths.IsNormal;
    LayoutNamesAreNormal();
    FlatNames(ReadOnlyDir());
    var applications := WithChild(ReadOnlyDir(), FAKE_UUID, app);
    ChildNames(ReadOnlyDir(), FAKE_UUID, app);
    ChildNames(ReadOnlyDir(), "Applications", applications);
    var mobile := WithChild(ReadOnlyDir(), "Applications", applications);
    ChildNames(mobile, "Library", library);
    ChildNames(ReadOnlyDir(), "mobile", WithChild(mobile, "Library", library));
  }

  lemma AppDirNames(host: map<HostPath, Kind>, bundleName: string, bundle: Node)
    requires bundleName !in {"Documents", "Library", "tmp"} && IsPrepared(host) && HostNamesAreNormal(host)
    requires NamesAreNormal(bundle) && Paths.IsNormal([bundleName])
    ensures NamesAreNormal(AppDir(host, bundleName, bundle))
  {
    hide NamesAreNormal, FromHostDir, IsTreelike, Paths.IsNormal, HostNamesAreNormal;
    LayoutNamesAreNormal();
    var sandbox := Directory(map[], Some(APP_SANDBOX));
    FlatNames(sandbox);
    HostDirNames(host, DOCUMENTS);
    HostDirNames(host, LIBRARY);
    HostDirNames(host, TMP);
    AppDirParts(host, bundleName, bundle);
    var dir1 := WithChild(sandbox, bundleName, bundle);
    ChildNames(sandbox, bundleName, bundle);
    ChildNames(dir1, "Documents", FromHostDir(host, DOCUMENTS, true));
    var dir2 := WithChild(dir1, "Documents", FromHostDir(host, DOCUMENTS, true));
    ChildNames(dir2, "Library", FromHostDir(host, LIBRARY, true));
    ChildNames(WithChild(dir2, "Library", FromHostDir(host, LIBRARY, true)), "tmp", FromHostDir(host, TMP, true));
  }
}
