/** The tree of the virtual filesystem, seen through what each path leads to. */
module VfsTree {
  import opened Common

  type Components = seq<string>

  /** A path on the host: the region of the guest's filesystem that it backs, and the names from there on. */
  datatype HostPath = HostPath(mount: nat, parts: Components) {
    function Join(name: string): HostPath {
      HostPath(mount, parts + [name])
    }

    function Append(names: Components): HostPath {
      HostPath(mount, parts + names)
    }

    predicate IsPrefixOf(other: HostPath) {
      mount == other.mount && parts <= other.parts
    }

    function Behind(other: HostPath): Components
      requires IsPrefixOf(other)
    {
      other.parts[|parts|..]
    }
  }

  datatype Location = OnHost(path: HostPath) | Resource(name: string)

  datatype Node =
    | File(location: Location, writeable: bool)
    | Directory(children: map<string, Node>, hostPath: Option<HostPath>)

  datatype Kind = FileKind | DirectoryKind

  /** What is at a path: a file or a directory, whether it can be written to, and where it is on the host, if it is. */
  datatype Info = Info(kind: Kind, writeable: bool, host: Option<HostPath>)

  function InfoOf(node: Node): Info {
    match node
    case File(location, writeable) => Info(FileKind, writeable, if location.OnHost? then Some(location.path) else None)
    case Directory(_, hostPath) => Info(DirectoryKind, hostPath.Some?, hostPath)
  }

  function Lookup(node: Node, path: Components): Option<Node>
    decreases |path|
  {
    if path == [] then Some(node)
    else if node.Directory? && path[0] in node.children then Lookup(node.children[path[0]], path[1..])
    else None
  }

  function Stat(node: Node, path: Components): Option<Info> {
    match Lookup(node, path)
    case Some(n) => Some(InfoOf(n))
    case None => None
  }

  function ParentOf(path: Components): Components
    requires path != []
  {
    path[..|path| - 1]
  }

  function NameOf(path: Components): string
    requires path != []
  {
    path[|path| - 1]
  }

  // ----- Changing one entry -----

  /** The tree with another node, or none, at a path. */
  function Put(node: Node, path: Components, entry: Option<Node>): Node
    requires path != []
    decreases |path|
  {
    if !node.Directory? then node
    else if |path| == 1 then
      match entry
      case Some(n) => node.(children := node.children[path[0] := n])
      case None => node.(children := node.children - {path[0]})
    else if path[0] in node.children then
      node.(children := node.children[path[0] := Put(node.children[path[0]], path[1..], entry)])
    else node
  }

  predicate IsDirectory(node: Node, path: Components) {
    Stat(node, path).Some? && Stat(node, path).value.kind == DirectoryKind
  }

  predicate IsWriteable(node: Node, path: Components) {
    Stat(node, path).Some? && Stat(node, path).value.writeable
  }

  function HostOf(node: Node, path: Components): Option<HostPath> {
    match Stat(node, path)
    case Some(info) => info.host
    case None => None
  }

  function KindOf(node: Node, path: Components): Option<Kind> {
    match Stat(node, path)
    case Some(info) => Some(info.kind)
    case None => None
  }

  /** Only what is at the path, and below it, changes. */
  lemma {:induction false} StatPut(node: Node, path: Components, entry: Option<Node>, q: Components)
    requires path != [] && IsDirectory(node, ParentOf(path))
    ensures Stat(Put(node, path, entry), q) ==
            if path <= q then (match entry case Some(n) => Stat(n, q[|path|..]) case None => None) else Stat(node, q)
    decreases |path|
  {
    if |path| == 1 {
      if q != [] {
        assert path <= q <==> q[0] == path[0];
      }
    } else {
      assert ParentOf(path)[0] == path[0] && ParentOf(path)[1..] == ParentOf(path[1..]);
      if q != [] && q[0] == path[0] {
        StatPut(node.children[path[0]], path[1..], entry, q[1..]);
        assert path <= q <==> path[1..] <= q[1..];
        assert path <= q ==> q[|path|..] == q[1..][|path[1..]|..];
      } else {
        assert !(path <= q);
      }
    }
  }

  lemma {:induction false} LookupSplits(node: Node, p: Components, q: Components)
    ensures Lookup(node, p + q) == match Lookup(node, p) case Some(n) => Lookup(n, q) case None => None
    decreases |p|
  {
    if p == [] {
      assert p + q == q;
    } else {
      assert (p + q)[1..] == p[1..] + q;
      if node.Directory? && p[0] in node.children {
        LookupSplits(node.children[p[0]], p[1..], q);
      }
    }
  }

  /** Something at a path has a directory above it. */
  lemma ParentIsDirectory(node: Node, path: Components)
    requires path != [] && Stat(node, path).Some?
    ensures IsDirectory(node, ParentOf(path))
  {
    LookupSplits(node, ParentOf(path), [NameOf(path)]);
    assert path == ParentOf(path) + [NameOf(path)];
  }

  lemma StatBelow(node: Node, path: Components, below: Components)
    requires Lookup(node, path).Some?
    ensures Stat(node, path + below) == Stat(Lookup(node, path).value, below)
  {
    LookupSplits(node, path, below);
  }

  lemma LeafHasNothingBelow(node: Node, path: Components, below: Components)
    requires Lookup(node, path).Some? && below != []
    requires Lookup(node, path).value.Directory? ==> Lookup(node, path).value.children == map[]
    ensures Stat(node, path + below) == None
  {
    LookupSplits(node, path, below);
  }

  // ----- Moving to another place on the host -----

  /** A node with new host paths all the way down; below a read-only directory nothing changes. */
  function Rehosted(node: Node, path: HostPath): Node {
    match node
    case File(OnHost(_), writeable) => File(OnHost(path), writeable)
    case File(Resource(_), _) => node
    case Directory(children, Some(_)) =>
      Directory(map name | name in children :: Rehosted(children[name], path.Join(name)), Some(path))
    case Directory(_, None) => node
  }

  /** On the way from `from` down to `below`, everything before the last entry can be written to. */
  ghost predicate AreWriteable(node: Node, from: Components, below: Components) {
    forall k :: 0 <= k < |below| ==> IsWriteable(node, from + below[..k])
  }

  /** What a path in a rehosted tree leads to: what it led to before, at the host path that its place calls for, unless
      something on the way there is read-only. */
  ghost function RehostedStat(node: Node, from: Components, path: HostPath, below: Components): Option<Info> {
    match Stat(node, from + below)
    case Some(info) =>
      if info.host.Some? && AreWriteable(node, from, below) then Some(info.(host := Some(path.Append(below)))) else Some(info)
    case None => None
  }

  lemma {:induction false} StatRehosted(node: Node, path: HostPath, q: Components)
    ensures Stat(Rehosted(node, path), q) == RehostedStat(node, [], path, q)
    decreases |q|
  {
    assert [] + q == q;
    if q == [] {
      assert path.parts + [] == path.parts;
    } else {
      hide AreWriteable, Stat;
      StatChild(node, q);
      StatChild(Rehosted(node, path), q);
      if node.Directory? && q[0] in node.children {
        var child := node.children[q[0]];
        WriteableFromChild(node, q);
        StatRehosted(child, path.Join(q[0]), q[1..]);
        assert path.Join(q[0]).Append(q[1..]) == path.Append(q) && [] + q[1..] == q[1..];
      }
    }
  }

  lemma StatChild(node: Node, q: Components)
    requires q != []
    ensures Stat(node, q) == if node.Directory? && q[0] in node.children then Stat(node.children[q[0]], q[1..]) else None
  {
  }

  lemma WriteableFromChild(node: Node, q: Components)
    requires q != [] && node.Directory? && q[0] in node.children
    ensures AreWriteable(node, [], q) <==> node.hostPath.Some? && AreWriteable(node.children[q[0]], [], q[1..])
  {
    var child := node.children[q[0]];
    assert [] + q[..0] == [];
    forall k | 0 <= k < |q| - 1 ensures IsWriteable(node, [] + q[..k + 1]) <==> IsWriteable(child, [] + q[1..][..k]) {
      assert ([] + q[..k + 1])[1..] == [] + q[1..][..k];
    }
    if AreWriteable(node, [], q) {
      assert IsWriteable(node, [] + q[..0]);
      forall k | 0 <= k < |q| - 1 ensures IsWriteable(child, [] + q[1..][..k]) {
        assert IsWriteable(node, [] + q[..k + 1]);
      }
    }
    if node.hostPath.Some? && AreWriteable(child, [], q[1..]) {
      forall k | 0 <= k < |q| ensures IsWriteable(node, [] + q[..k]) {
        if k > 0 {
          assert IsWriteable(child, [] + q[1..][..k - 1]);
        }
      }
    }
  }
}
