/** When each call on the virtual filesystem succeeds, fails or panics, told by what the tree shows and the host has. */
module VfsOutcomes {
  import opened Common
  import opened VfsTree
  import opened Volumes
  import opened VolumeRuns

  // ----- Making and removing -----

  /** The path has a directory to be in. */
  predicate HasDirectory(root: Node, c: Components) {
    c != [] && Lookup(root, ParentOf(c)).Some? && Lookup(root, ParentOf(c)).value.Directory?
  }

  /** Something is in the directory under the path's name. */
  predicate HasEntry(root: Node, c: Components)
    requires HasDirectory(root, c)
  {
    NameOf(c) in Lookup(root, ParentOf(c)).value.children
  }

  function EntryAt(root: Node, c: Components): Node
    requires HasDirectory(root, c) && HasEntry(root, c)
  {
    Lookup(root, ParentOf(c)).value.children[NameOf(c)]
  }

  /** The host path of the directory, if it can be written to. */
  function DirectoryHost(root: Node, c: Components): Option<HostPath>
    requires HasDirectory(root, c)
  {
    Lookup(root, ParentOf(c)).value.hostPath
  }

  predicate HostHasDirectory(host: map<HostPath, Kind>, p: HostPath) {
    p in host && host[p] == DirectoryKind
  }

  predicate HostHasFile(host: map<HostPath, Kind>, p: HostPath) {
    p in host && host[p] == FileKind
  }

  lemma EntryIsThere(root: Node, c: Components)
    requires HasDirectory(root, c)
    ensures Lookup(root, c) == if HasEntry(root, c) then Some(EntryAt(root, c)) else None
  {
    assert c == ParentOf(c) + [NameOf(c)];
    LookupSplits(root, ParentOf(c), [NameOf(c)]);
  }

  /** Making a directory: what is missing, in the way or read-only decides, and nothing else. */
  ghost predicate IsMakeDirResult(v: Volume, c: Components, result: Outcome<FsError>) {
    if c == [] || Lookup(v.root, ParentOf(c)) == None then result == Err(NonexistentParentDir)
    else if !HasDirectory(v.root, c) then result == Err(InvalidParentDir)
    else
      && (result == Err(AlreadyExist) <==> HasEntry(v.root, c))
      && (result == Err(ReadonlyParentDir) <==> !HasEntry(v.root, c) && DirectoryHost(v.root, c) == None)
      && (result == Ok <==>
            !HasEntry(v.root, c) && DirectoryHost(v.root, c).Some? && HostHasDirectory(v.host, DirectoryHost(v.root, c).value))
      && (result == Panic <==>
            !HasEntry(v.root, c) && DirectoryHost(v.root, c).Some? && !HostHasDirectory(v.host, DirectoryHost(v.root, c).value))
  }

  lemma MakeDirExactly(v: Volume, c: Components)
    ensures IsMakeDirResult(v, c, MakeDirOutcome(v, c))
  {
    if HasDirectory(v.root, c) {
      EntryIsThere(v.root, c);
    }
  }

  /** There is a file that can be written to already. */
  predicate HasFile(root: Node, c: Components)
    requires HasDirectory(root, c)
  {
    HasEntry(root, c) && EntryAt(root, c).File? && EntryAt(root, c).writeable
  }

  /** Opening a file for writing, or creating it. A file that can be written to is opened, if it is on the host; for
      anything else, and for nothing at all, a file is created if the directory can be written to and the host has that
      directory, and no other one where the file is to be. */
  ghost predicate IsMakeFileResult(v: Volume, c: Components, result: Outcome<()>) {
    if !HasDirectory(v.root, c) then result == Err(())
    else if HasFile(v.root, c) then
      result == if EntryAt(v.root, c).location.OnHost? ==> HostHasFile(v.host, EntryAt(v.root, c).location.path) then Ok else Panic
    else
      && (result == Err(()) <==> DirectoryHost(v.root, c) == None)
      && (result == Ok <==>
            && DirectoryHost(v.root, c).Some? && HostHasDirectory(v.host, DirectoryHost(v.root, c).value)
            && !HostHasDirectory(v.host, DirectoryHost(v.root, c).value.Join(NameOf(c))))
  }

  lemma MakeFileExactly(v: Volume, c: Components)
    ensures IsMakeFileResult(v, c, MakeFileOutcome(v, c))
  {
    if HasDirectory(v.root, c) {
      EntryIsThere(v.root, c);
    }
  }

  /** The host has the entry, with nothing in it if it is a directory. */
  ghost predicate CanGo(host: map<HostPath, Kind>, entry: Node) {
    match entry
    case File(OnHost(p), writeable) => writeable && HostHasFile(host, p)
    case Directory(children, Some(p)) => children == map[] && HostHasDirectory(host, p) && !HasLeftOvers(host, p)
    case _ => false
  }

  /** Removing a file or a directory. */
  ghost predicate IsDeleteResult(v: Volume, c: Components, result: Outcome<FsError>) {
    if c == [] || Lookup(v.root, ParentOf(c)) == None then result == Err(NonexistentParentDir)
    else if !HasDirectory(v.root, c) then result == Err(InvalidParentDir)
    else if DirectoryHost(v.root, c) == None then result == Err(ReadonlyParentDir)
    else if !HasEntry(v.root, c) then result == Err(DoesNotExist)
    else
      var entry := EntryAt(v.root, c);
      && (result == Err(DirectoryNotEmpty) <==> entry.Directory? && entry.children != map[])
      && (result == Err(AccessDenied) <==>
            if entry.File? then !entry.writeable else entry.children == map[] && entry.hostPath == None)
      && (result == Ok <==> CanGo(v.host, entry))
      && result !in {Err(NonexistentParentDir), Err(InvalidParentDir), Err(ReadonlyParentDir), Err(DoesNotExist), Err(AlreadyExist)}
  }

  lemma DeleteExactly(v: Volume, c: Components)
    ensures IsDeleteResult(v, c, DeleteOutcome(v, c))
  {
    if HasDirectory(v.root, c) {
      EntryIsThere(v.root, c);
      if HasEntry(v.root, c) && EntryAt(v.root, c).Directory? {
        EmptyEntry(v.root, c);
      }
    }
  }

  lemma EmptyEntry(root: Node, c: Components)
    requires Lookup(root, c).Some? && Lookup(root, c).value.Directory?
    ensures IsEmptyDirectory(root, c) <==> Lookup(root, c).value.children == map[]
  {
    var entry := Lookup(root, c).value;
    if entry.children == map[] {
      forall q | c <= q && Stat(root, q).Some? ensures q == c {
        assert q == c + q[|c|..];
        LookupSplits(root, c, q[|c|..]);
      }
    } else {
      var name :| name in entry.children;
      LookupSplits(root, c, [name]);
      assert c <= c + [name] && Stat(root, c + [name]).Some?;
    }
  }

  // ----- Renaming -----

  /** Where in the tree can be written to, and where that is on the host. */
  function WriteableHost(root: Node, c: Components): Option<HostPath> {
    match Lookup(root, c)
    case Some(File(OnHost(p), true)) => Some(p)
    case Some(Directory(_, Some(p))) => Some(p)
    case _ => None
  }

  /** As POSIX has it: the host has the one, and the directory for the other; what is there already is of the same kind and
      has nothing in it; and nothing is moved into itself. */
  ghost predicate HostAllows(host: map<HostPath, Kind>, p: HostPath, directory: HostPath, name: string) {
    var q := directory.Join(name);
    && p in host && HostHasDirectory(host, directory)
    && (q == p
        || (!p.IsPrefixOf(q) && (q in host ==> host[q] == host[p]) && !HasLeftOvers(host, q)))
  }

  /** Renaming: something that can be written to, to a place in a directory that can be written to, if the host allows it.
      What is in the new place of the tree does not matter, nor what is in the directory that is moved. */
  ghost predicate IsMoveResult(v: Volume, from: Components, to: Components, result: Outcome<()>) {
    var isAllowed :=
      && WriteableHost(v.root, from).Some? && HasDirectory(v.root, to) && DirectoryHost(v.root, to).Some?
      && HostAllows(v.host, WriteableHost(v.root, from).value, DirectoryHost(v.root, to).value, NameOf(to));
    && (result == Ok <==> isAllowed && !(from <= ParentOf(to)))
    && (result == Err(()) <==> !isAllowed)
    && (result == Panic <==> isAllowed && from <= ParentOf(to))
  }

  lemma MoveExactly(v: Volume, from: Components, to: Components)
    ensures IsMoveResult(v, from, to, MoveOutcome(v, from, to))
  {
    hide HostAllows, HostCanRename;
    if HasDirectory(v.root, to) && DirectoryHost(v.root, to).Some? && WriteableHost(v.root, from).Some? {
      AllowedOnHost(v.host, WriteableHost(v.root, from).value, DirectoryHost(v.root, to).value, NameOf(to));
    }
  }

  lemma AllowedOnHost(host: map<HostPath, Kind>, p: HostPath, directory: HostPath, name: string)
    ensures directory.Join(name).parts != []
    ensures HostCanRename(host, p, directory.Join(name)) <==> HostAllows(host, p, directory, name)
  {
    JoinedBehind(directory, name);
  }

  lemma JoinedBehind(directory: HostPath, name: string)
    ensures directory.Join(name).parts != [] && HostPath(directory.mount, ParentOf(directory.Join(name).parts)) == directory
  {
  }

  // ----- What the host has afterwards -----

  /** One entry more, if there was none; everything else is as it was, also what is left over. */
  ghost predicate HostGains(host: map<HostPath, Kind>, host': map<HostPath, Kind>, p: HostPath, kind: Kind) {
    forall h {:trigger HostKind(host', h)} :: HostKind(host', h) == if h == p && p !in host then Some(kind) else HostKind(host, h)
  }

  /** Everything at and below `p`, shown or not, is at and below `q`; nothing is left of it and of what was at `q`; everything
      else is as it was. */
  ghost predicate HostMoves(host: map<HostPath, Kind>, host': map<HostPath, Kind>, p: HostPath, q: HostPath) {
    && (forall below :: HostKind(host', q.Append(below)) == HostKind(host, p.Append(below)))
    && (forall h {:trigger HostKind(host', h)} :: !q.IsPrefixOf(h) ==>
          HostKind(host', h) == if p.IsPrefixOf(h) then None else HostKind(host, h))
  }

  lemma GainedOnHost(host: map<HostPath, Kind>, p: HostPath, kind: Kind)
    ensures HostGains(host, HostWith(host, p, kind), p, kind)
  {
  }

  lemma MovedOnHost(host: map<HostPath, Kind>, p: HostPath, q: HostPath)
    ensures HostMoves(host, MovedHost(host, p, q), p, q)
  {
    hide MovedHost, MovedKind;
    forall below ensures HostKind(MovedHost(host, p, q), q.Append(below)) == HostKind(host, p.Append(below)) {
      HostMoved(host, p, q, q.Append(below));
      MovedFrom(host, p, q, below);
    }
    forall h | !q.IsPrefixOf(h) ensures HostKind(MovedHost(host, p, q), h) == if p.IsPrefixOf(h) then None else HostKind(host, h) {
      HostMoved(host, p, q, h);
      MovedAway(host, p, q, h);
    }
  }

  lemma MovedAway(host: map<HostPath, Kind>, p: HostPath, q: HostPath, h: HostPath)
    requires !q.IsPrefixOf(h)
    ensures MovedKind(host, p, q, h) == if p.IsPrefixOf(h) then None else HostKind(host, h)
  {
  }

  // ----- What is replaced -----

  /** On a host where every entry is in a directory, nothing is in a file. */
  lemma {:induction false} NothingInFile(host: map<HostPath, Kind>, p: HostPath, r: HostPath)
    requires IsTreelike(host) && HostHasFile(host, p) && r in host && p.IsPrefixOf(r)
    ensures r == p
    decreases |r.parts|
  {
    if |r.parts| > |p.parts| {
      var up := HostPath(r.mount, ParentOf(r.parts));
      assert up in host && host[up] == DirectoryKind && p.IsPrefixOf(up);
      NothingInFile(host, p, up);
    }
  }

  lemma FilesAreApart(v: Volume, from: Components, to: Components)
    requires IsWriteableFile(v.root, from) && IsWriteableFile(v.root, to) && from != to
    ensures !(from <= to) && !(to <= from)
  {
    FileIsLeaf(v.root, from);
    FileIsLeaf(v.root, to);
  }

  lemma FileInStep(v: Volume, c: Components)
    requires InStep(v) && IsWriteableFile(v.root, c) && HostOf(v.root, c).Some?
    ensures HostHasFile(v.host, HostOf(v.root, c).value)
    ensures c !in v.regions ==>
              && c != [] && HostOf(v.root, ParentOf(c)).Some? && HostOf(v.root, c) == Some(NewPath(v.root, c))
              && IsDirectory(v.root, ParentOf(c)) && HostHasDirectory(v.host, HostOf(v.root, ParentOf(c)).value)
  {
    assert IsOnHost(v.root, v.host, c);
    if c !in v.regions {
      HostPathsJoin(v.root, v.regions, c);
      ParentIsDirectory(v.root, c);
      assert IsOnHost(v.root, v.host, ParentOf(c));
    }
  }

  lemma FileMovedOnHost(host: map<HostPath, Kind>, p: HostPath, q: HostPath, h: HostPath)
    requires IsTreelike(host) && HostHasFile(host, p) && HostHasFile(host, q) && p != q
    ensures HostKind(MovedHost(host, p, q), h) == if h == q then Some(FileKind) else if h == p then None else HostKind(host, h)
  {
    hide MovedHost, IsTreelike;
    HostMoved(host, p, q, h);
    if q.IsPrefixOf(h) {
      var r := p.Append(q.Behind(h));
      assert h == q.Append(q.Behind(h)) && (q.Behind(h) == [] ==> r == p);
      if h in host {
        NothingInFile(host, q, h);
      }
      if r in host {
        NothingInFile(host, p, r);
        assert r.parts == p.parts + q.Behind(h);
      }
    } else if p.IsPrefixOf(h) && h in host {
      NothingInFile(host, p, h);
    }
  }

  lemma FileCanReplace(v: Volume, from: Components, to: Components)
    requires InStep(v) && IsTreelike(v.host) && to !in v.regions && from != to
    requires IsWriteableFile(v.root, from) && HostOf(v.root, from).Some? && IsWriteableFile(v.root, to) && HostOf(v.root, to).Some?
    requires HostOf(v.root, from) != HostOf(v.root, to)
    ensures MoveOutcome(v, from, to) == Ok
  {
    hide InStep, IsTreelike, IsWriteableFile;
    FileInStep(v, from);
    FileInStep(v, to);
    FilesAreApart(v, from, to);
    var p, q := HostOf(v.root, from).value, HostOf(v.root, to).value;
    assert HostAllows(v.host, p, HostOf(v.root, ParentOf(to)).value, NameOf(to)) by {
      if p.IsPrefixOf(q) {
        NothingInFile(v.host, p, q);
      }
      forall r | r in v.host && q.IsPrefixOf(r) ensures r == q {
        NothingInFile(v.host, q, r);
      }
    }
    WriteableFile(v.root, from);
    assert ParentOf(to) <= to;
    JoinedBehind(HostOf(v.root, ParentOf(to)).value, NameOf(to));
  }

  lemma WriteableFile(root: Node, c: Components)
    requires IsWriteableFile(root, c)
    ensures IsWriteable(root, c)
  {
  }

  /** Saving by way of another file: in step, a file renamed onto another one replaces it, on the host as well. */
  lemma RenameReplacesFile(v: Volume, from: Components, to: Components)
    requires InStep(v) && IsTreelike(v.host) && to !in v.regions && from != to
    requires IsWriteableFile(v.root, from) && HostOf(v.root, from).Some? && IsWriteableFile(v.root, to) && HostOf(v.root, to).Some?
    requires HostOf(v.root, from) != HostOf(v.root, to)
    ensures MoveOutcome(v, from, to) == Ok
    ensures var w, p, q := Next(v, Move(from, to)), HostOf(v.root, from).value, HostOf(v.root, to).value;
            && Stat(w.root, to) == Some(Info(FileKind, true, Some(q))) && Stat(w.root, from) == None
            && (forall r :: r != from && r != to ==> Stat(w.root, r) == Stat(v.root, r))
            && (forall h :: HostKind(w.host, h) == if h == q then Some(FileKind) else if h == p then None else HostKind(v.host, h))
  {
    hide InStep, IsTreelike, HostCanRename, MovedHost, MovedRegions, Renamed;
    FileCanReplace(v, from, to);
    FileInStep(v, from);
    FileInStep(v, to);
    FilesAreApart(v, from, to);
    MoveMoves(v, from, to);
    var w, p, q := Next(v, Move(from, to)), HostOf(v.root, from).value, HostOf(v.root, to).value;
    forall h ensures HostKind(w.host, h) == if h == q then Some(FileKind) else if h == p then None else HostKind(v.host, h) {
      FileMovedOnHost(v.host, p, q, h);
    }
    FileIsLeaf(v.root, from);
    FileIsLeaf(v.root, to);
    forall r ensures Stat(w.root, r) == if r == to then Some(Info(FileKind, true, Some(q))) else if r == from then None else Stat(v.root, r) {
      assert Stat(w.root, r) == MovedStat(v.root, from, to, q, r);
      FileMoved(v.root, from, to, q, r);
    }
  }

  lemma FileMoved(root: Node, from: Components, to: Components, q: HostPath, r: Components)
    requires IsWriteableFile(root, from) && HostOf(root, from).Some? && IsEmptyDirectory(root, from) && IsEmptyDirectory(root, to)
    requires !(from <= to) && !(to <= from)
    ensures MovedStat(root, from, to, q, r) ==
            if r == to then Some(Info(FileKind, true, Some(q))) else if r == from then None else Stat(root, r)
  {
    if to <= r {
      var below := r[|to|..];
      assert r == to + below;
      if below == [] {
        assert from + [] == from && q.parts + [] == q.parts;
      } else {
        assert from <= from + below && from + below != from;
      }
    }
  }

  /** No call takes away or makes a file of a directory that the host has something in. */
  lemma StepKeepsTreelike(v: Volume, op: Op)
    requires IsTreelike(v.host)
    ensures IsTreelike(Next(v, op).host)
  {
    if Succeeds(v, op) {
      match op
      case MakeDir(c) => AddingKeepsTreelike(v.host, NewPath(v.root, c), DirectoryKind);
      case MakeFile(c) =>
        if !IsWriteableFile(v.root, c) {
          AddingKeepsTreelike(v.host, NewPath(v.root, c), FileKind);
        }
      case Delete(c) => RemovingKeepsTreelike(v.host, HostOf(v.root, c).value, KindOf(v.root, c).value);
      case Move(from, to) => MovingKeepsTreelike(v.host, HostOf(v.root, from).value, NewPath(v.root, to));
    }
  }

  lemma AddingKeepsTreelike(host: map<HostPath, Kind>, p: HostPath, kind: Kind)
    requires IsTreelike(host) && p.parts != [] && HostHasDirectory(host, HostPath(p.mount, ParentOf(p.parts)))
    ensures IsTreelike(HostWith(host, p, kind))
  {
  }

  lemma RemovingKeepsTreelike(host: map<HostPath, Kind>, p: HostPath, kind: Kind)
    requires IsTreelike(host) && HostCanRemove(host, p, kind)
    ensures IsTreelike(host - {p})
  {
    forall r | r in host - {p} && r.parts != []
      ensures HostKind(host - {p}, HostPath(r.mount, ParentOf(r.parts))) == Some(DirectoryKind)
    {
      assert HostPath(r.mount, ParentOf(r.parts)).IsPrefixOf(r);
      if HostPath(r.mount, ParentOf(r.parts)) == p && kind == FileKind {
        NothingInFile(host, p, r);
      }
    }
  }

  lemma MovingKeepsTreelike(host: map<HostPath, Kind>, p: HostPath, q: HostPath)
    requires IsTreelike(host) && q.parts != [] && HostCanRename(host, p, q)
    ensures IsTreelike(MovedHost(host, p, q))
  {
    hide MovedHost, MovedKind;
    forall r | r in MovedHost(host, p, q) && r.parts != []
      ensures HostKind(MovedHost(host, p, q), HostPath(r.mount, ParentOf(r.parts))) == Some(DirectoryKind)
    {
      HostMoved(host, p, q, r);
      HostMoved(host, p, q, HostPath(r.mount, ParentOf(r.parts)));
      DirectoryMoved(host, p, q, r);
    }
  }

  lemma DirectoryMoved(host: map<HostPath, Kind>, p: HostPath, q: HostPath, r: HostPath)
    requires IsTreelike(host) && q.parts != [] && HostCanRename(host, p, q) && r.parts != [] && MovedKind(host, p, q, r).Some?
    ensures MovedKind(host, p, q, HostPath(r.mount, ParentOf(r.parts))) == Some(DirectoryKind)
  {
    var up := HostPath(r.mount, ParentOf(r.parts));
    if q == r {
      DirectoryStays(host, p, q);
    } else if q.IsPrefixOf(r) {
      DirectoryMovesAlong(host, p, q, r);
    } else {
      assert up.IsPrefixOf(r);
      assert q.IsPrefixOf(up) ==> q.IsPrefixOf(r);
      assert p.IsPrefixOf(up) ==> p.IsPrefixOf(r);
    }
  }

  lemma DirectoryStays(host: map<HostPath, Kind>, p: HostPath, q: HostPath)
    requires q.parts != [] && HostCanRename(host, p, q) && p in host
    ensures MovedKind(host, p, q, HostPath(q.mount, ParentOf(q.parts))) == Some(DirectoryKind)
  {
    var up := HostPath(q.mount, ParentOf(q.parts));
    assert !q.IsPrefixOf(up) && up.IsPrefixOf(q);
    if p.IsPrefixOf(up) {
      assert p.IsPrefixOf(q);
    }
  }

  lemma DirectoryMovesAlong(host: map<HostPath, Kind>, p: HostPath, q: HostPath, r: HostPath)
    requires IsTreelike(host) && q.IsPrefixOf(r) && q != r && p.Append(q.Behind(r)) in host
    ensures r.parts != [] && MovedKind(host, p, q, HostPath(r.mount, ParentOf(r.parts))) == Some(DirectoryKind)
  {
    var up, below := HostPath(r.mount, ParentOf(r.parts)), q.Behind(r);
    assert q.IsPrefixOf(up) && q.Behind(up) == ParentOf(below);
    var s := p.Append(below);
    assert s in host && ParentOf(s.parts) == p.parts + ParentOf(below);
  }

  lemma {:induction false} RunKeepsTreelike(v: Volume, ops: seq<Op>)
    requires IsTreelike(v.host)
    ensures IsTreelike(After(v, ops).host)
  {
    hide IsTreelike, Next;
    if ops == [] {
    } else {
      RunKeepsTreelike(v, ops[..|ops| - 1]);
      StepKeepsTreelike(After(v, ops[..|ops| - 1]), ops[|ops| - 1]);
    }
  }
}
