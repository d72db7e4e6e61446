/** What calls on the virtual filesystem keep: one at a time, and over whole runs. */
module VolumeRuns {
  import opened Common
  import opened VfsTree
  import opened Volumes

  // ----- What each step does -----

  lemma FileIsLeaf(root: Node, c: Components)
    requires Stat(root, c).Some? && !IsDirectory(root, c)
    ensures IsEmptyDirectory(root, c)
  {
    forall q | c <= q && Stat(root, q).Some? ensures q == c {
      assert q == c + q[|c|..];
      LookupSplits(root, c, q[|c|..]);
    }
  }

  lemma NothingBelowNothing(root: Node, c: Components, q: Components)
    requires Stat(root, c) == None && c <= q
    ensures Stat(root, q) == None
  {
    assert q == c + q[|c|..];
    LookupSplits(root, c, q[|c|..]);
  }

  /** A new directory appears where nothing was; everything else stays. */
  lemma MakeDirAdds(v: Volume, c: Components)
    requires MakeDirOutcome(v, c).Ok?
    ensures Replaces(v.root, WithDir(v, c).root, c, Some(Info(DirectoryKind, true, Some(NewPath(v.root, c)))))
    ensures forall q :: c <= q ==> Stat(v.root, q) == None
  {
    hide Put, Stat;
    PuttingReplaces(v.root, c, Some(Directory(map[], Some(NewPath(v.root, c)))));
    forall q | c <= q ensures Stat(v.root, q) == None {
      NothingBelowNothing(v.root, c, q);
    }
  }

  lemma MakeFileAdds(v: Volume, c: Components)
    requires MakeFileOutcome(v, c).Ok? && !IsWriteableFile(v.root, c)
    ensures Replaces(v.root, WithFile(v, c).root, c, Some(Info(FileKind, true, Some(NewPath(v.root, c)))))
  {
    hide Put, Stat;
    PuttingReplaces(v.root, c, Some(File(OnHost(NewPath(v.root, c)), true)));
  }

  /** Only a file or an empty directory is taken out. */
  lemma DeleteTakesOut(v: Volume, c: Components)
    requires DeleteOutcome(v, c).Ok?
    ensures Replaces(v.root, Without(v, c).root, c, None) && IsEmptyDirectory(v.root, c)
  {
    hide Put, Stat;
    PuttingReplaces(v.root, c, None);
    if !IsDirectory(v.root, c) {
      FileIsLeaf(v.root, c);
    }
  }

  lemma MoveMoves(v: Volume, from: Components, to: Components)
    requires MoveOutcome(v, from, to).Ok?
    ensures from != [] && to != [] && Moves(v.root, WithMoved(v, from, to).root, from, to, NewPath(v.root, to))
  {
    hide HostCanRename, Moves;
    RenamedMoves(v.root, from, to, NewPath(v.root, to));
  }

  // ----- One step -----

  /** Whatever is called, everything that can be written to stays at the host path that its region calls for. */
  lemma StepKeepsTree(v: Volume, op: Op)
    requires TreeFits(v.root, v.regions)
    ensures TreeFits(Next(v, op).root, Next(v, op).regions)
  {
    if Succeeds(v, op) {
      match op
      case MakeDir(c) => MakeDirKeepsTree(v, c);
      case MakeFile(c) => MakeFileKeepsTree(v, c);
      case Delete(c) => DeleteKeepsTree(v, c);
      case Move(from, to) => MoveKeepsTree(v, from, to);
    }
  }

  lemma MakeDirKeepsTree(v: Volume, c: Components)
    requires TreeFits(v.root, v.regions) && MakeDirOutcome(v, c).Ok?
    ensures TreeFits(WithDir(v, c).root, WithDir(v, c).regions)
  {
    hide Stat, Replaces, TreeFits, Kept, Put;
    MakeDirAdds(v, c);
    HostMeansWriteable(v.root, ParentOf(c));
    ReplacingKeepsTree(v.root, v.regions, WithDir(v, c).root, c, Some(Info(DirectoryKind, true, Some(NewPath(v.root,
        c)))));
  }

  lemma HostMeansWriteable(root: Node, q: Components)
    requires IsDirectory(root, q) && HostOf(root, q).Some?
    ensures IsWriteable(root, q)
  {
  }

  lemma MakeFileKeepsTree(v: Volume, c: Components)
    requires TreeFits(v.root, v.regions) && MakeFileOutcome(v, c).Ok?
    ensures TreeFits(WithFile(v, c).root, WithFile(v, c).regions)
  {
    hide Stat, Replaces, TreeFits, Kept, Put;
    if !IsWriteableFile(v.root, c) {
      MakeFileAdds(v, c);
      HostMeansWriteable(v.root, ParentOf(c));
      ReplacingKeepsTree(v.root, v.regions, WithFile(v, c).root, c, Some(Info(FileKind, true, Some(NewPath(v.root, c)))));
    }
  }

  lemma DeleteKeepsTree(v: Volume, c: Components)
    requires TreeFits(v.root, v.regions) && DeleteOutcome(v, c).Ok?
    ensures TreeFits(Without(v, c).root, Without(v, c).regions)
  {
    hide Stat, Replaces, TreeFits, Kept, Put;
    DeleteTakesOut(v, c);
    ReplacingKeepsTree(v.root, v.regions, Without(v, c).root, c, None);
  }

  lemma MoveKeepsTree(v: Volume, from: Components, to: Components)
    requires TreeFits(v.root, v.regions) && MoveOutcome(v, from, to).Ok?
    ensures TreeFits(WithMoved(v, from, to).root, WithMoved(v, from, to).regions)
  {
    hide Stat, Moves, TreeFits, MovedRegions, MovedHost, HostCanRename;
    MoveMoves(v, from, to);
    HostMeansWriteable(v.root, ParentOf(to));
    MovingKeepsTree(v.root, v.regions, WithMoved(v, from, to).root, from, to);
  }

  /** The calls after which the tree shows something that is not on the host: making a directory where a file is left over
      on the host; removing something that is shown at another place as well; and moving a directory that shows more
      than its host directory has, or whose host directory is shown elsewhere. */
  ghost predicate IsMisstep(v: Volume, op: Op) {
    Succeeds(v, op) &&
    match op
    case MakeDir(c) => HostKind(v.host, NewPath(v.root, c)) == Some(FileKind)
    case MakeFile(_) => false
    case Delete(c) => !IsAlone(v.root, c)
    case Move(from, to) =>
      var old_, new_ := HostOf(v.root, from).value, NewPath(v.root, to);
      !(MovesWhole(v.root, v.host, from, old_) && (old_ == new_ || OthersStay(v.root, from, to, old_)))
  }

  /** A call keeps tree and host in step if and only if it is not one of the named missteps. */
  lemma StepKeepsStep(v: Volume, op: Op)
    requires InStep(v)
    ensures InStep(Next(v, op)) <==> !IsMisstep(v, op)
  {
    hide Stat, HostOf, HostCanRename, MovesWhole, OthersStay, IsAlone, Put, Kept, HostWith, HostHas, TreeFits,
        MovedRegions, MovedHost, Renamed;
    StepKeepsTree(v, op);
    if Succeeds(v, op) {
      match op
      case MakeDir(c) =>
        MakeDirAdds(v, c);
        AddingKeepsHost(v.root, v.host, WithDir(v, c).root, c, DirectoryKind, NewPath(v.root, c));
        KindsAreTwo(v.host, NewPath(v.root, c));
      case MakeFile(c) => MakeFileKeepsHost(v, c);
      case Delete(c) =>
        DeleteTakesOut(v, c);
        RemovingKeepsHost(v.root, v.host, Without(v, c).root, c, HostOf(v.root, c).value);
      case Move(from, to) =>
        MoveMoves(v, from, to);
        MovingKeepsHost(v.root, v.host, WithMoved(v, from, to).root, from, to, HostOf(v.root, from).value,
            NewPath(v.root, to));
    }
  }

  lemma KindsAreTwo(host: map<HostPath, Kind>, p: HostPath)
    ensures (p in host ==> host[p] == DirectoryKind) <==> HostKind(host, p) != Some(FileKind)
  {
  }

  lemma MakeFileKeepsHost(v: Volume, c: Components)
    requires HostHas(v.root, v.host) && MakeFileOutcome(v, c).Ok?
    ensures HostHas(WithFile(v, c).root, WithFile(v, c).host)
  {
    hide Stat, HostOf, Put, HostHas, HostWith;
    if !IsWriteableFile(v.root, c) {
      MakeFileAdds(v, c);
      AddingKeepsHost(v.root, v.host, WithFile(v, c).root, c, FileKind, NewPath(v.root, c));
    }
  }

  /** Nothing in a directory has its host path from elsewhere: no region and no read-only file on the host is in it. */
  ghost predicate IsPlain(v: Volume, from: Components) {
    forall below {:trigger HostOf(v.root, from + below)} :: below != [] && HostOf(v.root, from + below).Some? ==>
      IsWriteable(v.root, from + below) && from + below !in v.regions
  }

  /** Such a directory is moved whole. */
  lemma PlainMovesWhole(v: Volume, from: Components)
    requires TreeFits(v.root, v.regions) && IsWriteable(v.root, from) && IsPlain(v, from)
    requires forall q :: from <= q ==> IsOnHost(v.root, v.host, q)
    ensures HostOf(v.root, from).Some? && MovesWhole(v.root, v.host, from, HostOf(v.root, from).value)
  {
    hide IsWriteable, HostOf, HostKind, HostPath.Append, AreWriteable, IsPlain, KindOf;
    assert Fits(v.root, v.regions, from);
    var p := HostOf(v.root, from).value;
    forall below | HostOf(v.root, from + below).Some? ensures HostKind(v.host, p.Append(below)) == KindOf(v.root,
        from + below) {
      PlainPath(v, from, below);
      assert IsOnHost(v.root, v.host, from + below);
    }
  }

  lemma {:induction false} PlainPath(v: Volume, from: Components, below: Components)
    requires TreeFits(v.root, v.regions) && HostOf(v.root, from).Some? && IsPlain(v, from) && HostOf(v.root, from + below).Some?
    ensures HostOf(v.root, from + below) == Some(HostOf(v.root, from).value.Append(below))
  {
    hide IsWriteable, HostOf, HostHas;
    var p := HostOf(v.root, from).value;
    if below == [] {
      assert from + below == from && p.parts + below == p.parts;
    } else {
      var up := ParentOf(below);
      assert ParentOf(from + below) == from + up && NameOf(from + below) == NameOf(below);
      assert Fits(v.root, v.regions, from + below);
      PlainPath(v, from, up);
      JoinAppends(p, below);
    }
  }

  // ----- When the host refuses -----

  /** The host has something below a path. */
  ghost predicate HasLeftOvers(host: map<HostPath, Kind>, p: HostPath) {
    exists r :: r in host && p.IsPrefixOf(r) && r != p
  }

  ghost predicate IsRefused(v: Volume, op: Op) {
    match op
    case MakeDir(_) => false
    case MakeFile(c) =>
      && c != [] && IsDirectory(v.root, ParentOf(c)) && IsWriteable(v.root, ParentOf(c)) && !IsWriteableFile(v.root, c)
      && HostOf(v.root, ParentOf(c)).Some? && HostKind(v.host, NewPath(v.root, c)) == Some(DirectoryKind)
    case Delete(c) =>
      && c != [] && IsDirectory(v.root, ParentOf(c)) && IsWriteable(v.root, ParentOf(c))
      && IsDirectory(v.root, c) && IsWriteable(v.root, c) && IsEmptyDirectory(v.root, c)
      && HostOf(v.root, c).Some? && HasLeftOvers(v.host, HostOf(v.root, c).value)
    case Move(from, to) => CanRename(v, from, to) && from <= ParentOf(to)
  }

  /** The call goes as far as the host, and what it touches there is not what the tree shows: the directory that it puts
      something into, or the entry that it opens or removes. A rename asks the host first. */
  ghost predicate IsStale(v: Volume, op: Op) {
    match op
    case MakeDir(c) =>
      && c != [] && IsDirectory(v.root, ParentOf(c)) && IsWriteable(v.root, ParentOf(c)) && Stat(v.root, c) == None
      && !IsOnHost(v.root, v.host, ParentOf(c))
    case MakeFile(c) =>
      && c != [] && IsDirectory(v.root, ParentOf(c))
      && (if IsWriteableFile(v.root, c) then !IsOnHost(v.root, v.host, c)
          else IsWriteable(v.root, ParentOf(c)) && !IsOnHost(v.root, v.host, ParentOf(c)))
    case Delete(c) =>
      && c != [] && IsDirectory(v.root, ParentOf(c)) && IsWriteable(v.root, ParentOf(c))
      && IsWriteable(v.root, c) && (IsDirectory(v.root, c) ==> IsEmptyDirectory(v.root, c))
      && !IsOnHost(v.root, v.host, c)
    case Move(_, _) => false
  }

  /** The emulator panics in exactly these cases: a file is to be created where the host has a directory; an empty
      directory to be removed has something left over in it on the host; a directory is moved into itself by way of a
      region, which the host cannot tell; or what the call touches is shown but not on the host. */
  lemma PanicsExactly(v: Volume, op: Op)
    requires TreeFits(v.root, v.regions)
    ensures Panics(v, op) <==> IsRefused(v, op) || IsStale(v, op)
  {
    match op
    case MakeDir(c) =>
      if c != [] {
        MakeDirPanics(v, c);
      }
    case MakeFile(c) =>
      if c != [] {
        MakeFilePanics(v, c);
      }
    case Delete(c) =>
      if c != [] {
        DeletePanics(v, c);
      }
    case Move(from, to) =>
  }

  /** While the two are in step, nothing is stale. */
  lemma PanicsInStep(v: Volume, op: Op)
    requires InStep(v)
    ensures Panics(v, op) <==> IsRefused(v, op)
  {
    hide Panics, IsRefused;
    PanicsExactly(v, op);
    match op
    case MakeDir(c) => assert c != [] ==> IsOnHost(v.root, v.host, ParentOf(c));
    case MakeFile(c) => assert c != [] ==> IsOnHost(v.root, v.host, ParentOf(c)) && IsOnHost(v.root, v.host, c);
    case Delete(c) => assert IsOnHost(v.root, v.host, c);
    case Move(_, _) =>
  }

  lemma DirectoryTells(v: Volume, q: Components)
    requires TreeFits(v.root, v.regions) && IsDirectory(v.root, q)
    ensures HostOf(v.root, q).Some? <==> IsWriteable(v.root, q)
    ensures HostOf(v.root, q).Some? ==>
              (IsOnHost(v.root, v.host, q) <==> HostKind(v.host, HostOf(v.root, q).value) == Some(DirectoryKind))
  {
    assert Fits(v.root, v.regions, q);
  }

  lemma MakeDirPanics(v: Volume, c: Components)
    requires TreeFits(v.root, v.regions) && c != []
    ensures MakeDirOutcome(v, c).Panic? <==> IsStale(v, MakeDir(c))
  {
    hide IsOnHost;
    if IsDirectory(v.root, ParentOf(c)) {
      DirectoryTells(v, ParentOf(c));
    }
  }

  lemma MakeFilePanics(v: Volume, c: Components)
    requires TreeFits(v.root, v.regions) && c != []
    ensures MakeFileOutcome(v, c).Panic? <==> IsRefused(v, MakeFile(c)) || IsStale(v, MakeFile(c))
  {
    if IsDirectory(v.root, ParentOf(c)) {
      DirectoryTells(v, ParentOf(c));
      assert Fits(v.root, v.regions, c);
    }
  }

  lemma DeletePanics(v: Volume, c: Components)
    requires TreeFits(v.root, v.regions) && c != []
    ensures DeleteOutcome(v, c).Panic? <==> IsRefused(v, Delete(c)) || IsStale(v, Delete(c))
  {
    hide IsEmptyDirectory;
    assert Fits(v.root, v.regions, c);
    if IsDirectory(v.root, ParentOf(c)) {
      DirectoryTells(v, ParentOf(c));
    }
  }

  /** Opening a directory for writing, with creation, is not rejected. Where nothing is left over on the host, a region's
      directory or a read-only one gives way to an empty file, with everything that was below it; any other directory is
      one on the host, which refuses. */
  lemma DirectoryOpenedForWriting(v: Volume, c: Components)
    requires TreeFits(v.root, v.regions) && c != [] && IsDirectory(v.root, c) && IsWriteable(v.root, ParentOf(c))
    requires IsOnHost(v.root, v.host, ParentOf(c)) && IsOnHost(v.root, v.host, c)
    ensures HostOf(v.root, ParentOf(c)).Some?
    ensures Panics(v, MakeFile(c)) <==> HostKind(v.host, NewPath(v.root, c)) == Some(DirectoryKind)
    ensures IsWriteable(v.root, c) && c !in v.regions ==> Panics(v, MakeFile(c))
    ensures !Panics(v, MakeFile(c)) ==>
              forall q :: c <= q ==> Stat(Next(v, MakeFile(c)).root, q) ==
                                     if q == c then Some(Info(FileKind, true, Some(NewPath(v.root, c)))) else None
  {
    hide Stat, Put, Kept;
    ParentIsDirectory(v.root, c);
    DirectoryTells(v, ParentOf(c));
    assert Fits(v.root, v.regions, c);
    if MakeFileOutcome(v, c).Ok? {
      MakeFileAdds(v, c);
    }
  }

  /** A directory made where the host has one already shows nothing of what is left over in that one. It can be removed
      again exactly when nothing is. */
  lemma LeftOversShow(v: Volume, c: Components)
    requires TreeFits(v.root, v.regions) && MakeDirOutcome(v, c).Ok? && HostKind(v.host, NewPath(v.root, c)) != Some(FileKind)
    ensures var made := Next(v, MakeDir(c));
            && IsOnHost(made.root, made.host, c) && IsEmptyDirectory(made.root, c)
            && (Panics(made, Delete(c)) <==> HasLeftOvers(v.host, NewPath(v.root, c)))
  {
    hide Stat, Put, Kept, TreeFits, Panics, HostPath.IsPrefixOf;
    var made, p := Next(v, MakeDir(c)), NewPath(v.root, c);
    StepKeepsTree(v, MakeDir(c));
    PanicsExactly(made, Delete(c));
    KindsAreTwo(v.host, p);
    MakeDirAdds(v, c);
    assert Stat(made.root, c) == Some(Info(DirectoryKind, true, Some(p)));
    assert Stat(made.root, ParentOf(c)) == Stat(v.root, ParentOf(c));
    assert ParentOf(c) != c;
    HostMeansWriteable(v.root, ParentOf(c));
    forall q | c <= q && Stat(made.root, q).Some? ensures q == c {
      assert Stat(made.root, q) == if q == c then Some(Info(DirectoryKind, true, Some(p))) else None;
    }
    assert forall r :: r in made.host && r != p ==> r in v.host;
  }

  // ----- A path's directories, one after the other -----

  /** Everything that was there still is, and is the same; what is new are directories. */
  ghost predicate OnlyAdds(root: Node, root': Node) {
    forall q {:trigger Stat(root', q)} ::
      if Stat(root, q).Some? then Stat(root', q) == Stat(root, q) else Stat(root', q).Some? ==> IsDirectory(root', q)
  }

  lemma MakingOnlyAdds(root: Node, v: Volume, c: Components)
    requires OnlyAdds(root, v.root)
    ensures OnlyAdds(root, Next(v, MakeDir(c)).root)
  {
    hide Stat, Put;
    if Succeeds(v, MakeDir(c)) {
      MakeDirAdds(v, c);
      var root' := WithDir(v, c).root;
      forall q ensures if Stat(root, q).Some? then Stat(root', q) == Stat(root, q) else Stat(root', q).Some? ==>
          IsDirectory(root', q) {
        assert Stat(root', q) == if q == c then Some(Info(DirectoryKind, true, Some(NewPath(v.root, c))))
            else if c <= q then None else Stat(v.root, q);
        assert c <= q ==> Stat(v.root, q) == None;
        assert if Stat(root, q).Some? then Stat(v.root, q) == Stat(root, q) else Stat(v.root, q).Some? ==>
            IsDirectory(v.root, q);
      }
    }
  }

  /** How far down a path there is something. */
  function Existing(root: Node, c: Components): (d: nat)
    ensures d <= |c| && (d > 0 ==> Stat(root, c[..d]).Some?)
    ensures forall k :: d < k <= |c| ==> Stat(root, c[..k]) == None
  {
    if c == [] || Stat(root, c).Some? then
      assert c[..|c|] == c;
      |c|
    else
      var up := ParentOf(c);
      assert c[..|c|] == c && forall k :: 0 <= k <= |up| ==> up[..k] == c[..k];
      Existing(root, up)
  }

  lemma {:induction false} PrefixExists(root: Node, c: Components, k: nat)
    requires k <= |c| && Stat(root, c).Some?
    ensures Stat(root, c[..k]).Some? && (k < |c| ==> IsDirectory(root, c[..k]))
  {
    if k == |c| {
      assert c[..k] == c;
    } else {
      ParentIsDirectory(root, c);
      assert c[..|c| - 1][..k] == c[..k];
      PrefixExists(root, ParentOf(c), k);
    }
  }

  /** The host path that the first `k` components get when what is behind the first `d` is created. */
  function PathMade(v: Volume, c: Components, d: nat, k: nat): HostPath
    requires d <= k <= |c| && HostOf(v.root, c[..d]).Some?
  {
    HostOf(v.root, c[..d]).value.Append(c[d..k])
  }

  ghost predicate IsMade(v: Volume, c: Components, d: nat, i: nat, p: HostPath)
    requires d <= i <= |c| && HostOf(v.root, c[..d]).Some?
  {
    exists k :: d < k <= i && p == PathMade(v, c, d, k)
  }

  /** The directories behind the first `d` components are there up to the `i`th, each at its place on the host; nothing
      else has changed. */
  ghost predicate AreMade(v: Volume, v': Volume, c: Components, d: nat, i: nat) {
    && d <= i <= |c| && HostOf(v.root, c[..d]).Some?
    && (forall q {:trigger Stat(v'.root, q)} :: Stat(v'.root, q) ==
          if q <= c && d < |q| <= i then Some(Info(DirectoryKind, true, Some(PathMade(v, c, d, |q|))))
              else Stat(v.root, q))
    && (forall p {:trigger HostKind(v'.host, p)} :: HostKind(v'.host, p) ==
          if p !in v.host && IsMade(v, c, d, i, p) then Some(DirectoryKind) else HostKind(v.host, p))
  }

  lemma NothingMade(v: Volume, c: Components, d: nat)
    requires d <= |c| && HostOf(v.root, c[..d]).Some?
    ensures AreMade(v, v, c, d, d)
  {
  }

  lemma PathsMade(v: Volume, c: Components, d: nat, i: nat)
    requires d <= i < |c| && HostOf(v.root, c[..d]).Some?
    ensures PathMade(v, c, d, i).Join(c[i]) == PathMade(v, c, d, i + 1)
    ensures PathMade(v, c, d, d) == HostOf(v.root, c[..d]).value
    ensures i > d ==> IsMade(v, c, d, i, PathMade(v, c, d, i))
    ensures !IsMade(v, c, d, i, PathMade(v, c, d, i + 1)) && !IsMade(v, c, d, i, PathMade(v, c, d, d))
    ensures forall p :: IsMade(v, c, d, i + 1, p) <==> IsMade(v, c, d, i, p) || p == PathMade(v, c, d, i + 1)
  {
    var h := HostOf(v.root, c[..d]).value;
    assert c[d..i] + [c[i]] == c[d..i + 1];
    assert (h.parts + c[d..i]) + [c[i]] == h.parts + c[d..i + 1];
    assert h.parts + c[d..d] == h.parts;
    assert forall k :: d <= k <= i + 1 ==> |PathMade(v, c, d, k).parts| == |h.parts| + (k - d);
  }

  /** The next directory is created unless the one before is a file on the host. */
  lemma NextMade(v: Volume, v': Volume, c: Components, d: nat, i: nat)
    requires AreMade(v, v', c, d, i) && i < |c| && IsDirectory(v.root, c[..d]) && IsWriteable(v.root, c[..d])
    requires forall k :: d < k <= |c| ==> Stat(v.root, c[..k]) == None
    requires HostKind(v.host, HostOf(v.root, c[..d]).value) == Some(DirectoryKind)
    ensures MakeDirOutcome(v', c[..i + 1]) == if HostKind(v.host, PathMade(v, c, d, i)) == Some(FileKind) then Panic
        else Ok
    ensures MakeDirOutcome(v', c[..i + 1]).Ok? ==> AreMade(v, WithDir(v', c[..i + 1]), c, d, i + 1)
  {
    hide Stat, IsMade, Put;
    var e := c[..i + 1];
    assert ParentOf(e) == c[..i] && NameOf(e) == c[i] && c[..i] <= c && e <= c;
    assert c[..i] != c[..d] ==> d < i;
    PathsMade(v, c, d, i);
    assert Stat(v'.root, e) == None;
    assert Stat(v'.root, c[..i]) == if d < i then Some(Info(DirectoryKind, true, Some(PathMade(v, c, d, i))))
        else Stat(v.root, c[..d]);
    assert NewDirAt(v', c, i, PathMade(v, c, d, i));
    assert HostKind(v'.host, PathMade(v, c, d, i)) ==
           if PathMade(v, c, d, i) in v.host then HostKind(v.host, PathMade(v, c, d, i)) else Some(DirectoryKind);
    OutcomeAt(v', c, i, PathMade(v, c, d, i));
    KindsAreTwo(v.host, PathMade(v, c, d, i));
    if MakeDirOutcome(v', e).Ok? {
      OneMoreMade(v, v', c, d, i);
    }
  }

  ghost predicate NewDirAt(v: Volume, c: Components, i: nat, p: HostPath) {
    && i < |c| && Stat(v.root, c[..i + 1]) == None && ParentOf(c[..i + 1]) == c[..i]
    && HostOf(v.root, c[..i]) == Some(p) && IsDirectory(v.root, c[..i])
  }

  lemma OutcomeAt(v: Volume, c: Components, i: nat, p: HostPath)
    requires NewDirAt(v, c, i, p)
    ensures MakeDirOutcome(v, c[..i + 1]) == if HostKind(v.host, p) == Some(DirectoryKind) then Ok else Panic
  {
    hide Stat;
  }

  lemma OneMoreMade(v: Volume, v': Volume, c: Components, d: nat, i: nat)
    requires AreMade(v, v', c, d, i) && i < |c| && MakeDirOutcome(v', c[..i + 1]).Ok?
    requires NewDirAt(v', c, i, PathMade(v, c, d, i))
    requires forall k :: d < k <= |c| ==> Stat(v.root, c[..k]) == None
    ensures AreMade(v, WithDir(v', c[..i + 1]), c, d, i + 1)
  {
    hide Stat, IsMade, Put;
    var e, w := c[..i + 1], WithDir(v', c[..i + 1]);
    var p := PathMade(v, c, d, i + 1);
    PathsMade(v, c, d, i);
    assert NameOf(e) == c[i] && NewPath(v'.root, e) == p;
    MakeDirAdds(v', e);
    forall q ensures Stat(w.root, q) ==
                     if q <= c && d < |q| <= i + 1 then Some(Info(DirectoryKind, true, Some(PathMade(v, c, d,
                         |q|)))) else Stat(v.root, q)
    {
      assert Stat(w.root, q) == if q == e then Some(Info(DirectoryKind, true, Some(p))) else if e <= q then None
          else Stat(v'.root, q);
      if q <= c {
        assert q == c[..|q|];
      }
      if e <= q && q != e {
        assert Stat(v'.root, q) == None;
        assert |q| > i + 1;
      }
    }
    forall r ensures HostKind(w.host, r) == if r !in v.host && IsMade(v, c, d, i + 1, r) then Some(DirectoryKind)
        else HostKind(v.host, r) {
      assert HostKind(w.host, r) == if r == p && r !in v'.host then Some(DirectoryKind) else HostKind(v'.host, r);
      assert HostKind(v'.host, r) == if r !in v.host && IsMade(v, c, d, i, r) then Some(DirectoryKind)
          else HostKind(v.host, r);
    }
  }

  // ----- Runs -----

  lemma {:induction false} RunKeepsTree(v: Volume, ops: seq<Op>)
    requires TreeFits(v.root, v.regions)
    ensures TreeFits(After(v, ops).root, After(v, ops).regions)
  {
    if ops == [] {
    } else {
      hide TreeFits, Next;
      RunKeepsTree(v, ops[..|ops| - 1]);
      StepKeepsTree(After(v, ops[..|ops| - 1]), ops[|ops| - 1]);
    }
  }

  ghost predicate StaysInStep(v: Volume, ops: seq<Op>) {
    InStep(After(v, ops)) && (ops != [] ==> StaysInStep(v, ops[..|ops| - 1]))
  }

  ghost predicate HasNoMisstep(v: Volume, ops: seq<Op>) {
    ops != [] ==> HasNoMisstep(v, ops[..|ops| - 1]) && !IsMisstep(After(v, ops[..|ops| - 1]), ops[|ops| - 1])
  }

  /** Over any run, tree and host are in step all the time if and only if no call is a misstep. */
  lemma {:induction false} RunKeepsStep(v: Volume, ops: seq<Op>)
    requires InStep(v)
    ensures StaysInStep(v, ops) <==> HasNoMisstep(v, ops)
  {
    hide InStep, Next, IsMisstep;
    if ops == [] {
    } else {
      var front := ops[..|ops| - 1];
      RunKeepsStep(v, front);
      if StaysInStep(v, front) {
        StepKeepsStep(After(v, front), ops[|ops| - 1]);
      }
    }
  }
}
