/** The calls of the virtual filesystem, which change the tree and the host directories behind it in place. */
module Vfs {
  import opened Common
  import opened VfsTree
  import opened Volumes
  import opened VolumeRuns
  import opened VolumeRegions
  import opened VfsOutcomes
  import Paths

  lemma ChildLookup(root: Node, path: Components)
    requires path != []
    ensures Lookup(root, path) ==
            match Lookup(root, ParentOf(path))
            case Some(Directory(children, _)) => if NameOf(path) in children then Some(children[NameOf(path)]) else None
            case _ => None
  {
    assert path == ParentOf(path) + [NameOf(path)];
    LookupSplits(root, ParentOf(path), [NameOf(path)]);
  }

  /** The directories that making a path makes. */
  function DirsOf(components: Components): seq<Op> {
    seq(|components|, i requires 0 <= i < |components| => MakeDir(Paths.Deduplicated(components[..i + 1])))
  }

  // ----- Runs of calls -----

  datatype Call = CreatingDir(path: string) | CreatingDirs(path: string) | CreatingFile(path: string) | Removing(path: string)
                | Renaming(from: string, to: string)

  /** What one call does, step by step; making all directories of a path ends with the first failure. */
  ghost predicate IsTraceOf(call: Call, workingDirectory: string, ops: seq<Op>) {
    match call
    case CreatingDir(path) => ops == [MakeDir(Paths.Resolved(path, workingDirectory))]
    case CreatingDirs(path) => ops <= DirsOf(Paths.Resolved(path, workingDirectory))
    case CreatingFile(path) => ops == [MakeFile(Paths.Resolved(path, workingDirectory))]
    case Removing(path) => ops == [Delete(Paths.Resolved(path, workingDirectory))]
    case Renaming(from, to) =>
      ops == if from == to then [] else [Move(Paths.Resolved(from, workingDirectory), Paths.Resolved(to,
          workingDirectory))]
  }

  ghost predicate IsTrace(calls: seq<Call>, workingDirectory: string, ops: seq<Op>) {
    if calls == [] then ops == []
    else exists n {:trigger ops[..n]} :: 0 <= n <= |ops|
           && IsTrace(calls[..|calls| - 1], workingDirectory, ops[..n])
           && IsTraceOf(calls[|calls| - 1], workingDirectory, ops[n..])
  }

  lemma TraceGrows(calls: seq<Call>, workingDirectory: string, ops: seq<Op>, call: Call, more: seq<Op>)
    requires IsTrace(calls, workingDirectory, ops) && IsTraceOf(call, workingDirectory, more)
    ensures IsTrace(calls + [call], workingDirectory, ops + more)
  {
    assert (calls + [call])[..|calls + [call]| - 1] == calls;
    assert (ops + more)[..|ops|] == ops && (ops + more)[|ops|..] == more;
  }

  /** Runs follow one another. */
  lemma {:induction false} RunsJoin(v: Volume, ops: seq<Op>, more: seq<Op>)
    ensures After(v, ops + more) == After(After(v, ops), more)
    ensures Survives(v, ops + more) <==> Survives(v, ops) && Survives(After(v, ops), more)
  {
    hide Next, Panics;
    if more == [] {
      assert ops + more == ops;
    } else {
      RunsJoin(v, ops, more[..|more| - 1]);
      assert (ops + more)[..|ops + more| - 1] == ops + more[..|more| - 1];
    }
  }

  lemma OneCall(v: Volume, op: Op)
    ensures After(v, [op]) == Next(v, op) && (Survives(v, [op]) <==> !Panics(v, op))
    ensures After(v, []) == v && Survives(v, [])
  {
    hide Next, Panics;
    assert [op][..0] == [];
  }

  // ----- The filesystem -----

  datatype HostResult = Done | AlreadyExists | Failed

  class Fs {
    var root: Node
    var host: map<HostPath, Kind>
    var workingDirectory: string
    ghost var regions: set<Components>

    ghost function State(): Volume
      reads this
    {
      Volume(root, regions, host)
    }

    ghost predicate Valid()
      reads this
    {
      Paths.IsAbsolute(workingDirectory)
    }

    constructor (root: Node, host: map<HostPath, Kind>, workingDirectory: string, ghost regions: set<Components>)
      requires Paths.IsAbsolute(workingDirectory)
      ensures Valid() && State() == Volume(root, regions, host) && this.workingDirectory == workingDirectory
    {
      this.root := root;
      this.host := host;
      this.workingDirectory := workingDirectory;
      this.regions := regions;
    }

    function Resolved(path: string): Components
      reads this
    {
      Paths.Resolved(path, workingDirectory)
    }

    // ----- What the host does -----

    method HostMakeDir(path: HostPath) returns (result: HostResult)
      requires path.parts != []
      modifies `host
      ensures result == if HostKind(old(host), HostPath(path.mount, ParentOf(path.parts))) != Some(DirectoryKind) then Failed
                        else if path in old(host) then AlreadyExists
                        else Done
      ensures host == if result == Done then old(host)[path := DirectoryKind] else old(host)
    {
      if HostKind(host, HostPath(path.mount, ParentOf(path.parts))) != Some(DirectoryKind) {
        return Failed;
      }
      if path in host {
        return AlreadyExists;
      }
      host := host[path := DirectoryKind];
      return Done;
    }

    /** Opens a file for writing, with or without creation. */
    method HostOpen(path: HostPath, create: bool) returns (result: HostResult)
      requires create ==> path.parts != []
      modifies `host
      ensures result == Done <==>
                HostKind(old(host), path) != Some(DirectoryKind) &&
                if create then HostKind(old(host), HostPath(path.mount, ParentOf(path.parts))) == Some(DirectoryKind) else path in old(host)
      ensures host == if result == Done then HostWith(old(host), path, FileKind) else old(host)
    {
      if HostKind(host, path) == Some(DirectoryKind) {
        return Failed;
      }
      if create && HostKind(host, HostPath(path.mount, ParentOf(path.parts))) == Some(DirectoryKind) {
        host := HostWith(host, path, FileKind);
        return Done;
      }
      return if !create && path in host then Done else Failed;
    }

    method HostRemove(path: HostPath, kind: Kind) returns (result: HostResult)
      modifies `host
      ensures result == if HostCanRemove(old(host), path, kind) then Done else Failed
      ensures host == if result == Done then old(host) - {path} else old(host)
    {
      if HostKind(host, path) == Some(kind)
         && (kind == DirectoryKind ==> forall p :: p in host && path.IsPrefixOf(p) ==> p == path) {
        host := host - {path};
        return Done;
      }
      return Failed;
    }

    method HostRename(old_: HostPath, new_: HostPath) returns (result: HostResult)
      requires new_.parts != []
      modifies `host
      ensures result == if HostCanRename(old(host), old_, new_) then Done else Failed
      ensures host == if result == Done then MovedHost(old(host), old_, new_) else old(host)
    {
      if old_ in host && HostKind(host, HostPath(new_.mount, ParentOf(new_.parts))) == Some(DirectoryKind)
         && (old_.IsPrefixOf(new_) ==> old_ == new_)
         && (new_ != old_ ==>
               && (new_ in host ==> host[new_] == host[old_])
               && forall p :: p in host && new_.IsPrefixOf(p) ==> p == new_)
      {
        host := MovedHost(host, old_, new_);
        return Done;
      }
      return Failed;
    }

    // ----- Creating -----

    /** Each error has its case, and changes nothing; otherwise a new directory appears where nothing was. A directory
        that is left over on the host is used; with a file left over, the two are out of step. */
    method CreateDir(path: string) returns (result: Outcome<FsError>)
      requires Valid()
      modifies `root, `host, `regions
      ensures Valid()
      ensures result == old(MakeDirOutcome(State(), Resolved(path))) && IsMakeDirResult(old(State()), Resolved(path), result)
      ensures State() == old(Next(State(), MakeDir(Resolved(path))))
      ensures result.Ok? ==>
                var c := Resolved(path);
                && (forall q :: c <= q ==> old(Stat(root, q)) == None)
                && Replaces(old(root), root, c, Some(Info(DirectoryKind, true, Some(old(NewPath(root, c))))))
                && HostGains(old(host), host, old(NewPath(root, c)), DirectoryKind)
      ensures old(TreeFits(root, regions)) ==>
                (result == Panic <==> old(IsRefused(State(), MakeDir(Resolved(path))) || IsStale(State(), MakeDir(Resolved(path)))))
      ensures result == Ok ==> forall q :: IsOnHost(root, host, q) <==> old(StaysOnHost(State(), MakeDir(Resolved(path)), q))
      ensures old(InStep(State())) ==>
                result != Panic && (InStep(State()) <==> !old(IsMisstep(State(), MakeDir(Resolved(path)))))
    {
      hide InStep, IsMakeDirResult, IsMakeFileResult, IsDeleteResult, IsMoveResult, HostGains, HostMoves, TreeFits, IsOnHost,
          StaysOnHost, IsStale, IsMisstep, Replaces, Stat, Paths.Resolved;
      var c := Paths.ResolvePath(path, workingDirectory);
      StepIsKept(State(), MakeDir(c));
      MakeDirExactly(State(), c);
      if c == [] {
        return Err(NonexistentParentDir);
      }
      ChildLookup(root, c);
      StatsAt(root, c);
      var parent := Lookup(root, ParentOf(c));
      if parent == None {
        return Err(NonexistentParentDir);
      }
      if parent.value.File? {
        return Err(InvalidParentDir);
      }
      if NameOf(c) in parent.value.children {
        return Err(AlreadyExist);
      }
      if parent.value.hostPath == None {
        return Err(ReadonlyParentDir);
      }
      var hostPath := parent.value.hostPath.value.Join(NameOf(c));
      JoinedParent(parent.value.hostPath.value, NameOf(c));
      var made := HostMakeDir(hostPath);
      if made == Failed {
        return Panic;
      }
      MakeDirAdds(old(State()), c);
      GainedOnHost(old(host), hostPath, DirectoryKind);
      root := Put(root, c, Some(Directory(map[], Some(hostPath))));
      regions := Kept(regions, c);
      return Ok;
    }

    /** Creates the directories of a path one after the other. For a path that resolves to itself: with everything there
        already, nothing changes; below a file or a read-only directory it fails without any change; otherwise exactly
        the missing directories are created, unless what the first of them goes into is not on the host, or one of them
        is a file there, which panics. */
    method CreateDirAll(path: string) returns (result: Outcome<FsError>, ghost ops: seq<Op>)
      requires Valid()
      modifies `root, `host, `regions
      ensures Valid() && workingDirectory == old(workingDirectory)
      ensures IsTraceOf(CreatingDirs(path), workingDirectory, ops)
      ensures result.Ok? ==> ops == DirsOf(Resolved(path))
      ensures State() == After(old(State()), ops) && Survives(old(State()), ops) && OnlyAdds(old(root), root)
      ensures result != Err(AlreadyExist)
      ensures old(TreeFits(root, regions)) && Paths.Deduplicated(Resolved(path)) == Resolved(path) ==>
                MakesMissingDirs(old(State()), State(), Resolved(path), result)
    {
      hide InStep, TreeFits, IsOnHost, StaysOnHost, IsStale, Stat, MakeDirOutcome, Next, Panics, IsMisstep, Existing, Paths.Deduplicated, After, Survives;
      hide Paths.Joined, Replaces, DirsOf, Climbed, MakesMissingDirs, OnlyAdds, IsTraceOf, Paths.IsNormal, WithDir, NewPath;
      NothingAdded(root);
      var components := Paths.ResolvePath(path, workingDirectory);
      ghost var d := Existing(root, components);
      var currentPath := "";
      ops := [];
      OneCall(State(), MakeDir([]));
      Paths.NothingJoined();
      ClimbStarts(State(), components, d);
      NoDirs(components);
      ComponentsAreNormal(path, workingDirectory);
      var i := 0;
      while i < |components|
        invariant 0 <= i <= |components| && Valid() && workingDirectory == old(workingDirectory)
        invariant currentPath == Paths.Joined(components[..i]) && ops == DirsOf(components)[..i]
        invariant State() == After(old(State()), ops) && Survives(old(State()), ops) && OnlyAdds(old(root), root)
        invariant old(TreeFits(root, regions)) && Paths.Deduplicated(components) == components ==>
                    Climbed(old(State()), State(), components, d, i)
      {
        ghost var before := State();
        Paths.JoinedGrows(components[..i], components[i]);
        assert components[..i] + [components[i]] == components[..i + 1];
        currentPath := currentPath + "/" + components[i];
        Paths.ComponentsResolve(components[..i + 1], workingDirectory);
        DirAt(components, i);
        DirsAreTraced(path, workingDirectory, i);
        var created := CreateDir(currentPath);
        ghost var op := MakeDir(Resolved(currentPath));
        if old(TreeFits(root, regions)) && Paths.Deduplicated(components) == components {
          Paths.PrefixesSettle(components, i + 1);
          Climb(old(State()), before, components, d, i);
        }
        OutcomeTells(before, op.path);
        MakingOnlyAdds(old(root), before, op.path);
        if created == Panic {
          return Panic, ops;
        }
        OneCall(before, op);
        RunsJoin(old(State()), ops, [op]);
        ops := ops + [op];
        if created != Ok && created != Err(AlreadyExist) {
          return created, ops;
        }
        i := i + 1;
      }
      AllClimbed(old(State()), State(), components, d);
      DirsAreTraced(path, workingDirectory, i);
      assert DirsOf(components)[..i] == DirsOf(components);
      result := Ok;
    }

    /** Opens a file for writing, creating it if need be. What cannot be written to is not rejected but replaced, if its
        directory can be written to; a directory on the host in its place ends the emulator. */
    method CreateFile(path: string) returns (result: Outcome<()>)
      requires Valid()
      modifies `root, `host, `regions
      ensures Valid()
      ensures result == old(MakeFileOutcome(State(), Resolved(path))) && IsMakeFileResult(old(State()), Resolved(path), result)
      ensures State() == old(Next(State(), MakeFile(Resolved(path))))
      ensures result.Ok? ==>
                var c := Resolved(path);
                if old(IsWriteableFile(root, c)) then root == old(root) && host == old(host)
                else
                  && Replaces(old(root), root, c, Some(Info(FileKind, true, Some(old(NewPath(root, c))))))
                  && HostGains(old(host), host, old(NewPath(root, c)), FileKind)
      ensures old(TreeFits(root, regions)) ==>
                (result == Panic <==> old(IsRefused(State(), MakeFile(Resolved(path))) || IsStale(State(), MakeFile(Resolved(path)))))
      ensures result == Ok ==> forall q :: IsOnHost(root, host, q) <==> old(StaysOnHost(State(), MakeFile(Resolved(path)), q))
      ensures old(InStep(State())) && result != Panic ==> InStep(State())
    {
      hide InStep, IsMakeDirResult, IsMakeFileResult, IsDeleteResult, IsMoveResult, HostGains, HostMoves, TreeFits, IsOnHost,
          StaysOnHost, IsStale, IsRefused, Replaces, Stat, Paths.Resolved;
      var c := Paths.ResolvePath(path, workingDirectory);
      StepIsKept(State(), MakeFile(c));
      MakeFileExactly(State(), c);
      if c == [] {
        return Err(());
      }
      ChildLookup(root, c);
      StatsAt(root, c);
      var parent := Lookup(root, ParentOf(c));
      if parent == None || parent.value.File? {
        return Err(());
      }
      if NameOf(c) in parent.value.children {
        match parent.value.children[NameOf(c)] {
          case File(OnHost(hostPath), true) =>
            KindsAreTwo(host, hostPath);
            var written := HostOpen(hostPath, false);
            return if written == Done then Ok else Panic;
          case File(Resource(_), true) =>
            return Ok;
          case _ =>
        }
      }
      if parent.value.hostPath == None {
        return Err(());
      }
      var hostPath := parent.value.hostPath.value.Join(NameOf(c));
      JoinedParent(parent.value.hostPath.value, NameOf(c));
      var written := HostOpen(hostPath, true);
      if written != Done {
        return Panic;
      }
      MakeFileAdds(old(State()), c);
      GainedOnHost(old(host), hostPath, FileKind);
      root := Put(root, c, Some(File(OnHost(hostPath), true)));
      regions := Kept(regions, c);
      return Ok;
    }

    // ----- Removing -----

    /** Each error has its case, and changes nothing; otherwise a file or a directory that shows nothing goes, on the host
        as well. Something left over in the directory on the host ends the emulator. */
    method Remove(path: string) returns (result: Outcome<FsError>)
      requires Valid()
      modifies `root, `host, `regions
      ensures Valid()
      ensures result == old(DeleteOutcome(State(), Resolved(path))) && IsDeleteResult(old(State()), Resolved(path), result)
      ensures State() == old(Next(State(), Delete(Resolved(path))))
      ensures result.Ok? ==>
                && Replaces(old(root), root, Resolved(path), None) && old(IsEmptyDirectory(root, Resolved(path)))
                && old(HostOf(root, Resolved(path))).Some?
                && host == old(host) - {old(HostOf(root, Resolved(path)).value)}
      ensures old(TreeFits(root, regions)) ==>
                (result == Panic <==> old(IsRefused(State(), Delete(Resolved(path))) || IsStale(State(), Delete(Resolved(path)))))
      ensures result == Ok ==> forall q :: IsOnHost(root, host, q) <==> old(StaysOnHost(State(), Delete(Resolved(path)), q))
      ensures old(InStep(State())) && result != Panic ==>
                (InStep(State()) <==> !old(IsMisstep(State(), Delete(Resolved(path)))))
    {
      hide InStep, IsMakeDirResult, IsMakeFileResult, IsDeleteResult, IsMoveResult, HostGains, HostMoves, TreeFits, IsOnHost,
          StaysOnHost, IsStale, IsMisstep, IsRefused, Replaces, Stat, HostCanRemove, Paths.Resolved;
      var c := Paths.ResolvePath(path, workingDirectory);
      StepIsKept(State(), Delete(c));
      DeleteExactly(State(), c);
      if c == [] {
        return Err(NonexistentParentDir);
      }
      ChildLookup(root, c);
      StatsAt(root, c);
      var parent := Lookup(root, ParentOf(c));
      if parent == None {
        return Err(NonexistentParentDir);
      }
      if parent.value.File? {
        return Err(InvalidParentDir);
      }
      if parent.value.hostPath == None {
        return Err(ReadonlyParentDir);
      }
      if NameOf(c) !in parent.value.children {
        return Err(DoesNotExist);
      }
      var removed;
      match parent.value.children[NameOf(c)] {
        case File(location, writeable) =>
          if !writeable {
            return Err(AccessDenied);
          }
          if location.Resource? {
            return Panic;
          }
          removed := HostRemove(location.path, FileKind);
        case Directory(children, hostPath) =>
          EmptyEntry(root, c);
          if children != map[] {
            return Err(DirectoryNotEmpty);
          }
          if hostPath == None {
            return Err(AccessDenied);
          }
          removed := HostRemove(hostPath.value, DirectoryKind);
      }
      if removed != Done {
        return Panic;
      }
      DeleteTakesOut(old(State()), c);
      root := Put(root, c, None);
      regions := Kept(regions, c);
      return Ok;
    }

    // ----- Renaming -----

    /** Succeeds exactly when both ends can be written to and the host allows it; then everything below `from` is below
        `to` with its shape kept, nothing is left, and nothing else changes. Moving a directory into itself, past a
        region, ends the emulator. */
    method Rename(from: string, to: string) returns (result: Outcome<()>)
      requires Valid()
      modifies `root, `host, `regions
      ensures Valid()
      ensures result == if from == to then Ok else old(MoveOutcome(State(), Resolved(from), Resolved(to)))
      ensures from != to ==> IsMoveResult(old(State()), Resolved(from), Resolved(to), result)
      ensures !result.Panic? ==>
                State() == if from == to then old(State()) else old(Next(State(), Move(Resolved(from), Resolved(to))))
      ensures result.Ok? && from != to ==>
                var c, d := Resolved(from), Resolved(to);
                && old(CanRename(State(), c, d)) && Moves(old(root), root, c, d, old(NewPath(root, d)))
                && HostMoves(old(host), host, old(HostOf(root, c)).value, old(NewPath(root, d)))
      ensures from != to ==> (result == Panic <==> old(IsRefused(State(), Move(Resolved(from), Resolved(to)))))
      ensures result == Ok && from != to ==>
                forall q :: IsOnHost(root, host, q) <==> old(StaysOnHost(State(), Move(Resolved(from), Resolved(to)), q))
      ensures old(InStep(State())) && from != to && result != Panic ==>
                (InStep(State()) <==> !old(IsMisstep(State(), Move(Resolved(from), Resolved(to)))))
    {
      hide InStep, IsMakeDirResult, IsMakeFileResult, IsDeleteResult, IsMoveResult, HostGains, HostMoves, TreeFits, IsOnHost,
          StaysOnHost, IsStale, IsMisstep, IsRefused, Moves, HostCanRename, MovedHost, MovedRegions, Stat, Put, Rehosted,
          Paths.Resolved;
      hide MakeDirOutcome, MakeFileOutcome, DeleteOutcome, HostKind, Lookup, HostPath.Join;
      if from == to {
        return Ok;
      }
      var c := Paths.ResolvePath(from, workingDirectory);
      var d := Paths.ResolvePath(to, workingDirectory);
      StepIsKept(State(), Move(c, d));
      MoveExactly(State(), c, d);
      StatAt(root, c);
      var fromHostPath;
      match Lookup(root, c) {
        case Some(File(OnHost(p), true)) => fromHostPath := p;
        case Some(Directory(_, Some(p))) => fromHostPath := p;
        case _ => return Err(());
      }
      if d == [] {
        return Err(());
      }
      StatAt(root, ParentOf(d));
      var toParentHostPath;
      match Lookup(root, ParentOf(d)) {
        case Some(Directory(_, Some(p))) => toParentHostPath := p;
        case _ => return Err(());
      }
      var toHostPath := toParentHostPath.Join(NameOf(d));
      JoinedParent(toParentHostPath, NameOf(d));
      var renamed := HostRename(fromHostPath, toHostPath);
      if renamed != Done {
        return Err(());
      }
      if c == [] {
        return Panic;
      }
      var movingNode := Lookup(root, c).value;
      MovingInto(root, c, ParentOf(d));
      root := Put(root, c, None);
      movingNode := Rehosted(movingNode, toHostPath);
      var toParent := Lookup(root, ParentOf(d));
      if toParent == None {
        return Panic;
      }
      MoveMoves(old(State()), c, d);
      MovedOnHost(old(host), fromHostPath, toHostPath);
      root := Put(root, d, Some(movingNode));
      regions := MovedRegions(old(root), regions, c, d);
      return Ok;
    }

    // ----- Runs -----

    /** Makes calls one after the other until one panics. Whatever they are, everything that can be written to stays at
        the host path that its region calls for; tree and host are in step all the time exactly if no call is a misstep;
        and a sealed region stays sealed if the calls respect it, missteps elsewhere included. */
    method Perform(calls: seq<Call>) returns (panicked: bool, ghost ops: seq<Op>)
      requires Valid()
      modifies `root, `host, `regions
      ensures Valid() && workingDirectory == old(workingDirectory)
      ensures !panicked ==>
                && IsTrace(calls, workingDirectory, ops)
                && Survives(old(State()), ops) && State() == After(old(State()), ops)
                && (old(TreeFits(root, regions)) ==> TreeFits(root, regions))
                && (old(InStep(State())) ==> (StaysInStep(old(State()), ops) <==> HasNoMisstep(old(State()), ops)))
                && (forall g :: old(TreeFits(root, regions) && IsSealed(State(), g)) && AllRespect(old(State()), ops, g) ==>
                      IsSealed(State(), g))
    {
      hide InStep, TreeFits, IsSealed, AllRespect, StaysInStep, HasNoMisstep, Next, Panics, IsMisstep, Stat, IsTrace;
      hide MakeDirOutcome, MakeFileOutcome, DeleteOutcome, MoveOutcome, After, Survives, IsBlocked, AreMade, DirsOf,
          Replaces, Moves;
      ops := [];
      OneCall(State(), MakeDir([]));
      NoCalls(workingDirectory);
      var i := 0;
      while i < |calls|
        invariant 0 <= i <= |calls| && Valid() && workingDirectory == old(workingDirectory)
        invariant IsTrace(calls[..i], workingDirectory, ops)
        invariant Survives(old(State()), ops) && State() == After(old(State()), ops)
      {
        ghost var before := State();
        ghost var more: seq<Op>;
        panicked, more := PerformOne(calls[i]);
        if panicked {
          return;
        }
        RunsJoin(old(State()), ops, more);
        TraceGrows(calls[..i], workingDirectory, ops, calls[i], more);
        assert calls[..i] + [calls[i]] == calls[..i + 1];
        ops := ops + more;
        i := i + 1;
      }
      panicked := false;
      assert calls[..i] == calls;
      if old(TreeFits(root, regions)) {
        RunKeepsTree(old(State()), ops);
      }
      if old(InStep(State())) {
        RunKeepsStep(old(State()), ops);
      }
      forall g | old(TreeFits(root, regions) && IsSealed(State(), g)) && AllRespect(old(State()), ops, g) ensures IsSealed(State(), g) {
        SealedRun(old(State()), ops, g);
      }
    }

    method PerformOne(call: Call) returns (panicked: bool, ghost ops: seq<Op>)
      requires Valid()
      modifies `root, `host, `regions
      ensures Valid() && workingDirectory == old(workingDirectory)
      ensures !panicked ==>
                IsTraceOf(call, workingDirectory, ops) && Survives(old(State()), ops)
                    && State() == After(old(State()), ops)
    {
      hide InStep, TreeFits, IsOnHost, StaysOnHost, IsStale, Next, IsMisstep, Stat, IsRefused, Replaces, Moves, After, Survives, IsBlocked, AreMade, DirsOf;
      hide MakeDirOutcome, MakeFileOutcome, DeleteOutcome, MoveOutcome;
      match call {
        case CreatingDir(path) =>
          var result := CreateDir(path);
          panicked, ops := result.Panic?, [MakeDir(Resolved(path))];
          OneCall(old(State()), ops[0]);
        case CreatingDirs(path) =>
          var result;
          result, ops := CreateDirAll(path);
          panicked := result.Panic?;
        case CreatingFile(path) =>
          var result := CreateFile(path);
          panicked, ops := result.Panic?, [MakeFile(Resolved(path))];
          OneCall(old(State()), ops[0]);
        case Removing(path) =>
          var result := Remove(path);
          panicked, ops := result.Panic?, [Delete(Resolved(path))];
          OneCall(old(State()), ops[0]);
        case Renaming(from, to) =>
          var result := Rename(from, to);
          panicked, ops := result.Panic?, if from == to then [] else [Move(Resolved(from), Resolved(to))];
          OneCall(old(State()), Move(Resolved(from), Resolved(to)));
      }
    }
  }

  // ----- Steps of the proofs above -----

  lemma StepIsKept(v: Volume, op: Op)
    ensures InStep(v) ==> (InStep(Next(v, op)) <==> !IsMisstep(v, op)) && (Panics(v, op) <==> IsRefused(v, op))
    ensures TreeFits(v.root, v.regions) ==> (Panics(v, op) <==> IsRefused(v, op) || IsStale(v, op))
    ensures op.Move? ==> (Panics(v, op) <==> IsRefused(v, op))
    ensures Succeeds(v, op) ==>
              forall q {:trigger IsOnHost(Next(v, op).root, Next(v, op).host, q)} ::
                IsOnHost(Next(v, op).root, Next(v, op).host, q) <==> StaysOnHost(v, op, q)
  {
    hide InStep, TreeFits, Next, Panics, Succeeds, IsRefused, IsStale, IsMisstep, IsOnHost, StaysOnHost;
    if InStep(v) {
      StepKeepsStep(v, op);
      PanicsInStep(v, op);
    }
    if TreeFits(v.root, v.regions) {
      PanicsExactly(v, op);
    }
    MovePanics(v, op);
    if Succeeds(v, op) {
      forall q ensures IsOnHost(Next(v, op).root, Next(v, op).host, q) <==> StaysOnHost(v, op, q) {
        StepAtPlace(v, op, q);
      }
    }
  }

  lemma MovePanics(v: Volume, op: Op)
    ensures op.Move? ==> (Panics(v, op) <==> IsRefused(v, op))
  {
    hide CanRename;
  }

  lemma StatAt(root: Node, c: Components)
    ensures Stat(root, c) == match Lookup(root, c) case Some(n) => Some(InfoOf(n)) case None => None
  {
  }

  lemma StatsAt(root: Node, c: Components)
    requires c != []
    ensures Stat(root, c) == match Lookup(root, c) case Some(n) => Some(InfoOf(n)) case None => None
    ensures Stat(root, ParentOf(c)) == match Lookup(root, ParentOf(c)) case Some(n) => Some(InfoOf(n)) case None => None
  {
  }

  /** After a node has been taken out, a directory is still found unless it is the node or in it. */
  lemma MovingInto(root: Node, from: Components, up: Components)
    requires from != [] && Lookup(root, from).Some? && Lookup(root, up).Some?
    ensures Lookup(Put(root, from, None), up) == None <==> from <= up
  {
    ParentIsDirectory(root, from);
    StatPut(root, from, None, up);
    assert Stat(root, up).Some?;
  }

  lemma NoCalls(workingDirectory: string)
    ensures IsTrace([], workingDirectory, [])
  {
  }

  lemma NothingAdded(root: Node)
    ensures OnlyAdds(root, root)
  {
  }

  lemma NoDirs(components: Components)
    ensures |DirsOf(components)| == |components| && DirsOf(components)[..0] == []
    ensures components[..0] == []
  {
  }

  lemma DirAt(components: Components, i: nat)
    requires i < |components|
    ensures DirsOf(components)[..i] + [MakeDir(Paths.Deduplicated(components[..i + 1]))] == DirsOf(components)[..i + 1]
    ensures DirsOf(components)[..i + 1] <= DirsOf(components) && DirsOf(components)[..i] <= DirsOf(components)
  {
  }

  lemma DirsAreTraced(path: string, workingDirectory: string, i: nat)
    requires i <= |Paths.Resolved(path, workingDirectory)|
    ensures var dirs := DirsOf(Paths.Resolved(path, workingDirectory));
            && i <= |dirs| && IsTraceOf(CreatingDirs(path), workingDirectory, dirs[..i])
            && (i < |dirs| ==> IsTraceOf(CreatingDirs(path), workingDirectory, dirs[..i + 1]))
  {
    hide Paths.Resolved;
  }

  lemma ComponentsAreNormal(path: string, workingDirectory: string)
    ensures var components := Paths.Resolved(path, workingDirectory);
            forall k {:trigger components[..k]} :: 0 <= k <= |components| ==> Paths.IsNormal(components[..k])
  {
  }

  lemma OutcomeTells(v: Volume, c: Components)
    ensures Panics(v, MakeDir(c)) <==> MakeDirOutcome(v, c) == Panic
    ensures Next(v, MakeDir(c)) == if MakeDirOutcome(v, c) == Ok then WithDir(v, c) else v
  {
    hide MakeDirOutcome, WithDir;
  }

  /** A file is left over on the host where one of the directories that others go into is to be. */
  ghost predicate IsBlocked(v: Volume, c: Components, d: nat, i: nat)
    requires d <= i <= |c| && HostOf(v.root, c[..d]).Some?
  {
    exists k :: d < k < i && HostKind(v.host, PathMade(v, c, d, k)) == Some(FileKind)
  }

  /** With everything there already, nothing changes; below a file or a read-only directory it fails without any change;
      otherwise exactly the missing directories appear, unless what they go into is not on the host, or a file is in the
      way there, which panics. */
  ghost predicate MakesMissingDirs(v: Volume, v': Volume, c: Components, result: Outcome<FsError>) {
    var d := Existing(v.root, c);
    if d == |c| then result == Ok && v' == v
    else if !IsDirectory(v.root, c[..d]) then result == Err(InvalidParentDir) && v' == v
    else if !IsWriteable(v.root, c[..d]) then result == Err(ReadonlyParentDir) && v' == v
    else
      && HostOf(v.root, c[..d]).Some?
      && result == (if !IsOnHost(v.root, v.host, c[..d]) || IsBlocked(v, c, d, |c|) then Panic else Ok)
      && (result == Ok ==> AreMade(v, v', c, d, |c|))
  }

  /** How far making a path's directories has got. */
  ghost predicate Climbed(v: Volume, v': Volume, c: Components, d: nat, i: nat) {
    && d <= |c|
    && (i <= d ==> v' == v)
    && (i > d ==>
          && IsDirectory(v.root, c[..d]) && IsWriteable(v.root, c[..d]) && IsOnHost(v.root, v.host, c[..d])
          && AreMade(v, v', c, d, i) && !IsBlocked(v, c, d, i))
  }

  lemma ClimbStarts(v: Volume, c: Components, d: nat)
    requires d <= |c|
    ensures Climbed(v, v, c, d, 0)
  {
  }

  lemma AllClimbed(v: Volume, v': Volume, c: Components, d: nat)
    requires d == Existing(v.root, c)
    ensures Climbed(v, v', c, d, |c|) ==> MakesMissingDirs(v, v', c, Ok)
  {
    hide Stat;
  }

  /** The next directory, as far as it can be made; a failure is that of the whole path. */
  lemma Climb(v: Volume, v': Volume, c: Components, d: nat, i: nat)
    requires TreeFits(v.root, v.regions) && d == Existing(v.root, c) && i < |c| && Climbed(v, v', c, d, i)
    ensures var created := MakeDirOutcome(v', c[..i + 1]);
            && (created == Ok ==> Climbed(v, WithDir(v', c[..i + 1]), c, d, i + 1))
            && (created == Err(AlreadyExist) ==> Climbed(v, v', c, d, i + 1))
            && (created != Ok && created != Err(AlreadyExist) ==> MakesMissingDirs(v, v', c, created))
  {
    hide TreeFits, Stat, AreMade, WithDir, Existing, IsBlocked, MakeDirOutcome, IsOnHost;
    if i < d {
      ClimbOver(v, c, d, i);
    } else {
      ExistingTells(v.root, c, d);
      RootFits(v, c[..d]);
      if IsDirectory(v.root, c[..d]) && IsWriteable(v.root, c[..d]) {
        if IsOnHost(v.root, v.host, c[..d]) {
          ClimbOn(v, v', c, d, i);
        } else {
          StaleOutcome(v, c, d);
        }
      } else {
        Outcomes(v, c, d);
      }
    }
  }

  lemma ClimbOver(v: Volume, c: Components, d: nat, i: nat)
    requires d == Existing(v.root, c) && i < d
    ensures MakeDirOutcome(v, c[..i + 1]) == Err(AlreadyExist)
  {
    hide Stat, Existing;
    assert ParentOf(c[..i + 1]) == c[..i];
    ExistingTells(v.root, c, d);
    PrefixExists(v.root, c[..d], i + 1);
    PrefixExists(v.root, c[..d], i);
    assert c[..d][..i + 1] == c[..i + 1] && c[..d][..i] == c[..i];
  }

  lemma Outcomes(v: Volume, c: Components, d: nat)
    requires d < |c| && Stat(v.root, c[..d]).Some? && Stat(v.root, c[..d + 1]) == None
    ensures !IsDirectory(v.root, c[..d]) ==> MakeDirOutcome(v, c[..d + 1]) == Err(InvalidParentDir)
    ensures IsDirectory(v.root, c[..d]) && HostOf(v.root, c[..d]) == None ==>
        MakeDirOutcome(v, c[..d + 1]) == Err(ReadonlyParentDir)
  {
    hide Stat;
    assert ParentOf(c[..d + 1]) == c[..d];
  }

  lemma StaleOutcome(v: Volume, c: Components, d: nat)
    requires d < |c| && IsDirectory(v.root, c[..d]) && IsWriteable(v.root, c[..d]) && Stat(v.root, c[..d + 1]) == None
    requires TreeFits(v.root, v.regions) && !IsOnHost(v.root, v.host, c[..d])
    ensures MakeDirOutcome(v, c[..d + 1]) == Panic && HostOf(v.root, c[..d]).Some?
  {
    hide Stat, TreeFits;
    assert ParentOf(c[..d + 1]) == c[..d];
    DirectoryTells(v, c[..d]);
  }

  lemma ClimbOn(v: Volume, v': Volume, c: Components, d: nat, i: nat)
    requires d <= i < |c| && Climbed(v, v', c, d, i) && IsDirectory(v.root, c[..d]) && IsWriteable(v.root, c[..d])
    requires HostOf(v.root, c[..d]).Some? && HostKind(v.host, HostOf(v.root, c[..d]).value) == Some(DirectoryKind)
    requires IsOnHost(v.root, v.host, c[..d])
    requires forall k :: d < k <= |c| ==> Stat(v.root, c[..k]) == None
    ensures MakeDirOutcome(v', c[..i + 1]) == if IsBlocked(v, c, d, i + 1) then Panic else Ok
    ensures !IsBlocked(v, c, d, i + 1) ==> Climbed(v, WithDir(v', c[..i + 1]), c, d, i + 1)
    ensures IsBlocked(v, c, d, i + 1) ==> IsBlocked(v, c, d, |c|)
  {
    hide Stat, AreMade, WithDir, MakeDirOutcome, HostOf;
    if i == d {
      NothingMade(v, c, d);
    }
    NextMade(v, v', c, d, i);
    PathsMade(v, c, d, i);
    assert i > d ==> (IsBlocked(v, c, d, i + 1) <==> HostKind(v.host, PathMade(v, c, d, i)) == Some(FileKind));
  }

  /** What Existing says about the place that it finds, and about those behind it. */
  lemma ExistingTells(root: Node, c: Components, d: nat)
    requires d == Existing(root, c)
    ensures d <= |c| && Stat(root, c[..d]).Some? && forall k :: d < k <= |c| ==> Stat(root, c[..k]) == None
  {
    assert Stat(root, []) == Some(InfoOf(root));
    assert d == 0 ==> c[..d] == [];
  }

  lemma RootFits(v: Volume, q: Components)
    requires TreeFits(v.root, v.regions)
    ensures IsWriteable(v.root, q) ==> HostOf(v.root, q).Some?
    ensures HostOf(v.root, q).Some? && IsOnHost(v.root, v.host, q) && IsDirectory(v.root, q) ==>
              HostKind(v.host, HostOf(v.root, q).value) == Some(DirectoryKind)
    ensures IsDirectory(v.root, q) && !IsWriteable(v.root, q) ==> HostOf(v.root, q) == None
  {
    assert Fits(v.root, v.regions, q);
  }

  lemma JoinedParent(up: HostPath, name: string)
    ensures up.Join(name).parts != [] && HostPath(up.Join(name).mount, ParentOf(up.Join(name).parts)) == up
  {
    assert (up.parts + [name])[..|up.parts|] == up.parts;
  }
}
