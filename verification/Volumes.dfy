/** The virtual filesystem together with the host directories behind it, and the steps that its calls take. */
module Volumes {
  import opened Common
  import opened VfsTree

  /** The tree; the regions, which are the places whose host directory need not be in that of the directory they are in;
      and what is on the host, which may be more than the tree shows. */
  datatype Volume = Volume(root: Node, regions: set<Components>, host: map<HostPath, Kind>)

  function HostKind(host: map<HostPath, Kind>, path: HostPath): Option<Kind> {
    if path in host then Some(host[path]) else None
  }

  /** Every entry on the host is in a directory. */
  ghost predicate IsTreelike(host: map<HostPath, Kind>) {
    forall r :: r in host && r.parts != [] ==> HostKind(host, HostPath(r.mount, ParentOf(r.parts))) == Some(DirectoryKind)
  }

  /** Where on the host a new entry goes: in the host directory of the directory that it is put in. */
  function NewPath(root: Node, c: Components): HostPath
    requires c != [] && HostOf(root, ParentOf(c)).Some?
  {
    HostOf(root, ParentOf(c)).value.Join(NameOf(c))
  }

  // ----- The invariant -----

  /** What can be written to is on the host: it is a region's own directory, or an entry of a writeable directory and at
      that directory's host path joined with its name. */
  predicate Fits(root: Node, regions: set<Components>, q: Components) {
    IsWriteable(root, q) ==>
      && HostOf(root, q).Some?
      && (q !in regions ==>
            && q != [] && IsWriteable(root, ParentOf(q)) && HostOf(root, ParentOf(q)).Some?
            && HostOf(root, q) == Some(NewPath(root, q)))
  }

  ghost predicate TreeFits(root: Node, regions: set<Components>) {
    && (forall q :: Fits(root, regions, q))
    && (forall g :: g in regions ==> IsDirectory(root, g) && IsWriteable(root, g))
  }

  predicate IsOnHost(root: Node, host: map<HostPath, Kind>, q: Components) {
    HostOf(root, q).Some? ==> HostKind(host, HostOf(root, q).value) == KindOf(root, q)
  }

  /** The host has everything that the tree shows to be there, read-only files included. */
  ghost predicate HostHas(root: Node, host: map<HostPath, Kind>) {
    forall q :: IsOnHost(root, host, q)
  }

  ghost predicate InStep(v: Volume) {
    TreeFits(v.root, v.regions) && HostHas(v.root, v.host)
  }

  // ----- What it means -----

  /** The innermost region that a place is in. */
  function RegionOf(regions: set<Components>, q: Components): Components {
    if q == [] || q in regions then q else RegionOf(regions, ParentOf(q))
  }

  /** The host path of whatever can be written to is that of its innermost region, with the names from there on. */
  lemma {:induction false} HostPathsJoin(root: Node, regions: set<Components>, q: Components)
    requires TreeFits(root, regions) && IsWriteable(root, q)
    ensures var g := RegionOf(regions, q);
            && g in regions && g <= q && HostOf(root, g).Some?
            && HostOf(root, q) == Some(HostOf(root, g).value.Append(q[|g|..]))
    ensures q !in regions ==>
              q != [] && HostOf(root, ParentOf(q)).Some? && HostOf(root, q) == Some(NewPath(root, q))
  {
    hide IsWriteable, HostOf;
    assert Fits(root, regions, q);
    if q in regions {
      var p := HostOf(root, q).value;
      assert p.parts + q[|q|..] == p.parts;
    } else {
      var up, g := ParentOf(q), RegionOf(regions, q);
      HostPathsJoin(root, regions, up);
      var p := HostOf(root, g).value;
      assert up[|g|..] + [NameOf(q)] == q[|g|..];
      assert (p.parts + up[|g|..]) + [NameOf(q)] == p.parts + q[|g|..];
    }
  }

  /** Only regions one of whose host directories is inside the other's have entries with the same host path. */
  lemma SharedHostPath(root: Node, regions: set<Components>, q: Components, r: Components)
    requires TreeFits(root, regions) && IsWriteable(root, q) && IsWriteable(root, r)
    requires q != r && HostOf(root, q) == HostOf(root, r)
    ensures var g, h := RegionOf(regions, q), RegionOf(regions, r);
            && g in regions && h in regions && g != h && HostOf(root, g).Some? && HostOf(root, h).Some?
            && var a, b := HostOf(root, g).value, HostOf(root, h).value; a.IsPrefixOf(b) || b.IsPrefixOf(a)
  {
    hide IsWriteable, HostOf;
    HostPathsJoin(root, regions, q);
    HostPathsJoin(root, regions, r);
    var g, h := RegionOf(regions, q), RegionOf(regions, r);
    OneIsPrefix(HostOf(root, g).value.parts, q[|g|..], HostOf(root, h).value.parts, r[|h|..]);
    assert q == g + q[|g|..] && r == h + r[|h|..];
  }

  lemma OneIsPrefix(a: Components, x: Components, b: Components, y: Components)
    requires a + x == b + y
    ensures a <= b || b <= a
    ensures a == b ==> x == y
  {
    var path := a + x;
    assert a == path[..|a|] && b == path[..|b|];
    assert x == path[|a|..] && y == (b + y)[|b|..];
  }

  // ----- One entry put or taken out -----

  /** Nothing changes but what is at one path; below it there is nothing afterwards. */
  ghost predicate Replaces(root: Node, root': Node, c: Components, info: Option<Info>) {
    forall q {:trigger Stat(root', q)} :: Stat(root', q) == if q == c then info else if c <= q then None
        else Stat(root, q)
  }

  lemma PuttingReplaces(root: Node, c: Components, leaf: Option<Node>)
    requires c != [] && IsDirectory(root, ParentOf(c))
    requires leaf.Some? && leaf.value.Directory? ==> leaf.value.children == map[]
    ensures Replaces(root, Put(root, c, leaf), c, match leaf case Some(n) => Some(InfoOf(n)) case None => None)
  {
    forall q ensures Stat(Put(root, c, leaf), q) ==
                     if q == c then (match leaf case Some(n) => Some(InfoOf(n)) case None => None)
                     else if c <= q then None else Stat(root, q)
    {
      StatPut(root, c, leaf, q);
      if c <= q && leaf.Some? {
        assert q == c + q[|c|..];
        LeafAlone(leaf.value, q[|c|..]);
      }
    }
  }

  lemma LeafAlone(leaf: Node, below: Components)
    requires leaf.Directory? ==> leaf.children == map[]
    ensures Stat(leaf, below) == if below == [] then Some(InfoOf(leaf)) else None
  {
  }

  /** The regions that are left when something is put or taken out at `c`. */
  function Kept(regions: set<Components>, c: Components): set<Components> {
    set q | q in regions && !(c <= q)
  }

  lemma ReplacingKeepsTree(root: Node, regions: set<Components>, root': Node, c: Components, info: Option<Info>)
    requires TreeFits(root, regions) && c != [] && Replaces(root, root', c, info)
    requires info.Some? ==> IsWriteable(root, ParentOf(c)) && HostOf(root, ParentOf(c)).Some?
    requires info.Some? ==> info.value.writeable && info.value.host == Some(NewPath(root, c))
    ensures TreeFits(root', Kept(regions, c))
  {
    hide Stat;
    forall q ensures Fits(root', Kept(regions, c), q) {
      assert Fits(root, regions, q);
      assert Stat(root', q) == if q == c then info else if c <= q then None else Stat(root, q);
      if q != [] {
        assert Stat(root', ParentOf(q)) == if ParentOf(q) == c then info else if c <= ParentOf(q) then None
            else Stat(root, ParentOf(q));
      }
    }
  }

  function HostWith(host: map<HostPath, Kind>, p: HostPath, kind: Kind): map<HostPath, Kind> {
    if p in host then host else host[p := kind]
  }

  /** A new entry keeps the two in step, unless something of the other kind is left over on the host in its place. */
  lemma AddingKeepsHost(root: Node, host: map<HostPath, Kind>, root': Node, c: Components, kind: Kind, p: HostPath)
    requires HostHas(root, host) && Replaces(root, root', c, Some(Info(kind, true, Some(p))))
    ensures HostHas(root', HostWith(host, p, kind)) <==> (p in host ==> host[p] == kind)
  {
    hide Stat;
    var host' := HostWith(host, p, kind);
    if p in host ==> host[p] == kind {
      forall q ensures IsOnHost(root', host', q) {
        assert IsOnHost(root, host, q);
        assert Stat(root', q) == if q == c then Some(Info(kind, true, Some(p))) else if c <= q then None
            else Stat(root, q);
      }
    } else {
      assert Stat(root', c) == Some(Info(kind, true, Some(p)));
      assert !IsOnHost(root', host', c);
    }
  }

  ghost predicate IsEmptyDirectory(root: Node, c: Components) {
    forall q :: c <= q && Stat(root, q).Some? ==> q == c
  }

  /** No other place has the same host path. */
  ghost predicate IsAlone(root: Node, c: Components) {
    forall q :: q != c && HostOf(root, q).Some? ==> HostOf(root, q) != HostOf(root, c)
  }

  /** Removing a file or an empty directory keeps the two in step exactly when no other place shows it. */
  lemma RemovingKeepsHost(root: Node, host: map<HostPath, Kind>, root': Node, c: Components, p: HostPath)
    requires HostHas(root, host) && Replaces(root, root', c, None) && HostOf(root, c) == Some(p)
        && IsEmptyDirectory(root, c)
    ensures HostHas(root', host - {p}) <==> IsAlone(root, c)
  {
    hide Stat;
    forall q | q != c ensures HostOf(root', q) == HostOf(root, q) && KindOf(root', q) == KindOf(root, q) {
      assert Stat(root', q) == if q == c then None else if c <= q then None else Stat(root, q);
    }
    assert HostOf(root', c) == None;
    if IsAlone(root, c) {
      forall q ensures IsOnHost(root', host - {p}, q) {
        assert IsOnHost(root, host, q);
      }
    } else {
      var q :| q != c && HostOf(root, q).Some? && HostOf(root, q) == HostOf(root, c);
      assert !IsOnHost(root', host - {p}, q);
    }
  }

  // ----- A subtree moved -----

  /** What a path leads to when everything at `from` has been moved to `to`, which is `path` on the host. */
  ghost function MovedStat(root: Node, from: Components, to: Components, path: HostPath, q: Components): Option<Info> {
    if to <= q then RehostedStat(root, from, path, q[|to|..])
    else if from <= q then None
    else Stat(root, q)
  }

  ghost predicate Moves(root: Node, root': Node, from: Components, to: Components, path: HostPath) {
    forall q {:trigger Stat(root', q)} :: Stat(root', q) == MovedStat(root, from, to, path, q)
  }

  function Renamed(root: Node, from: Components, to: Components, path: HostPath): Node
    requires from != [] && to != [] && Lookup(root, from).Some?
  {
    Put(Put(root, from, None), to, Some(Rehosted(Lookup(root, from).value, path)))
  }

  lemma RenamedMoves(root: Node, from: Components, to: Components, path: HostPath)
    requires from != [] && to != [] && Stat(root, from).Some?
    requires IsDirectory(root, ParentOf(to)) && !(from <= ParentOf(to))
    ensures Lookup(root, from).Some? && Moves(root, Renamed(root, from, to, path), from, to, path)
  {
    hide Put, Lookup, Rehosted, RehostedStat;
    var moved, root1 := Lookup(root, from).value, Put(root, from, None);
    ParentIsDirectory(root, from);
    StatPut(root, from, None, ParentOf(to));
    forall q ensures Stat(Renamed(root, from, to, path), q) == MovedStat(root, from, to, path, q) {
      StatPut(root1, to, Some(Rehosted(moved, path)), q);
      StatPut(root, from, None, q);
      if to <= q {
        StatRehosted(moved, path, q[|to|..]);
        RehostedBelow(root, from, path, q[|to|..]);
      }
    }
  }

  lemma RehostedBelow(root: Node, from: Components, path: HostPath, below: Components)
    requires Lookup(root, from).Some?
    ensures RehostedStat(root, from, path, below) == RehostedStat(Lookup(root, from).value, [], path, below)
  {
    hide Lookup;
    var moved := Lookup(root, from).value;
    StatBelow(root, from, below);
    assert [] + below == below;
    forall k | 0 <= k < |below| ensures IsWriteable(root, from + below[..k]) <==> IsWriteable(moved, [] + below[..k]) {
      StatBelow(root, from, below[..k]);
      assert [] + below[..k] == below[..k];
    }
    if AreWriteable(root, from, below) {
      assert AreWriteable(moved, [], below);
    }
    if AreWriteable(moved, [], below) {
      assert AreWriteable(root, from, below);
    }
  }

  ghost predicate IsMovedRegion(root: Node, regions: set<Components>, from: Components, to: Components, q: Components) {
    if to <= q then from + q[|to|..] in regions && !AreWriteable(root, from, q[|to|..])
    else q in regions && !(from <= q)
  }

  /** The regions after a move: one that is moved gets a host path in its new directory's, and is none any more, unless
      it is behind something read-only. */
  ghost function MovedRegions(root: Node, regions: set<Components>, from: Components, to: Components): set<Components> {
    set q | q in regions + (set r | r in regions && from <= r :: to + r[|from|..])
        && IsMovedRegion(root, regions, from, to, q)
  }

  lemma RegionsMoved(root: Node, regions: set<Components>, from: Components, to: Components, q: Components)
    ensures q in MovedRegions(root, regions, from, to) <==> IsMovedRegion(root, regions, from, to, q)
  {
    hide AreWriteable;
    if to <= q && from + q[|to|..] in regions {
      var r := from + q[|to|..];
      assert r[|from|..] == q[|to|..] && to + r[|from|..] == q;
      assert q in (set r | r in regions && from <= r :: to + r[|from|..]);
    }
  }

  lemma WriteableStep(root: Node, from: Components, below: Components)
    requires below != []
    ensures AreWriteable(root, from, below) <==> AreWriteable(root, from, ParentOf(below)) && IsWriteable(root, from + ParentOf(below))
  {
    var up := ParentOf(below);
    assert forall k :: 0 <= k < |up| ==> below[..k] == up[..k];
    if AreWriteable(root, from, below) {
      forall k | 0 <= k < |up| ensures IsWriteable(root, from + up[..k]) {
        assert IsWriteable(root, from + below[..k]);
      }
      assert IsWriteable(root, from + below[..|up|]);
    }
    if AreWriteable(root, from, up) && IsWriteable(root, from + up) {
      forall k | 0 <= k < |below| ensures IsWriteable(root, from + below[..k]) {
        if k < |up| {
          assert IsWriteable(root, from + up[..k]);
        }
      }
    }
  }

  lemma MovedFits(root: Node, regions: set<Components>, root': Node, from: Components, to: Components, q: Components)
    requires TreeFits(root, regions) && to != [] && from != [] && IsWriteable(root, from)
    requires IsWriteable(root, ParentOf(to)) && HostOf(root, ParentOf(to)).Some? && !(from <= ParentOf(to))
    requires Moves(root, root', from, to, NewPath(root, to)) && to <= q
    ensures Fits(root', MovedRegions(root, regions, from, to), q)
  {
    hide Stat, AreWriteable, MovedRegions;
    var p, below := NewPath(root, to), q[|to|..];
    RegionsMoved(root, regions, from, to, q);
    assert Fits(root, regions, from + below);
    assert Stat(root', q) == RehostedStat(root, from, p, below);
    if below == [] {
      assert q == to && from + below == from;
      NothingToPass(root, from);
      assert Stat(root', ParentOf(to)) == Stat(root, ParentOf(to));
      assert p.parts + below == p.parts;
    } else {
      var up := ParentOf(below);
      assert ParentOf(q) == to + up && ParentOf(q)[|to|..] == up && ParentOf(from + below) == from + up;
      assert Fits(root, regions, from + up);
      assert NameOf(q) == NameOf(below) == NameOf(from + below);
      assert to <= ParentOf(q);
      assert Stat(root', ParentOf(q)) == RehostedStat(root, from, p, up);
      WriteableStep(root, from, below);
      JoinAppends(p, below);
    }
  }

  lemma NothingToPass(root: Node, from: Components)
    ensures AreWriteable(root, from, [])
  {
  }

  lemma JoinAppends(p: HostPath, below: Components)
    requires below != []
    ensures p.Append(below) == p.Append(ParentOf(below)).Join(NameOf(below))
  {
    assert below == ParentOf(below) + [NameOf(below)];
    assert (p.parts + ParentOf(below)) + [NameOf(below)] == p.parts + below;
  }

  lemma MovingKeepsTree(root: Node, regions: set<Components>, root': Node, from: Components, to: Components)
    requires TreeFits(root, regions) && to != [] && from != [] && IsWriteable(root, from)
    requires IsWriteable(root, ParentOf(to)) && HostOf(root, ParentOf(to)).Some? && !(from <= ParentOf(to))
    requires Moves(root, root', from, to, NewPath(root, to))
    ensures TreeFits(root', MovedRegions(root, regions, from, to))
  {
    hide Stat, AreWriteable, MovedRegions;
    var regions' := MovedRegions(root, regions, from, to);
    forall q ensures Fits(root', regions', q) {
      if to <= q {
        MovedFits(root, regions, root', from, to, q);
      } else {
        RegionsMoved(root, regions, from, to, q);
        assert Fits(root, regions, q);
        assert Stat(root', q) == if from <= q then None else Stat(root, q);
        if q != [] {
          assert !(to <= ParentOf(q));
          assert Stat(root', ParentOf(q)) == if from <= ParentOf(q) then None else Stat(root, ParentOf(q));
        }
      }
    }
    forall g | g in regions' ensures IsDirectory(root', g) && IsWriteable(root', g) {
      RegionsMoved(root, regions, from, to, g);
      assert Stat(root', g) == MovedStat(root, from, to, NewPath(root, to), g);
    }
  }

  // ----- Renaming on the host -----

  /** As POSIX has it: into a directory, not into itself, and only onto a file or an empty directory of the same kind. */
  ghost predicate HostCanRename(host: map<HostPath, Kind>, old_: HostPath, new_: HostPath)
    requires new_.parts != []
  {
    && old_ in host && HostKind(host, HostPath(new_.mount, ParentOf(new_.parts))) == Some(DirectoryKind)
    && (old_.IsPrefixOf(new_) ==> old_ == new_)
    && (new_ != old_ ==>
          && (new_ in host ==> host[new_] == host[old_])
          && forall p :: p in host && new_.IsPrefixOf(p) ==> p == new_)
  }

  function MovedKind(host: map<HostPath, Kind>, old_: HostPath, new_: HostPath, p: HostPath): Option<Kind> {
    if new_.IsPrefixOf(p) then HostKind(host, old_.Append(new_.Behind(p)))
    else if old_.IsPrefixOf(p) then None
    else HostKind(host, p)
  }

  /** The host's entries after a rename. */
  function MovedHost(host: map<HostPath, Kind>, old_: HostPath, new_: HostPath): map<HostPath, Kind> {
    map p | p in host.Keys + (set q | q in host && old_.IsPrefixOf(q) :: new_.Append(old_.Behind(q)))
            && MovedKind(host, old_, new_, p).Some?
      :: MovedKind(host, old_, new_, p).value
  }

  lemma HostMoved(host: map<HostPath, Kind>, old_: HostPath, new_: HostPath, p: HostPath)
    ensures HostKind(MovedHost(host, old_, new_), p) == MovedKind(host, old_, new_, p)
  {
    if new_.IsPrefixOf(p) {
      var q := old_.Append(new_.Behind(p));
      assert old_.IsPrefixOf(q) && old_.Behind(q) == new_.Behind(p);
      assert p == new_.Append(new_.Behind(p));
      assert q in host ==> p in (set q | q in host && old_.IsPrefixOf(q) :: new_.Append(old_.Behind(q)));
    }
  }

  /** The host directory that is moved has everything that gets a new host path in it. */
  ghost predicate MovesWhole(root: Node, host: map<HostPath, Kind>, from: Components, old_: HostPath) {
    forall below {:trigger AreWriteable(root, from, below)} :: AreWriteable(root, from, below) && HostOf(root, from + below).Some? ==>
      HostKind(host, old_.Append(below)) == KindOf(root, from + below)
  }

  /** A place that keeps its host path when the rest is moved. */
  ghost predicate StaysPut(root: Node, from: Components, to: Components, q: Components) {
    if from <= q then !AreWriteable(root, from, q[|from|..]) else !(to <= q)
  }

  /** Nothing that keeps its host path has it in the host directory that is moved. */
  ghost predicate OthersStay(root: Node, from: Components, to: Components, old_: HostPath) {
    forall q {:trigger StaysPut(root, from, to, q)} :: StaysPut(root, from, to, q) && HostOf(root, q).Some? ==>
        !old_.IsPrefixOf(HostOf(root, q).value)
  }

  /** What stays is still on the host, unless it was in the host directory that was moved. */
  lemma StayingOnHost(host: map<HostPath, Kind>, old_: HostPath, new_: HostPath, h: HostPath)
    requires new_.parts != [] && HostCanRename(host, old_, new_) && h in host
    ensures MovedKind(host, old_, new_, h) == if old_ != new_ && old_.IsPrefixOf(h) then None else HostKind(host, h)
  {
    if new_.IsPrefixOf(h) {
      if old_ == new_ {
        assert old_.Append(new_.Behind(h)) == h;
      } else {
        assert h == new_ && old_.Append(new_.Behind(h)) == old_;
      }
    }
  }

  /** Moving a subtree keeps the two in step exactly when the host directory has all of it and nothing else shows. */
  lemma MovingKeepsHost(root: Node, host: map<HostPath, Kind>, root': Node, from: Components, to: Components,
                        old_: HostPath, new_: HostPath)
    requires HostHas(root, host) && Moves(root, root', from, to, new_) && new_.parts != []
        && HostCanRename(host, old_, new_)
    ensures HostHas(root', MovedHost(host, old_, new_))
            <==> MovesWhole(root, host, from, old_) && (old_ == new_ || OthersStay(root, from, to, old_))
  {
    hide Stat, AreWriteable, MovedHost, HostCanRename, MovedKind, HostPath.Append, HostPath.IsPrefixOf;
    var host' := MovedHost(host, old_, new_);
    if MovesWhole(root, host, from, old_) && (old_ == new_ || OthersStay(root, from, to, old_)) {
      forall q ensures IsOnHost(root', host', q) {
        MovedIsOnHost(root, host, root', from, to, old_, new_, q);
      }
    }
    if HostHas(root', host') {
      forall below | AreWriteable(root, from, below) && HostOf(root, from + below).Some?
        ensures HostKind(host, old_.Append(below)) == KindOf(root, from + below)
      {
        MovedWasThere(root, host, root', from, to, old_, new_, below);
      }
      forall q | StaysPut(root, from, to, q) && HostOf(root, q).Some? && old_ != new_ ensures !old_.IsPrefixOf(HostOf(root, q).value) {
        StayingIsOutside(root, host, root', from, to, old_, new_, q);
      }
    }
  }

  lemma MovedIsOnHost(root: Node, host: map<HostPath, Kind>, root': Node, from: Components, to: Components,
                      old_: HostPath, new_: HostPath, q: Components)
    requires HostHas(root, host) && Moves(root, root', from, to, new_) && new_.parts != []
        && HostCanRename(host, old_, new_)
    requires MovesWhole(root, host, from, old_) && (old_ == new_ || OthersStay(root, from, to, old_))
    ensures IsOnHost(root', MovedHost(host, old_, new_), q)
  {
    hide Stat, AreWriteable, MovedHost, HostCanRename, MovedKind, HostPath.IsPrefixOf, HostKind;
    assert Stat(root', q) == MovedStat(root, from, to, new_, q);
    if Stat(root', q).Some? {
      var r := if to <= q then from + q[|to|..] else q;
      assert to <= q ==> r[|from|..] == q[|to|..];
      assert IsOnHost(root, host, r);
      if to <= q && AreWriteable(root, from, q[|to|..]) {
        HostMoved(host, old_, new_, new_.Append(q[|to|..]));
        MovedFrom(host, old_, new_, q[|to|..]);
      } else if HostOf(root, r).Some? {
        assert StaysPut(root, from, to, r);
        KindIsKnown(root, host, r);
        HostMoved(host, old_, new_, HostOf(root, r).value);
        StayingOnHost(host, old_, new_, HostOf(root, r).value);
      }
    }
  }

  lemma KindIsKnown(root: Node, host: map<HostPath, Kind>, q: Components)
    requires IsOnHost(root, host, q) && HostOf(root, q).Some?
    ensures HostOf(root, q).value in host
  {
  }

  lemma MovedFrom(host: map<HostPath, Kind>, old_: HostPath, new_: HostPath, below: Components)
    ensures MovedKind(host, old_, new_, new_.Append(below)) == HostKind(host, old_.Append(below))
  {
    assert new_.Behind(new_.Append(below)) == below;
  }

  lemma MovedWasThere(root: Node, host: map<HostPath, Kind>, root': Node, from: Components, to: Components,
                      old_: HostPath, new_: HostPath, below: Components)
    requires Moves(root, root', from, to, new_) && HostHas(root', MovedHost(host, old_, new_))
    requires AreWriteable(root, from, below) && HostOf(root, from + below).Some?
    ensures HostKind(host, old_.Append(below)) == KindOf(root, from + below)
  {
    hide Stat, AreWriteable, MovedHost, MovedKind, HostKind;
    var q := to + below;
    assert q[|to|..] == below;
    assert Stat(root', q) == RehostedStat(root, from, new_, below);
    assert IsOnHost(root', MovedHost(host, old_, new_), q);
    HostMoved(host, old_, new_, new_.Append(below));
    MovedFrom(host, old_, new_, below);
  }

  lemma StayingIsOutside(root: Node, host: map<HostPath, Kind>, root': Node, from: Components, to: Components,
                         old_: HostPath, new_: HostPath, q: Components)
    requires HostHas(root, host) && Moves(root, root', from, to, new_) && HostHas(root', MovedHost(host, old_, new_))
    requires new_.parts != [] && HostCanRename(host, old_, new_) && old_ != new_
    requires StaysPut(root, from, to, q) && HostOf(root, q).Some?
    ensures !old_.IsPrefixOf(HostOf(root, q).value)
  {
    hide Stat, AreWriteable, MovedHost, HostCanRename, MovedKind, HostPath.IsPrefixOf, HostKind;
    var q' := if from <= q then to + q[|from|..] else q;
    assert from <= q ==> q'[|to|..] == q[|from|..] && from + q[|from|..] == q;
    assert Stat(root', q') == Stat(root, q);
    assert IsOnHost(root, host, q) && IsOnHost(root', MovedHost(host, old_, new_), q');
    KindIsKnown(root, host, q);
    HostMoved(host, old_, new_, HostOf(root, q).value);
    StayingOnHost(host, old_, new_, HostOf(root, q).value);
    KindIsSome(root, q);
  }

  lemma KindIsSome(root: Node, q: Components)
    requires HostOf(root, q).Some?
    ensures KindOf(root, q).Some?
  {
  }

  // ----- Outcomes -----

  datatype FsError =
    AccessDenied | AlreadyExist | DirectoryNotEmpty | DoesNotExist | InvalidParentDir | NonexistentParentDir | ReadonlyParentDir

  /** What a call comes to; a panic ends the emulator. */
  datatype Outcome<+E> = Ok | Err(error: E) | Panic

  function MakeDirOutcome(v: Volume, c: Components): Outcome<FsError> {
    if c == [] || Stat(v.root, ParentOf(c)) == None then Err(NonexistentParentDir)
    else if !IsDirectory(v.root, ParentOf(c)) then Err(InvalidParentDir)
    else if Stat(v.root, c).Some? then Err(AlreadyExist)
    else if HostOf(v.root, ParentOf(c)) == None then Err(ReadonlyParentDir)
    else if HostKind(v.host, HostOf(v.root, ParentOf(c)).value) == Some(DirectoryKind) then Ok
    else Panic
  }

  predicate IsWriteableFile(root: Node, c: Components) {
    IsWriteable(root, c) && !IsDirectory(root, c)
  }

  /** Opening for writing, with creation. */
  function MakeFileOutcome(v: Volume, c: Components): Outcome<()> {
    if c == [] || !IsDirectory(v.root, ParentOf(c)) then Err(())
    else if IsWriteableFile(v.root, c) then
      if HostOf(v.root, c) == None || HostKind(v.host, HostOf(v.root, c).value) == Some(FileKind) then Ok else Panic
    else if HostOf(v.root, ParentOf(c)) == None then Err(())
    else if HostKind(v.host, HostOf(v.root, ParentOf(c)).value) == Some(DirectoryKind)
            && HostKind(v.host, NewPath(v.root, c)) != Some(DirectoryKind) then Ok
    else Panic
  }

  ghost predicate HostCanRemove(host: map<HostPath, Kind>, p: HostPath, kind: Kind) {
    && HostKind(host, p) == Some(kind)
    && (kind == DirectoryKind ==> forall r :: r in host && p.IsPrefixOf(r) ==> r == p)
  }

  ghost function DeleteOutcome(v: Volume, c: Components): Outcome<FsError> {
    if c == [] || Stat(v.root, ParentOf(c)) == None then Err(NonexistentParentDir)
    else if !IsDirectory(v.root, ParentOf(c)) then Err(InvalidParentDir)
    else if HostOf(v.root, ParentOf(c)) == None then Err(ReadonlyParentDir)
    else if Stat(v.root, c) == None then Err(DoesNotExist)
    else if IsDirectory(v.root, c) && !IsEmptyDirectory(v.root, c) then Err(DirectoryNotEmpty)
    else if !IsWriteable(v.root, c) then Err(AccessDenied)
    else if HostOf(v.root, c).Some? && HostCanRemove(v.host, HostOf(v.root, c).value, KindOf(v.root, c).value) then Ok
    else Panic
  }

  /** Both ends of a rename can be written to, and the host allows it. */
  ghost predicate CanRename(v: Volume, from: Components, to: Components) {
    && IsWriteable(v.root, from) && HostOf(v.root, from).Some?
    && to != [] && IsDirectory(v.root, ParentOf(to)) && HostOf(v.root, ParentOf(to)).Some?
    && HostCanRename(v.host, HostOf(v.root, from).value, NewPath(v.root, to))
  }

  ghost function MoveOutcome(v: Volume, from: Components, to: Components): Outcome<()> {
    if !CanRename(v, from, to) then Err(())
    else if from <= ParentOf(to) then Panic
    else Ok
  }

  // ----- Steps -----

  datatype Op = MakeDir(path: Components) | MakeFile(path: Components) | Delete(path: Components) | Move(from: Components, to: Components)

  ghost predicate Succeeds(v: Volume, op: Op) {
    match op
    case MakeDir(c) => MakeDirOutcome(v, c).Ok?
    case MakeFile(c) => MakeFileOutcome(v, c).Ok?
    case Delete(c) => DeleteOutcome(v, c).Ok?
    case Move(from, to) => MoveOutcome(v, from, to).Ok?
  }

  ghost predicate Panics(v: Volume, op: Op) {
    match op
    case MakeDir(c) => MakeDirOutcome(v, c).Panic?
    case MakeFile(c) => MakeFileOutcome(v, c).Panic?
    case Delete(c) => DeleteOutcome(v, c).Panic?
    case Move(from, to) => MoveOutcome(v, from, to).Panic?
  }

  function WithDir(v: Volume, c: Components): Volume
    requires MakeDirOutcome(v, c).Ok?
  {
    var p := NewPath(v.root, c);
    Volume(Put(v.root, c, Some(Directory(map[], Some(p)))), Kept(v.regions, c), HostWith(v.host, p, DirectoryKind))
  }

  /** An entry that cannot be written to, and a region's directory, give way to the new file. */
  function WithFile(v: Volume, c: Components): Volume
    requires MakeFileOutcome(v, c).Ok?
  {
    if IsWriteableFile(v.root, c) then v
    else
      var p := NewPath(v.root, c);
      Volume(Put(v.root, c, Some(File(OnHost(p), true))), Kept(v.regions, c), HostWith(v.host, p, FileKind))
  }

  ghost function Without(v: Volume, c: Components): Volume
    requires DeleteOutcome(v, c).Ok?
  {
    Volume(Put(v.root, c, None), Kept(v.regions, c), v.host - {HostOf(v.root, c).value})
  }

  ghost function WithMoved(v: Volume, from: Components, to: Components): Volume
    requires MoveOutcome(v, from, to).Ok?
  {
    var old_, new_ := HostOf(v.root, from).value, NewPath(v.root, to);
    Volume(Renamed(v.root, from, to, new_), MovedRegions(v.root, v.regions, from, to), MovedHost(v.host, old_, new_))
  }

  /** What a call leaves behind; one that fails changes nothing. */
  ghost function Next(v: Volume, op: Op): Volume {
    if !Succeeds(v, op) then v
    else
      match op
      case MakeDir(c) => WithDir(v, c)
      case MakeFile(c) => WithFile(v, c)
      case Delete(c) => Without(v, c)
      case Move(from, to) => WithMoved(v, from, to)
  }

  ghost function After(v: Volume, ops: seq<Op>): Volume {
    if ops == [] then v else Next(After(v, ops[..|ops| - 1]), ops[|ops| - 1])
  }

  /** None of the calls panics. */
  ghost predicate Survives(v: Volume, ops: seq<Op>) {
    ops != [] ==> Survives(v, ops[..|ops| - 1]) && !Panics(After(v, ops[..|ops| - 1]), ops[|ops| - 1])
  }
}
