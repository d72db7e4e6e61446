/** What calls on the virtual filesystem keep at single places, and in regions that have their host directory to themselves. */
module VolumeRegions {
  import opened Common
  import opened VfsTree
  import opened Volumes
  import opened VolumeRuns

  // ----- One place -----

  /** Where in the tree before the call what is at `q` afterwards was. */
  function Before(from: Components, to: Components, q: Components): Components {
    if to <= q then from + q[|to|..] else q
  }

  ghost predicate StaysWithMove(v: Volume, from: Components, to: Components, q: Components)
    requires CanRename(v, from, to)
  {
    var old_, new_ := HostOf(v.root, from).value, NewPath(v.root, to);
    var r := Before(from, to, q);
    if to <= q && AreWriteable(v.root, from, q[|to|..]) then
      HostOf(v.root, r).Some? ==> HostKind(v.host, old_.Append(q[|to|..])) == KindOf(v.root, r)
    else if !(to <= q) && from <= q then true
    else HostOf(v.root, r).Some? ==> MovedKind(v.host, old_, new_, HostOf(v.root, r).value) == KindOf(v.root, r)
  }

  /** What is shown at `q` after the call is on the host then. */
  ghost predicate StaysOnHost(v: Volume, op: Op, q: Components)
    requires Succeeds(v, op)
  {
    match op
    case MakeDir(c) =>
      var p := NewPath(v.root, c);
      if q == c then HostKind(v.host, p) != Some(FileKind)
      else IsOnHost(v.root, v.host, q) || (p !in v.host && HostOf(v.root, q) == Some(p) && KindOf(v.root, q) == Some(DirectoryKind))
    case MakeFile(c) =>
      if IsWriteableFile(v.root, c) then IsOnHost(v.root, v.host, q)
      else
        var p := NewPath(v.root, c);
        c <= q || IsOnHost(v.root, v.host, q) || (p !in v.host && HostOf(v.root, q) == Some(p) && KindOf(v.root, q) == Some(FileKind))
    case Delete(c) => q == c || (IsOnHost(v.root, v.host, q) && HostOf(v.root, q) != HostOf(v.root, c))
    case Move(from, to) => StaysWithMove(v, from, to, q)
  }

  lemma AddingAtPlace(root: Node, host: map<HostPath, Kind>, root': Node, c: Components, kind: Kind, p: HostPath, q: Components)
    requires Replaces(root, root', c, Some(Info(kind, true, Some(p))))
    ensures IsOnHost(root', HostWith(host, p, kind), q) <==>
            if q == c then p in host ==> host[p] == kind
            else c <= q || IsOnHost(root, host, q) || (p !in host && HostOf(root, q) == Some(p) && KindOf(root, q) == Some(kind))
  {
    hide Stat;
    assert Stat(root', q) == if q == c then Some(Info(kind, true, Some(p))) else if c <= q then None else Stat(root, q);
  }

  lemma RemovingAtPlace(root: Node, host: map<HostPath, Kind>, root': Node, c: Components, p: HostPath, q: Components)
    requires Replaces(root, root', c, None) && IsEmptyDirectory(root, c) && HostOf(root, c) == Some(p)
    ensures IsOnHost(root', host - {p}, q) <==> q == c || (IsOnHost(root, host, q) && HostOf(root, q) != Some(p))
  {
    hide Stat;
    assert Stat(root', q) == if q == c then None else if c <= q then None else Stat(root, q);
    assert c <= q && q != c ==> Stat(root, q) == None;
  }

  lemma MovingAtPlace(v: Volume, from: Components, to: Components, q: Components)
    requires MoveOutcome(v, from, to).Ok?
    ensures IsOnHost(WithMoved(v, from, to).root, WithMoved(v, from, to).host, q) <==> StaysWithMove(v, from, to, q)
  {
    hide Stat, AreWriteable, MovedHost, HostCanRename, MovedKind, HostKind, MovedRegions, Renamed, HostPath.Append;
    var w, old_, new_ := WithMoved(v, from, to), HostOf(v.root, from).value, NewPath(v.root, to);
    MoveMoves(v, from, to);
    assert Stat(w.root, q) == MovedStat(v.root, from, to, new_, q);
    var r := Before(from, to, q);
    if to <= q {
      assert r[|from|..] == q[|to|..];
    }
    if to <= q && AreWriteable(v.root, from, q[|to|..]) {
      HostMoved(v.host, old_, new_, new_.Append(q[|to|..]));
      MovedFrom(v.host, old_, new_, q[|to|..]);
    } else if HostOf(v.root, r).Some? {
      HostMoved(v.host, old_, new_, HostOf(v.root, r).value);
    }
  }

  /** For every call, exactly which places show something that is on the host afterwards. */
  lemma StepAtPlace(v: Volume, op: Op, q: Components)
    requires Succeeds(v, op)
    ensures IsOnHost(Next(v, op).root, Next(v, op).host, q) <==> StaysOnHost(v, op, q)
  {
    hide Stat, HostOf, HostCanRename, Put, Kept, HostWith, TreeFits, MovedRegions, MovedHost, Renamed, IsOnHost, StaysWithMove;
    match op
    case MakeDir(c) =>
      MakeDirAdds(v, c);
      AddingAtPlace(v.root, v.host, WithDir(v, c).root, c, DirectoryKind, NewPath(v.root, c), q);
      KindsAreTwo(v.host, NewPath(v.root, c));
      if c <= q {
        NothingIsOnHost(v, q);
      }
    case MakeFile(c) =>
      if !IsWriteableFile(v.root, c) {
        MakeFileAdds(v, c);
        AddingAtPlace(v.root, v.host, WithFile(v, c).root, c, FileKind, NewPath(v.root, c), q);
        FileOrNothing(v, c);
      }
    case Delete(c) =>
      DeleteTakesOut(v, c);
      RemovingAtPlace(v.root, v.host, Without(v, c).root, c, HostOf(v.root, c).value, q);
    case Move(from, to) => MovingAtPlace(v, from, to, q);
  }

  lemma NothingIsOnHost(v: Volume, q: Components)
    requires Stat(v.root, q) == None
    ensures IsOnHost(v.root, v.host, q)
  {
  }

  lemma FileOrNothing(v: Volume, c: Components)
    requires MakeFileOutcome(v, c).Ok? && !IsWriteableFile(v.root, c)
    ensures NewPath(v.root, c) in v.host ==> v.host[NewPath(v.root, c)] == FileKind
  {
    hide Stat;
    KindsAreTwo(v.host, NewPath(v.root, c));
  }

  // ----- Regions with a host directory of their own -----

  predicate Overlap(a: HostPath, b: HostPath) {
    a.IsPrefixOf(b) || b.IsPrefixOf(a)
  }

  lemma PrefixesOverlap(a: HostPath, b: HostPath, p: HostPath)
    requires a.IsPrefixOf(p) && b.IsPrefixOf(p)
    ensures Overlap(a, b)
  {
    assert a.parts == p.parts[..|a.parts|] && b.parts == p.parts[..|b.parts|];
  }

  /** A region whose host directory overlaps no other region's and has no read-only file of the tree in it. */
  ghost predicate IsSeparate(v: Volume, g: Components) {
    && g in v.regions && HostOf(v.root, g).Some?
    && (forall h :: h in v.regions && h != g && HostOf(v.root, h).Some? ==> !Overlap(HostOf(v.root, g).value, HostOf(v.root, h).value))
    && (forall q {:trigger HostOf(v.root, q)} :: HostOf(v.root, q).Some? && HostOf(v.root, g).value.IsPrefixOf(HostOf(v.root, q).value) ==>
          IsWriteable(v.root, q))
  }

  /** Whatever has a host path in the host directory of such a region is in the region. */
  lemma InSeparateRegion(v: Volume, g: Components, q: Components)
    requires TreeFits(v.root, v.regions) && IsSeparate(v, g)
    requires HostOf(v.root, q).Some? && HostOf(v.root, g).value.IsPrefixOf(HostOf(v.root, q).value)
    ensures RegionOf(v.regions, q) == g <= q && HostOf(v.root, q) == Some(HostOf(v.root, g).value.Append(q[|g|..]))
  {
    hide HostOf, IsWriteable, HostPath.IsPrefixOf, Overlap, TreeFits;
    HostPathsJoin(v.root, v.regions, q);
    var h := RegionOf(v.regions, q);
    var a, p := HostOf(v.root, h).value, HostOf(v.root, q).value;
    AppendIsLonger(a, q[|h|..]);
    PrefixesOverlap(HostOf(v.root, g).value, a, p);
  }

  lemma AppendIsLonger(p: HostPath, names: Components)
    ensures p.IsPrefixOf(p.Append(names)) && p.Behind(p.Append(names)) == names
  {
  }

  /** Two places in a region with the same host path are one. */
  lemma SamePlace(v: Volume, g: Components, q: Components, r: Components)
    requires HostOf(v.root, g).Some? && g <= q && g <= r && HostOf(v.root, q) == HostOf(v.root, r)
    requires HostOf(v.root, q) == Some(HostOf(v.root, g).value.Append(q[|g|..]))
    requires HostOf(v.root, r) == Some(HostOf(v.root, g).value.Append(r[|g|..]))
    ensures q == r
  {
    hide HostOf;
    AppendIsLonger(HostOf(v.root, g).value, q[|g|..]);
    AppendIsLonger(HostOf(v.root, g).value, r[|g|..]);
    assert q == g + q[|g|..] && r == g + r[|g|..];
  }

  /** What is in such a region is shown nowhere else, so that removing it is no misstep. */
  lemma SeparateIsAlone(v: Volume, c: Components)
    requires TreeFits(v.root, v.regions) && IsWriteable(v.root, c) && IsSeparate(v, RegionOf(v.regions, c))
    ensures IsAlone(v.root, c) && !IsMisstep(v, Delete(c))
  {
    hide HostOf, IsWriteable, TreeFits, IsSeparate, HostPath.IsPrefixOf, HostPath.Append;
    var g := RegionOf(v.regions, c);
    HostPathsJoin(v.root, v.regions, c);
    AppendIsLonger(HostOf(v.root, g).value, c[|g|..]);
    forall q | HostOf(v.root, q).Some? && HostOf(v.root, q) == HostOf(v.root, c) ensures q == c {
      InSeparateRegion(v, g, q);
      SamePlace(v, g, q, c);
    }
  }

  /** From its region down to a place, everything can be written to. */
  lemma {:induction false} WriteableDownTo(v: Volume, q: Components, k: nat)
    requires TreeFits(v.root, v.regions) && IsWriteable(v.root, q) && |RegionOf(v.regions, q)| <= k <= |q|
    ensures IsWriteable(v.root, q[..k])
  {
    hide IsWriteable, HostOf;
    if k == |q| {
      assert q[..k] == q;
    } else {
      assert Fits(v.root, v.regions, q);
      assert ParentOf(q)[..k] == q[..k];
      WriteableDownTo(v, ParentOf(q), k);
    }
  }

  /** Host paths in a region are in the order of the places. */
  lemma PlacesInOrder(v: Volume, g: Components, from: Components, r: Components)
    requires HostOf(v.root, g).Some? && g <= from && g <= r
    requires HostOf(v.root, from) == Some(HostOf(v.root, g).value.Append(from[|g|..]))
    requires HostOf(v.root, r) == Some(HostOf(v.root, g).value.Append(r[|g|..]))
    ensures HostOf(v.root, from).value.IsPrefixOf(HostOf(v.root, r).value) <==> from <= r
  {
    hide HostOf;
    var p, x, y := HostOf(v.root, g).value.parts, from[|g|..], r[|g|..];
    assert from == g + x && r == g + y;
    if p + x <= p + y {
      assert (p + x)[|p|..] == x && (p + y)[|p|..|p| + |x|] == y[..|x|] == x;
    }
    if from <= r {
      assert r[..|from|] == from;
      assert y[..|x|] == x && (p + y)[..|p + x|] == p + x;
    }
  }

  /** Moving something out of such a region takes nothing away from other places. */
  lemma SeparateLeavesOthers(v: Volume, from: Components, to: Components)
    requires TreeFits(v.root, v.regions) && IsWriteable(v.root, from) && HostOf(v.root, from).Some?
    requires IsSeparate(v, RegionOf(v.regions, from))
    ensures OthersStay(v.root, from, to, HostOf(v.root, from).value)
  {
    hide HostOf, IsWriteable, TreeFits, HostPath.IsPrefixOf, HostPath.Append, AreWriteable, StaysPut;
    var g, old_ := RegionOf(v.regions, from), HostOf(v.root, from).value;
    HostPathsJoin(v.root, v.regions, from);
    AppendIsLonger(HostOf(v.root, g).value, from[|g|..]);
    forall r | HostOf(v.root, r).Some? && old_.IsPrefixOf(HostOf(v.root, r).value) ensures !StaysPut(v.root, from, to, r) {
      LongerStill(HostOf(v.root, g).value, old_, HostOf(v.root, r).value);
      InSeparateRegion(v, g, r);
      PlacesInOrder(v, g, from, r);
      ReachedFrom(v, from, to, r);
    }
  }

  lemma LongerStill(a: HostPath, b: HostPath, c: HostPath)
    requires a.IsPrefixOf(b) && b.IsPrefixOf(c)
    ensures a.IsPrefixOf(c)
  {
    assert a.parts == b.parts[..|a.parts|] && b.parts == c.parts[..|b.parts|];
  }

  lemma ReachedFrom(v: Volume, from: Components, to: Components, r: Components)
    requires TreeFits(v.root, v.regions) && from <= r && IsWriteable(v.root, r) && RegionOf(v.regions, r) <= from
    ensures AreWriteable(v.root, from, r[|from|..]) && !StaysPut(v.root, from, to, r)
  {
    hide IsWriteable, TreeFits;
    forall k | 0 <= k < |r| - |from| ensures IsWriteable(v.root, from + r[|from|..][..k]) {
      assert from + r[|from|..][..k] == r[..|from| + k];
      WriteableDownTo(v, r, |from| + k);
    }
  }

  /** A directory with nothing from elsewhere in it, in such a region, is moved without a misstep. */
  lemma PlainMoveIsNoMisstep(v: Volume, from: Components, to: Components)
    requires TreeFits(v.root, v.regions) && IsWriteable(v.root, from) && IsPlain(v, from)
    requires forall q :: from <= q ==> IsOnHost(v.root, v.host, q)
    requires IsSeparate(v, RegionOf(v.regions, from))
    ensures !IsMisstep(v, Move(from, to))
  {
    hide TreeFits, IsWriteable, IsPlain, IsSeparate, OthersStay, MovesWhole, HostOf, IsOnHost;
    PlainMovesWhole(v, from);
    SeparateLeavesOthers(v, from, to);
  }

  // ----- Regions that stay in step whatever happens elsewhere -----

  /** A separate region with nothing from elsewhere in it, all of which is on the host. */
  ghost predicate IsSealed(v: Volume, g: Components) {
    && IsSeparate(v, g) && IsPlain(v, g)
    && forall q :: g <= q ==> IsOnHost(v.root, v.host, q)
  }

  predicate AreUnrelated(a: Components, b: Components) {
    !(a <= b) && !(b <= a)
  }

  /** Nothing from elsewhere is in it, and all of it is on the host. */
  ghost predicate ComesWhole(v: Volume, from: Components) {
    IsPlain(v, from) && forall q :: from <= q ==> IsOnHost(v.root, v.host, q)
  }

  /** The call is not on the region itself or what that is in, makes no directory in it where a file is left over on the
      host, and moves nothing into it but what comes whole. */
  ghost predicate Respects(v: Volume, op: Op, g: Components) {
    match op
    case MakeDir(c) => !(c <= g) && (g <= c && Succeeds(v, op) ==> HostKind(v.host, NewPath(v.root, c)) != Some(FileKind))
    case MakeFile(c) => !(c <= g)
    case Delete(c) => !(c <= g)
    case Move(from, to) =>
      && (g < from || AreUnrelated(from, g))
      && (AreUnrelated(to, g) || (g < to && (g < from || ComesWhole(v, from))))
  }

  /** What is in such a region is at its host path with the names from there on. */
  lemma SealedPath(v: Volume, g: Components, q: Components)
    requires TreeFits(v.root, v.regions) && IsSealed(v, g) && g <= q && HostOf(v.root, q).Some?
    ensures HostOf(v.root, q) == Some(HostOf(v.root, g).value.Append(q[|g|..])) && IsWriteable(v.root, q)
    ensures RegionOf(v.regions, q) == g
  {
    hide HostOf, TreeFits, IsWriteable, HostPath.IsPrefixOf, HostPath.Append;
    assert q == g + q[|g|..];
    PlainPath(v, g, q[|g|..]);
    AppendIsLonger(HostOf(v.root, g).value, q[|g|..]);
    InSeparateRegion(v, g, q);
  }

  /** A part of such a region is plain as well. */
  lemma PlainInside(v: Volume, g: Components, from: Components)
    requires IsPlain(v, g) && g <= from
    ensures IsPlain(v, from)
  {
    hide HostOf, IsWriteable;
    forall below | below != [] && HostOf(v.root, from + below).Some?
      ensures IsWriteable(v.root, from + below) && from + below !in v.regions
    {
      assert from + below == g + (from[|g|..] + below);
    }
  }

  // One entry put or taken out.

  lemma ReplacingKeepsSeparate(v: Volume, w: Volume, c: Components, info: Option<Info>, g: Components)
    requires IsSeparate(v, g) && IsPlain(v, g) && Replaces(v.root, w.root, c, info) && w.regions == Kept(v.regions, c)
    requires !(c <= g) && (info.Some? ==> info.value.writeable)
    ensures IsSeparate(w, g) && IsPlain(w, g)
  {
    hide Stat;
    assert Stat(w.root, g) == Stat(v.root, g);
    forall h | h in w.regions ensures Stat(w.root, h) == Stat(v.root, h) {
    }
    forall q | HostOf(w.root, q).Some? && HostOf(w.root, g).value.IsPrefixOf(HostOf(w.root, q).value) ensures IsWriteable(w.root, q) {
      assert Stat(w.root, q) == if q == c then info else if c <= q then None else Stat(v.root, q);
      assert q != c ==> HostOf(v.root, q) == HostOf(w.root, q);
    }
    forall below | below != [] && HostOf(w.root, g + below).Some?
      ensures IsWriteable(w.root, g + below) && g + below !in w.regions
    {
      assert Stat(w.root, g + below) == if g + below == c then info else if c <= g + below then None else Stat(v.root, g + below);
      assert HostOf(v.root, g + below).Some? || g + below == c;
    }
  }

  lemma DeleteKeepsPlaces(v: Volume, c: Components, g: Components, q: Components)
    requires TreeFits(v.root, v.regions) && IsSealed(v, g) && DeleteOutcome(v, c).Ok? && g <= q
    ensures StaysOnHost(v, Delete(c), q)
  {
    hide HostOf, TreeFits, IsWriteable, HostPath.IsPrefixOf, HostPath.Append, HostCanRemove, Stat;
    assert IsOnHost(v.root, v.host, q);
    if HostOf(v.root, q).Some? && HostOf(v.root, q) == HostOf(v.root, c) {
      SealedPath(v, g, q);
      AppendIsLonger(HostOf(v.root, g).value, q[|g|..]);
      InSeparateRegion(v, g, c);
      SamePlace(v, g, q, c);
    }
  }

  // Moves to other places.

  /** The host path that something moved gets is not in the region's host directory, unless it is moved into the region. */
  lemma NewPathIsOutside(v: Volume, to: Components, below: Components, g: Components)
    requires TreeFits(v.root, v.regions) && IsSeparate(v, g) && to != [] && !(g <= to)
    requires IsWriteable(v.root, ParentOf(to)) && HostOf(v.root, ParentOf(to)).Some?
    ensures !HostOf(v.root, g).value.IsPrefixOf(NewPath(v.root, to).Append(below))
  {
    hide HostOf, TreeFits, IsWriteable, HostPath.IsPrefixOf;
    var up, a := ParentOf(to), HostOf(v.root, g).value;
    HostPathsJoin(v.root, v.regions, up);
    var h := RegionOf(v.regions, up);
    var b, p := HostOf(v.root, h).value, NewPath(v.root, to).Append(below);
    assert p == b.Append(up[|h|..] + [NameOf(to)] + below) by {
      assert (b.parts + up[|h|..]) + [NameOf(to)] + below == b.parts + (up[|h|..] + [NameOf(to)] + below);
    }
    AppendIsLonger(b, up[|h|..] + [NameOf(to)] + below);
    assert up <= to && h <= to;
    if a.IsPrefixOf(p) {
      PrefixesOverlap(a, b, p);
    }
  }

  lemma MovingKeepsSeparate(v: Volume, from: Components, to: Components, g: Components)
    requires TreeFits(v.root, v.regions) && IsSeparate(v, g) && IsPlain(v, g) && MoveOutcome(v, from, to).Ok?
    requires (g < from || AreUnrelated(from, g)) && AreUnrelated(to, g)
    ensures IsSeparate(WithMoved(v, from, to), g) && IsPlain(WithMoved(v, from, to), g)
  {
    hide Stat, AreWriteable, HostCanRename, MovedHost, MovedRegions, Renamed, HostPath.IsPrefixOf, HostPath.Append, TreeFits;
    var w, new_ := WithMoved(v, from, to), NewPath(v.root, to);
    MoveMoves(v, from, to);
    HostMeansWriteable(v.root, ParentOf(to));
    assert Stat(w.root, g) == MovedStat(v.root, from, to, new_, g);
    RegionsMoved(v.root, v.regions, from, to, g);
    forall h | h in w.regions && h != g && HostOf(w.root, h).Some? ensures !Overlap(HostOf(w.root, g).value, HostOf(w.root, h).value) {
      RegionsMoved(v.root, v.regions, from, to, h);
      assert Stat(w.root, h) == MovedStat(v.root, from, to, new_, h);
      var r := Before(from, to, h);
      assert r in v.regions && r != g && HostOf(v.root, r) == HostOf(w.root, h);
    }
    forall q | HostOf(w.root, q).Some? && HostOf(w.root, g).value.IsPrefixOf(HostOf(w.root, q).value) ensures IsWriteable(w.root, q) {
      assert Stat(w.root, q) == MovedStat(v.root, from, to, new_, q);
      var r := Before(from, to, q);
      if to <= q && AreWriteable(v.root, from, q[|to|..]) {
        NewPathIsOutside(v, to, q[|to|..], g);
      } else {
        assert HostOf(v.root, r) == HostOf(w.root, q);
      }
    }
    forall below | below != [] && HostOf(w.root, g + below).Some?
      ensures IsWriteable(w.root, g + below) && g + below !in w.regions
    {
      UnrelatedBelow(to, g, below);
      RegionsMoved(v.root, v.regions, from, to, g + below);
      assert Stat(w.root, g + below) == MovedStat(v.root, from, to, new_, g + below);
      assert HostOf(v.root, g + below) == HostOf(w.root, g + below);
    }
  }

  lemma UnrelatedBelow(a: Components, g: Components, below: Components)
    requires AreUnrelated(a, g)
    ensures !(a <= g + below)
  {
    PrefixesCompare(a, g, g + below);
  }

  lemma PrefixesCompare(a: Components, b: Components, s: Components)
    ensures a <= s && b <= s ==> a <= b || b <= a
  {
    if a <= s && b <= s {
      assert a == s[..|a|] && b == s[..|b|];
    }
  }

  lemma MoveElsewhereKeepsPlaces(v: Volume, from: Components, to: Components, g: Components, q: Components)
    requires TreeFits(v.root, v.regions) && IsSealed(v, g) && MoveOutcome(v, from, to).Ok? && g <= q
    requires (g < from || AreUnrelated(from, g)) && AreUnrelated(to, g)
    ensures StaysOnHost(v, Move(from, to), q)
  {
    hide HostOf, TreeFits, IsWriteable, HostPath.IsPrefixOf, HostPath.Append, HostCanRename, Stat, MovedKind, AreWriteable, HostKind;
    assert q == g + q[|g|..];
    UnrelatedBelow(to, g, q[|g|..]);
    if HostOf(v.root, q).Some? && !(from <= q) {
      StaysBeside(v, from, to, g, q);
    }
  }

  /** Nothing else in the region is at a host path in what is moved. */
  lemma StaysBeside(v: Volume, from: Components, to: Components, g: Components, q: Components)
    requires TreeFits(v.root, v.regions) && IsSealed(v, g) && MoveOutcome(v, from, to).Ok? && g <= q
    requires (g < from || AreUnrelated(from, g)) && !(from <= q) && HostOf(v.root, q).Some?
    ensures MovedKind(v.host, HostOf(v.root, from).value, NewPath(v.root, to), HostOf(v.root, q).value) == KindOf(v.root, q)
  {
    hide HostOf, TreeFits, IsWriteable, HostPath.IsPrefixOf, HostPath.Append, HostCanRename, Stat, MovedKind, AreWriteable, HostKind;
    var old_, new_, h := HostOf(v.root, from).value, NewPath(v.root, to), HostOf(v.root, q).value;
    assert IsOnHost(v.root, v.host, q);
    KindIsKnown(v.root, v.host, q);
    JoinIsDeeper(HostOf(v.root, ParentOf(to)).value, NameOf(to));
    StayingOnHost(v.host, old_, new_, h);
    if old_.IsPrefixOf(h) {
      SealedPath(v, g, q);
      if g < from {
        SealedPath(v, g, from);
        PlacesInOrder(v, g, from, q);
      } else {
        AppendIsLonger(HostOf(v.root, g).value, q[|g|..]);
        OutsideIsOutside(v, from, g, h);
      }
    }
  }

  lemma JoinIsDeeper(up: HostPath, name: string)
    ensures up.Join(name).parts != []
  {
  }

  /** Something outside such a region does not have its host path above anything in the region's host directory. */
  lemma OutsideIsOutside(v: Volume, from: Components, g: Components, h: HostPath)
    requires TreeFits(v.root, v.regions) && IsSeparate(v, g) && !(g <= from) && IsWriteable(v.root, from) && HostOf(v.root, from).Some?
    requires HostOf(v.root, g).value.IsPrefixOf(h)
    ensures !HostOf(v.root, from).value.IsPrefixOf(h)
  {
    hide HostOf, TreeFits, IsWriteable, HostPath.IsPrefixOf, HostPath.Append;
    HostPathsJoin(v.root, v.regions, from);
    var f := RegionOf(v.regions, from);
    AppendIsLonger(HostOf(v.root, f).value, from[|f|..]);
    if HostOf(v.root, from).value.IsPrefixOf(h) {
      LongerStill(HostOf(v.root, f).value, HostOf(v.root, from).value, h);
      PrefixesOverlap(HostOf(v.root, f).value, HostOf(v.root, g).value, h);
    }
  }

  // Moves inside, and into the region.

  lemma InsideComesWhole(v: Volume, g: Components, from: Components)
    requires IsSealed(v, g) && g < from
    ensures ComesWhole(v, from)
  {
    hide HostOf, IsOnHost, IsWriteable;
    PlainInside(v, g, from);
  }

  lemma MovingInKeepsSeparate(v: Volume, from: Components, to: Components, g: Components)
    requires TreeFits(v.root, v.regions) && IsSeparate(v, g) && IsPlain(v, g) && MoveOutcome(v, from, to).Ok?
    requires (g < from || AreUnrelated(from, g)) && g < to && IsPlain(v, from)
    ensures IsSeparate(WithMoved(v, from, to), g) && IsPlain(WithMoved(v, from, to), g)
  {
    hide Stat, AreWriteable, HostCanRename, MovedHost, MovedRegions, Renamed, HostPath.IsPrefixOf, HostPath.Append, TreeFits;
    var w, new_ := WithMoved(v, from, to), NewPath(v.root, to);
    MoveMoves(v, from, to);
    assert Stat(w.root, g) == MovedStat(v.root, from, to, new_, g);
    RegionsMoved(v.root, v.regions, from, to, g);
    forall h | h in w.regions && h != g && HostOf(w.root, h).Some? ensures !Overlap(HostOf(w.root, g).value, HostOf(w.root, h).value) {
      RegionsMoved(v.root, v.regions, from, to, h);
      assert Stat(w.root, h) == MovedStat(v.root, from, to, new_, h);
      var r := Before(from, to, h);
      if to <= h {
        PlainHasNoRegion(v, from, h[|to|..]);
      }
      assert r in v.regions && r != g && HostOf(v.root, r) == HostOf(w.root, h);
    }
    forall q | HostOf(w.root, q).Some? && HostOf(w.root, g).value.IsPrefixOf(HostOf(w.root, q).value) ensures IsWriteable(w.root, q) {
      assert Stat(w.root, q) == MovedStat(v.root, from, to, new_, q);
      if to <= q {
        InPlain(v, from, q[|to|..]);
      } else {
        assert HostOf(v.root, q) == HostOf(w.root, q);
      }
    }
    forall below | below != [] && HostOf(w.root, g + below).Some?
      ensures IsWriteable(w.root, g + below) && g + below !in w.regions
    {
      var q := g + below;
      RegionsMoved(v.root, v.regions, from, to, q);
      assert Stat(w.root, q) == MovedStat(v.root, from, to, new_, q);
      if to <= q {
        InPlain(v, from, q[|to|..]);
        if from + q[|to|..] in v.regions {
          PlainHasNoRegion(v, from, q[|to|..]);
        }
      } else {
        assert HostOf(v.root, g + below) == HostOf(w.root, q);
      }
    }
  }

  lemma InPlain(v: Volume, from: Components, below: Components)
    requires IsPlain(v, from) && IsWriteable(v.root, from)
    ensures HostOf(v.root, from + below).Some? ==> IsWriteable(v.root, from + below)
    ensures HostOf(v.root, from + below).Some? && below != [] ==> from + below !in v.regions
  {
    hide HostOf, IsWriteable;
    assert below == [] ==> from + below == from;
  }

  lemma PlainHasNoRegion(v: Volume, from: Components, below: Components)
    requires IsPlain(v, from) && IsWriteable(v.root, from) && HostOf(v.root, from + below).Some? && from + below in v.regions
    ensures AreWriteable(v.root, from, below)
  {
    InPlain(v, from, below);
    assert below == [] && from + [] == from;
  }

  lemma PlainRegion(v: Volume, from: Components, x: Components)
    requires IsPlain(v, from) && from <= x && x in v.regions && HostOf(v.root, x).Some?
    ensures x == from
  {
    hide HostOf, IsWriteable;
    assert x == from + x[|from|..];
  }

  lemma PlainReached(v: Volume, from: Components, to: Components, below: Components)
    requires TreeFits(v.root, v.regions) && IsPlain(v, from) && IsWriteable(v.root, from) && HostOf(v.root, from + below).Some?
    ensures AreWriteable(v.root, from, below)
  {
    hide HostOf, IsWriteable, AreWriteable, TreeFits;
    var r := from + below;
    InPlain(v, from, below);
    HostPathsJoin(v.root, v.regions, r);
    var x := RegionOf(v.regions, r);
    PrefixesCompare(x, from, r);
    if from <= x {
      PlainRegion(v, from, x);
    }
    ReachedFrom(v, from, to, r);
    assert r[|from|..] == below;
  }

  lemma MoveInKeepsPlaces(v: Volume, from: Components, to: Components, g: Components, q: Components)
    requires TreeFits(v.root, v.regions) && IsSealed(v, g) && MoveOutcome(v, from, to).Ok? && g <= q
    requires (g < from || AreUnrelated(from, g)) && g < to && ComesWhole(v, from)
    ensures StaysOnHost(v, Move(from, to), q)
  {
    hide HostOf, TreeFits, IsWriteable, HostPath.IsPrefixOf, HostPath.Append, HostCanRename, Stat, MovedKind, AreWriteable, HostKind, IsSealed;
    if to <= q {
      var r := Before(from, to, q);
      if HostOf(v.root, r).Some? {
        var below := q[|to|..];
        assert r[|from|..] == below;
        PlainReached(v, from, to, below);
        PlainMovesWhole(v, from);
      }
    } else if HostOf(v.root, q).Some? && !(from <= q) {
      StaysBeside(v, from, to, g, q);
    }
  }

  lemma SealedIsOnHost(v: Volume, g: Components, q: Components)
    requires IsSealed(v, g) && g <= q
    ensures IsOnHost(v.root, v.host, q) && HostOf(v.root, g).Some?
  {
  }

  // Steps and runs.

  /** A sealed region stays sealed with everything that is done elsewhere, missteps included, and with all calls inside,
      into and out of it that respect it. */
  lemma SealedStep(v: Volume, op: Op, g: Components)
    requires TreeFits(v.root, v.regions) && IsSealed(v, g) && Respects(v, op, g)
    ensures IsSealed(Next(v, op), g)
  {
    hide Stat, HostOf, HostCanRename, Put, Kept, HostWith, TreeFits, MovedRegions, MovedHost, Renamed, IsOnHost, IsSeparate, IsPlain,
         StaysOnHost, MakeDirOutcome, MakeFileOutcome, DeleteOutcome, CanRename;
    if Succeeds(v, op) {
      forall q | g <= q ensures IsOnHost(Next(v, op).root, Next(v, op).host, q) {
        StepAtPlace(v, op, q);
        SealedPlace(v, op, g, q);
      }
      SealedStaysSeparate(v, op, g);
    }
  }

  lemma SealedPlace(v: Volume, op: Op, g: Components, q: Components)
    requires TreeFits(v.root, v.regions) && IsSealed(v, g) && Respects(v, op, g) && Succeeds(v, op) && g <= q
    ensures StaysOnHost(v, op, q)
  {
    hide Stat, HostOf, HostCanRename, TreeFits, IsOnHost, IsSeparate, IsPlain, MakeFileOutcome, DeleteOutcome, CanRename, StaysWithMove;
    SealedIsOnHost(v, g, q);
    match op
    case MakeDir(c) =>
    case MakeFile(c) => FileStays(v, c, q);
    case Delete(c) => DeleteKeepsPlaces(v, c, g, q);
    case Move(from, to) =>
      if g < to {
        if g < from {
          InsideComesWhole(v, g, from);
        }
        MoveInKeepsPlaces(v, from, to, g, q);
      } else {
        MoveElsewhereKeepsPlaces(v, from, to, g, q);
      }
  }

  lemma FileStays(v: Volume, c: Components, q: Components)
    requires MakeFileOutcome(v, c).Ok? && IsOnHost(v.root, v.host, q)
    ensures StaysOnHost(v, MakeFile(c), q)
  {
    hide Stat, IsOnHost;
  }

  lemma SealedStaysSeparate(v: Volume, op: Op, g: Components)
    requires TreeFits(v.root, v.regions) && IsSealed(v, g) && Respects(v, op, g) && Succeeds(v, op)
    ensures IsSeparate(Next(v, op), g) && IsPlain(Next(v, op), g)
  {
    hide Stat, HostOf, HostCanRename, Put, Kept, HostWith, TreeFits, MovedRegions, MovedHost, Renamed, IsOnHost, IsSeparate, IsPlain;
    match op
    case MakeDir(c) =>
      MakeDirAdds(v, c);
      ReplacingKeepsSeparate(v, WithDir(v, c), c, Some(Info(DirectoryKind, true, Some(NewPath(v.root, c)))), g);
    case MakeFile(c) =>
      if !IsWriteableFile(v.root, c) {
        MakeFileAdds(v, c);
        ReplacingKeepsSeparate(v, WithFile(v, c), c, Some(Info(FileKind, true, Some(NewPath(v.root, c)))), g);
      }
    case Delete(c) =>
      DeleteTakesOut(v, c);
      ReplacingKeepsSeparate(v, Without(v, c), c, None, g);
    case Move(from, to) =>
      if g < to {
        if g < from {
          PlainInside(v, g, from);
        }
        MovingInKeepsSeparate(v, from, to, g);
      } else {
        MovingKeepsSeparate(v, from, to, g);
      }
  }

  ghost predicate AllRespect(v: Volume, ops: seq<Op>, g: Components) {
    ops != [] ==> AllRespect(v, ops[..|ops| - 1], g) && Respects(After(v, ops[..|ops| - 1]), ops[|ops| - 1], g)
  }

  /** Over any run of such calls, whatever else gets out of step, all that the region shows is on the host. */
  lemma {:induction false} SealedRun(v: Volume, ops: seq<Op>, g: Components)
    requires TreeFits(v.root, v.regions) && IsSealed(v, g) && AllRespect(v, ops, g)
    ensures TreeFits(After(v, ops).root, After(v, ops).regions) && IsSealed(After(v, ops), g)
  {
    hide TreeFits, IsSealed, Respects, Next;
    if ops == [] {
    } else {
      SealedRun(v, ops[..|ops| - 1], g);
      SealedStep(After(v, ops[..|ops| - 1]), ops[|ops| - 1], g);
      StepKeepsTree(After(v, ops[..|ops| - 1]), ops[|ops| - 1]);
    }
  }

  function PlaceOf(op: Op): Components {
    match op
    case MakeDir(c) => c
    case MakeFile(c) => c
    case Delete(c) => c
    case Move(from, _) => from
  }

  /** Nothing that a call inside such a region touches is stale. */
  lemma SealedPanics(v: Volume, op: Op, g: Components)
    requires TreeFits(v.root, v.regions) && IsSealed(v, g) && g < PlaceOf(op)
    ensures Panics(v, op) <==> IsRefused(v, op)
  {
    hide TreeFits, IsSealed, Panics, IsRefused, IsOnHost;
    PanicsExactly(v, op);
    var c := PlaceOf(op);
    SealedIsOnHost(v, g, c);
    SealedIsOnHost(v, g, ParentOf(c));
  }
}
