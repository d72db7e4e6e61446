/** Finding files whatever the case of their names, and listing whole directories. */
module VfsLookup {
  import opened Common
  import opened VfsTree
  import Paths

  // ----- Names -----

  /** The names in a tree are such as a path can have. */
  ghost predicate NamesAreNormal(root: Node) {
    forall q :: Lookup(root, q).Some? ==> Paths.IsNormal(q)
  }

  /** No path in the tree has the sandbox prefix in it twice. */
  ghost predicate NoNestedMarker(root: Node) {
    forall q :: Lookup(root, q).Some? ==> Paths.Deduplicated(q) == q
  }

  /** No two entries of a directory differ by case only. */
  ghost predicate NoClashes(root: Node, lower: string -> string) {
    forall q, name, other {:trigger Lookup(root, q + [name]), Lookup(root, q + [other])} ::
      Lookup(root, q + [name]).Some? && Lookup(root, q + [other]).Some? && lower(name) == lower(other) ==> name == other
  }

  ghost predicate MatchesUpToCase(lower: string -> string, q: Components, components: Components) {
    |q| == |components| && forall i :: 0 <= i < |q| ==> lower(q[i]) == lower(components[i])
  }

  /** What is found of the first components is the only thing that could be. */
  ghost predicate IsOnlyMatch(root: Node, lower: string -> string, found: Components, components: Components) {
    forall q :: Lookup(root, q).Some? && MatchesUpToCase(lower, q, components) ==> q == found
  }

  lemma PrefixExists(root: Node, q: Components, n: nat)
    requires Lookup(root, q).Some? && n <= |q|
    ensures Lookup(root, q[..n]).Some? && (n < |q| ==> Lookup(root, q[..n]).value.Directory?)
    ensures n < |q| ==> q[n] in Lookup(root, q[..n]).value.children
  {
    assert q == q[..n] + q[n..];
    LookupSplits(root, q[..n], q[n..]);
  }

  lemma ChildExists(root: Node, q: Components, name: string)
    requires Lookup(root, q).Some?
    ensures Lookup(root, q + [name]).Some? <==>
            Lookup(root, q).value.Directory? && name in Lookup(root, q).value.children
  {
    LookupSplits(root, q, [name]);
  }

  lemma NextMatch(root: Node, lower: string -> string, found: Components, components: Components, i: nat, name: string)
    requires i < |components| && MatchesUpToCase(lower, found, components[..i]) && Lookup(root, found + [name]).Some?
    requires lower(name) == lower(components[i])
    ensures MatchesUpToCase(lower, found + [name], components[..i + 1])
    ensures NoClashes(root, lower) && IsOnlyMatch(root, lower, found, components[..i]) ==>
              IsOnlyMatch(root, lower, found + [name], components[..i + 1])
  {
    hide Lookup;
    if NoClashes(root, lower) && IsOnlyMatch(root, lower, found, components[..i]) {
      forall q | Lookup(root, q).Some? && MatchesUpToCase(lower, q, components[..i + 1]) ensures q == found + [name] {
        PrefixExists(root, q, i);
        assert MatchesUpToCase(lower, q[..i], components[..i]);
        assert q == q[..i] + [q[i]] == found + [q[i]];
      }
    }
  }

  lemma MatchGoesOn(root: Node, lower: string -> string, found: Components, components: Components, i: nat, q: Components)
    requires i < |components| && IsOnlyMatch(root, lower, found, components[..i])
    requires Lookup(root, q).Some? && MatchesUpToCase(lower, q, components)
    ensures Lookup(root, found + [q[i]]).Some? && lower(q[i]) == lower(components[i])
  {
    hide Lookup;
    PrefixExists(root, q, i);
    PrefixExists(root, q, i + 1);
    assert MatchesUpToCase(lower, q[..i], components[..i]);
    assert q[..i + 1] == found + [q[i]];
  }

  lemma NoMatch(root: Node, lower: string -> string, found: Components, components: Components, i: nat)
    requires i < |components| && IsOnlyMatch(root, lower, found, components[..i])
    requires forall name :: Lookup(root, found + [name]).Some? ==> lower(name) != lower(components[i])
    ensures forall q :: Lookup(root, q).Some? ==> !MatchesUpToCase(lower, q, components)
  {
    hide Lookup, IsOnlyMatch;
    forall q | Lookup(root, q).Some? ensures !MatchesUpToCase(lower, q, components) {
      if MatchesUpToCase(lower, q, components) {
        MatchGoesOn(root, lower, found, components, i, q);
      }
    }
  }

  lemma EntriesOf(root: Node, q: Components)
    requires Lookup(root, q).Some?
    ensures forall name :: Lookup(root, q + [name]).Some? <==>
              Lookup(root, q).value.Directory? && name in Lookup(root, q).value.children
  {
    hide Lookup;
    forall name {
      ChildExists(root, q, name);
    }
  }

  /** An entry of a directory, whichever comes first, with a name up to case. */
  method FindEntry(node: Node, lower: string -> string, wanted: string) returns (name: Option<string>)
    ensures name.Some? ==> node.Directory? && name.value in node.children && lower(name.value) == lower(wanted)
    ensures name == None ==> forall n :: node.Directory? && n in node.children ==> lower(n) != lower(wanted)
  {
    if node.Directory? {
      var rest := node.children.Keys;
      while rest != {}
        invariant rest <= node.children.Keys
        invariant forall n :: n in node.children && n !in rest ==> lower(n) != lower(wanted)
      {
        var n := NextOf(rest);
        if lower(n) == lower(wanted) {
          return Some(n);
        }
        rest := rest - {n};
      }
    }
    name := None;
  }

  lemma RootPath()
    ensures Paths.AsPath([]) == "/"
  {
  }

  /** Nothing that matches the path, or its beginning, up to case has the sandbox prefix in it twice. */
  ghost predicate NoMarkerOnTheWay(root: Node, lower: string -> string, components: Components) {
    forall q :: IsOnTheWay(root, lower, components, q) ==> Paths.Deduplicated(q) == q
  }

  ghost predicate IsOnTheWay(root: Node, lower: string -> string, components: Components, q: Components) {
    |q| <= |components| && Lookup(root, q).Some? && MatchesUpToCase(lower, q, components[..|q|])
  }

  lemma NoMarkerAnywhere(root: Node, lower: string -> string, components: Components)
    requires NoNestedMarker(root)
    ensures NoMarkerOnTheWay(root, lower, components)
  {
    hide Paths.Deduplicated, MatchesUpToCase;
  }

  /** The path of an entry whose names are those of the path up to case, as the tree spells them; it resolves to that
      entry, and without clashes it is found exactly when there is one. This holds where the way there has no nested
      sandbox prefix: looking at a path that has one looks elsewhere. `lower` is how names are compared. */
  method ResolveCaseInsensitivePath(root: Node, lower: string -> string, path: string, workingDirectory: string)
    returns (resolved: Option<string>)
    requires Paths.IsAbsolute(path) || Paths.IsAbsolute(workingDirectory)
    requires NamesAreNormal(root)
    ensures NoMarkerOnTheWay(root, lower, Paths.Resolved(path, workingDirectory)) && resolved.Some? ==>
              var q := Paths.Resolved(resolved.value, workingDirectory);
              && Paths.IsAbsolute(resolved.value) && resolved.value == Paths.AsPath(q)
              && Lookup(root, q).Some? && MatchesUpToCase(lower, q, Paths.Resolved(path, workingDirectory))
    ensures NoMarkerOnTheWay(root, lower, Paths.Resolved(path, workingDirectory)) && NoClashes(root, lower) ==>
              (resolved.Some? <==> exists q :: Lookup(root, q).Some? && MatchesUpToCase(lower, q, Paths.Resolved(path, workingDirectory)))
  {
    hide Lookup, Paths.Deduplicated, Paths.IsNormal, Paths.Resolved, Paths.Joined, Paths.AsPath, Paths.IsAbsolute,
         MatchesUpToCase, IsOnlyMatch, NoClashes;
    RootPath();
    var components := Paths.ResolvePath(path, workingDirectory);
    var resolvedPath := "/";
    ghost var found: Components := [];
    RootIsFound(root, lower);
    ghost var isFree := NoMarkerOnTheWay(root, lower, components);
    hide NoMarkerOnTheWay;
    var i := 0;
    while i < |components|
      invariant 0 <= i <= |components|
      invariant isFree ==> IsFound(root, lower, components[..i], found, resolvedPath)
    {
      var directory := Lookup(root, Paths.Resolved(resolvedPath, workingDirectory));
      if isFree {
        Paths.ComponentsResolve(found, workingDirectory);
        FreeIsFixed(root, lower, components, i, found);
        EntriesOf(root, found);
      }
      if directory == None {
        return None;
      }
      var entry := FindEntry(directory.value, lower, components[i]);
      if entry == None {
        if isFree && NoClashes(root, lower) {
          NoMatch(root, lower, found, components, i);
        }
        return None;
      }
      var name := entry.value;
      if isFree {
        NextMatch(root, lower, found, components, i, name);
        PathGrows(found, name);
      }
      if resolvedPath != "/" {
        resolvedPath := resolvedPath + "/";
      }
      resolvedPath := resolvedPath + name;
      found := found + [name];
      i := i + 1;
    }
    assert components[..i] == components;
    if isFree {
      Paths.ComponentsResolve(found, workingDirectory);
      FreeIsFixed(root, lower, components, i, found);
      PathIsAbsolute(found);
    }
    resolved := Some(resolvedPath);
  }

  ghost predicate IsFound(root: Node, lower: string -> string, components: Components, found: Components, path: string) {
    && path == Paths.AsPath(found) && Lookup(root, found).Some? && MatchesUpToCase(lower, found, components)
    && (NoClashes(root, lower) ==> IsOnlyMatch(root, lower, found, components))
  }

  lemma FreeIsFixed(root: Node, lower: string -> string, components: Components, i: nat, found: Components)
    requires NoMarkerOnTheWay(root, lower, components) && i <= |components|
    requires Lookup(root, found).Some? && MatchesUpToCase(lower, found, components[..i])
    ensures Paths.Deduplicated(found) == found
  {
    hide Paths.Deduplicated, Lookup;
    assert IsOnTheWay(root, lower, components, found);
  }

  lemma RootIsFound(root: Node, lower: string -> string)
    ensures Lookup(root, []).Some? && MatchesUpToCase(lower, [], []) && IsOnlyMatch(root, lower, [], [])
  {
  }

  lemma PathIsAbsolute(q: Components)
    ensures Paths.IsAbsolute(Paths.AsPath(q))
  {
  }

  lemma FirstIsPlain(q: Components)
    requires Paths.IsNormal(q) && q != []
    ensures q[0] != ""
  {
  }

  lemma PathGrows(q: Components, name: string)
    requires Paths.IsNormal(q)
    ensures Paths.AsPath(q) == "/" <==> q == []
    ensures Paths.AsPath(q + [name]) == Paths.AsPath(q) + (if q == [] then "" else "/") + name
  {
    hide Paths.Joined, Paths.IsNormal;
    Paths.JoinedGrows(q, name);
    Paths.NothingJoined();
    if q != [] {
      Paths.JoinedSplits(q);
      assert q[0] != "" by { FirstIsPlain(q); }
    }
  }

  // ----- Listing -----

  /** A path relative to the listed directory, as it is reported. */
  function RelativePath(q: Components): string
    requires q != []
  {
    q[0] + Paths.Joined(q[1..])
  }

  lemma {:induction false} JoinedBehind(directory: Components, q: Components)
    requires q != []
    ensures Paths.Joined(directory + q) == Paths.Joined(directory) + "/" + RelativePath(q)
    decreases |directory|
  {
    if directory == [] {
      assert directory + q == q && [] + ("/" + RelativePath(q)) == "/" + RelativePath(q);
      Paths.JoinedSplits(q);
    } else {
      assert (directory + q)[1..] == directory[1..] + q;
      JoinedBehind(directory[1..], q);
    }
  }

  /** Behind the directory's own path, what is reported is the path of the entry. */
  lemma RelativeLeadsThere(directory: Components, q: Components)
    requires q != []
    ensures Paths.AsPath(directory + q) == (if directory == [] then "" else Paths.AsPath(directory)) + "/" + RelativePath(q)
  {
    JoinedBehind(directory, q);
  }

  /** Different entries are reported under different names. */
  lemma RelativePathsDiffer(p: Components, q: Components)
    requires Paths.IsNormal(p) && Paths.IsNormal(q) && p != [] && q != [] && RelativePath(p) == RelativePath(q)
    ensures p == q
  {
    Paths.SplitBehindSlash(p);
    Paths.SplitBehindSlash(q);
  }

  /** An iterator over a directory: its entries, and the names that are still to come, in any order. */
  datatype Iterator = Iterator(children: map<string, Node>, rest: set<string>)

  ghost predicate Fits(root: Node, components: Components, iterators: seq<Iterator>) {
    && |iterators| == |components| + 1
    && forall k :: 0 <= k < |iterators| ==>
         && Lookup(root, components[..k]).Some? && Lookup(root, components[..k]).value.Directory?
         && iterators[k].children == Lookup(root, components[..k]).value.children
         && iterators[k].rest <= iterators[k].children.Keys
         && (k < |components| ==> components[k] !in iterators[k].rest)
  }

  /** The path is still to be listed, below what iterator number `k` has yet to give. */
  predicate PendingAt(components: Components, iterators: seq<Iterator>, q: Components, k: int) {
    0 <= k < |iterators| && k <= |components| && k < |q| && q[..k] == components[..k] && q[k] in iterators[k].rest
  }

  ghost predicate Pending(components: Components, iterators: seq<Iterator>, q: Components) {
    exists k :: PendingAt(components, iterators, q, k)
  }

  ghost predicate Exists(root: Node, q: Components) {
    q != [] && Lookup(root, q).Some?
  }

  ghost predicate Distinct(listed: seq<Components>) {
    forall i, j :: 0 <= i < j < |listed| ==> listed[i] != listed[j]
  }

  /** Everything has either been listed, once, or is pending. */
  ghost predicate Listing(root: Node, listed: seq<Components>, components: Components, iterators: seq<Iterator>) {
    && Fits(root, components, iterators) && Distinct(listed)
    && (forall q :: q in listed ==> Exists(root, q))
    && (forall q :: Exists(root, q) ==> (q in listed <==> !Pending(components, iterators, q)))
  }

  lemma ListingStarts(root: Node)
    requires root.Directory?
    ensures Listing(root, [], [], [Iterator(root.children, root.children.Keys)])
  {
    var iterators := [Iterator(root.children, root.children.Keys)];
    assert Lookup(root, [][..0]) == Some(root);
    forall q | Exists(root, q) ensures Pending([], iterators, q) {
      PrefixExists(root, q, 0);
      assert PendingAt([], iterators, q, 0);
    }
  }

  /** The next entry that the innermost iterator gives. */
  ghost predicate IsNext(root: Node, components: Components, iterators: seq<Iterator>, name: string) {
    Fits(root, components, iterators) && name in iterators[|components|].rest
  }

  function Advanced(iterators: seq<Iterator>, name: string): seq<Iterator>
    requires iterators != []
  {
    var last := |iterators| - 1;
    iterators[last := iterators[last].(rest := iterators[last].rest - {name})]
  }

  lemma NextEntry(root: Node, components: Components, iterators: seq<Iterator>, name: string)
    requires IsNext(root, components, iterators, name)
    ensures name in iterators[|components|].children
    ensures Lookup(root, components + [name]) == Some(iterators[|components|].children[name])
    ensures Pending(components, iterators, components + [name])
  {
    var n := |components|;
    assert components[..n] == components;
    LookupSplits(root, components, [name]);
    assert PendingAt(components, iterators, components + [name], n);
  }

  /** Listing an entry takes exactly it from what is pending, when what is below it becomes pending at the new level. */
  lemma DirectoryEntered(root: Node, components: Components, iterators: seq<Iterator>, name: string, children: map<string, Node>,
                         q: Components)
    requires IsNext(root, components, iterators, name) && Exists(root, q)
    requires Lookup(root, components + [name]).Some? && Lookup(root, components + [name]).value.Directory?
    requires Lookup(root, components + [name]).value.children == children
    ensures Pending(components + [name], Advanced(iterators, name) + [Iterator(children, children.Keys)], q) <==>
            Pending(components, iterators, q) && q != components + [name]
  {
    hide Lookup;
    var n, q0 := |components|, components + [name];
    var iterators' := Advanced(iterators, name) + [Iterator(children, children.Keys)];
    if Pending(q0, iterators', q) {
      var k :| PendingAt(q0, iterators', q, k);
      assert q0[..n] == components;
      if k <= n {
        assert q0[..k] == components[..k];
        assert PendingAt(components, iterators, q, k);
      } else {
        assert q[..n] == q[..n + 1][..n] == components && q[n] == q[..n + 1][n] == name;
        assert PendingAt(components, iterators, q, n);
      }
    }
    if Pending(components, iterators, q) && q != q0 {
      var k :| PendingAt(components, iterators, q, k);
      assert q0[..k] == components[..k];
      if k < n || q[n] != name {
        assert PendingAt(q0, iterators', q, k);
      } else {
        assert q[..n + 1] == q0;
        PrefixExists(root, q, n + 1);
        assert PendingAt(q0, iterators', q, n + 1);
      }
    }
  }

  lemma FilePassed(root: Node, components: Components, iterators: seq<Iterator>, name: string, q: Components)
    requires IsNext(root, components, iterators, name) && Exists(root, q)
    requires Lookup(root, components + [name]).Some? && Lookup(root, components + [name]).value.File?
    ensures Pending(components, Advanced(iterators, name), q) <==>
            Pending(components, iterators, q) && q != components + [name]
  {
    hide Lookup;
    var n, q0 := |components|, components + [name];
    var iterators' := Advanced(iterators, name);
    if Pending(components, iterators', q) {
      var k :| PendingAt(components, iterators', q, k);
      assert PendingAt(components, iterators, q, k);
    }
    if Pending(components, iterators, q) && q != q0 {
      var k :| PendingAt(components, iterators, q, k);
      if k == n && q[n] == name {
        NothingBelowFile(root, components, name, q);
      }
      assert PendingAt(components, iterators', q, k);
    }
  }

  lemma NothingBelowFile(root: Node, components: Components, name: string, q: Components)
    requires Lookup(root, q).Some? && |q| > |components| && q[..|components|] == components && q[|components|] == name
    requires Lookup(root, components + [name]).Some? && Lookup(root, components + [name]).value.File?
    ensures q == components + [name]
  {
    hide Lookup;
    var n := |components|;
    assert q[..n + 1] == components + [name];
    PrefixExists(root, q, n + 1);
  }

  lemma LevelLeft(root: Node, components: Components, iterators: seq<Iterator>, q: Components)
    requires Fits(root, components, iterators) && components != [] && iterators[|components|].rest == {}
    ensures Pending(components[..|components| - 1], iterators[..|components|], q) <==> Pending(components, iterators, q)
  {
    hide Lookup;
    var n := |components|;
    var up := components[..n - 1];
    if Pending(up, iterators[..n], q) {
      var k :| PendingAt(up, iterators[..n], q, k);
      assert up[..k] == components[..k];
      assert PendingAt(components, iterators, q, k);
    }
    if Pending(components, iterators, q) {
      var k :| PendingAt(components, iterators, q, k);
      assert k < n && up[..k] == components[..k];
      assert PendingAt(up, iterators[..n], q, k);
    }
  }

  lemma OneMoreListed(root: Node, listed: seq<Components>, components: Components, iterators: seq<Iterator>, q0: Components,
                      components': Components, iterators': seq<Iterator>)
    requires Listing(root, listed, components, iterators) && Exists(root, q0) && Pending(components, iterators, q0)
    requires Fits(root, components', iterators')
    requires forall q :: Exists(root, q) ==>
               (Pending(components', iterators', q) <==> Pending(components, iterators, q) && q != q0)
    ensures Listing(root, listed + [q0], components', iterators') && q0 !in listed
  {
    hide Exists, Pending, Fits;
  }

  lemma EntersDirectory(root: Node, listed: seq<Components>, components: Components, iterators: seq<Iterator>, name: string)
    requires Listing(root, listed, components, iterators) && IsNext(root, components, iterators, name)
    requires iterators[|components|].children[name].Directory?
    ensures var children := iterators[|components|].children[name].children;
            Listing(root, listed + [components + [name]], components + [name],
                    Advanced(iterators, name) + [Iterator(children, children.Keys)])
    ensures components + [name] !in listed && Exists(root, components + [name])
  {
    var children := iterators[|components|].children[name].children;
    var q0, iterators' := components + [name], Advanced(iterators, name) + [Iterator(children, children.Keys)];
    NextEntry(root, components, iterators, name);
    forall q | Exists(root, q)
      ensures Pending(q0, iterators', q) <==> Pending(components, iterators, q) && q != q0
    {
      DirectoryEntered(root, components, iterators, name, children, q);
    }
    assert Fits(root, q0, iterators') by {
      forall k | 0 <= k < |iterators'| ensures q0[..k] == if k <= |components| then components[..k] else q0 {
      }
    }
    OneMoreListed(root, listed, components, iterators, q0, q0, iterators');
  }

  lemma PassesFile(root: Node, listed: seq<Components>, components: Components, iterators: seq<Iterator>, name: string)
    requires Listing(root, listed, components, iterators) && IsNext(root, components, iterators, name)
    requires iterators[|components|].children[name].File?
    ensures Listing(root, listed + [components + [name]], components, Advanced(iterators, name))
    ensures components + [name] !in listed && Exists(root, components + [name])
  {
    var q0 := components + [name];
    NextEntry(root, components, iterators, name);
    forall q | Exists(root, q)
      ensures Pending(components, Advanced(iterators, name), q) <==> Pending(components, iterators, q) && q != q0
    {
      FilePassed(root, components, iterators, name, q);
    }
    OneMoreListed(root, listed, components, iterators, q0, components, Advanced(iterators, name));
  }

  lemma LeavesDirectory(root: Node, listed: seq<Components>, components: Components, iterators: seq<Iterator>)
    requires Listing(root, listed, components, iterators) && components != [] && iterators[|components|].rest == {}
    ensures Listing(root, listed, components[..|components| - 1], iterators[..|components|])
  {
    var up := components[..|components| - 1];
    forall q ensures Pending(up, iterators[..|components|], q) <==> Pending(components, iterators, q) {
      LevelLeft(root, components, iterators, q);
    }
    assert forall k :: 0 <= k < |components| ==> up[..k] == components[..k];
  }

  lemma NothingPending(root: Node, listed: seq<Components>, iterators: seq<Iterator>)
    requires Listing(root, listed, [], iterators) && iterators[0].rest == {}
    ensures forall q :: q in listed <==> Exists(root, q)
  {
    forall q ensures !Pending([], iterators, q) {
    }
  }

  /** All paths of a tree. */
  function AllPaths(node: Node): (paths: set<Components>)
    decreases node
  {
    {[]} + if node.Directory? then
             set name, q | name in node.children && q in AllPaths(node.children[name]) :: [name] + q
           else {}
  }

  lemma {:induction false} AllPathsAreThere(node: Node, q: Components)
    requires Lookup(node, q).Some?
    ensures q in AllPaths(node)
    decreases |q|
  {
    if q != [] {
      AllPathsAreThere(node.children[q[0]], q[1..]);
      assert q == [q[0]] + q[1..];
    }
  }

  ghost function Unlisted(root: Node, listed: seq<Components>): set<Components> {
    set q | q in AllPaths(root) && q !in listed
  }

  lemma FewerUnlisted(root: Node, listed: seq<Components>, q: Components)
    requires Exists(root, q) && q !in listed
    ensures Unlisted(root, listed + [q]) < Unlisted(root, listed)
  {
    AllPathsAreThere(root, q);
    assert q in Unlisted(root, listed) && q !in Unlisted(root, listed + [q]);
  }

  lemma PathsAreListed(root: Node, paths: seq<string>, listed: seq<Components>)
    requires |paths| == |listed| && Distinct(listed) && forall q :: q in listed <==> Exists(root, q)
    requires forall i :: 0 <= i < |paths| ==> listed[i] != [] && paths[i] == RelativePath(listed[i])
    ensures forall path :: path in paths <==> exists q :: Exists(root, q) && path == RelativePath(q)
    ensures NamesAreNormal(root) ==> forall i, j :: 0 <= i < j < |paths| ==> paths[i] != paths[j]
  {
    hide RelativePath, Lookup;
    forall path ensures path in paths <==> exists q :: Exists(root, q) && path == RelativePath(q) {
      if path in paths {
        var i :| 0 <= i < |paths| && paths[i] == path;
        assert listed[i] in listed;
      }
      if q :| Exists(root, q) && path == RelativePath(q) {
        assert q in listed;
        var i :| 0 <= i < |listed| && listed[i] == q;
        assert paths[i] == path;
      }
    }
    if NamesAreNormal(root) {
      forall i, j | 0 <= i < j < |paths| ensures paths[i] != paths[j] {
        assert listed[i] in listed && listed[j] in listed;
        if paths[i] == paths[j] {
          RelativePathsDiffer(listed[i], listed[j]);
        }
      }
    }
  }

  /** Lists every entry below a directory exactly once, whatever order the directories are gone through in. There is
      always one iterator more than there are components. */
  method EnumerateRecursive(root: Node) returns (paths: seq<string>, ghost listed: seq<Components>)
    requires root.Directory?
    ensures forall path :: path in paths <==> exists q :: Exists(root, q) && path == RelativePath(q)
    ensures NamesAreNormal(root) ==> forall i, j :: 0 <= i < j < |paths| ==> paths[i] != paths[j]
    ensures |paths| == |listed| && Distinct(listed) && forall q :: q in listed <==> Exists(root, q)
    ensures forall i :: 0 <= i < |paths| ==> listed[i] != [] && paths[i] == RelativePath(listed[i])
  {
    hide Lookup, Pending, Distinct, Exists, AllPaths, RelativePath, Unlisted;
    paths, listed := [], [];
    var components: Components := [];
    var iterators := [Iterator(root.children, root.children.Keys)];
    ListingStarts(root);
    while true
      invariant Listing(root, listed, components, iterators) && |iterators| == |components| + 1
      invariant |paths| == |listed| && forall i :: 0 <= i < |paths| ==> listed[i] != [] && paths[i] == RelativePath(listed[i])
      decreases Unlisted(root, listed), |iterators|
    {
      var current := iterators[|iterators| - 1];
      if current.rest != {} {
        var name := NextOf(current.rest);
        NextEntry(root, components, iterators, name);
        var node := current.children[name];
        ghost var q := components + [name];
        if node.Directory? {
          EntersDirectory(root, listed, components, iterators, name);
        } else {
          PassesFile(root, listed, components, iterators, name);
        }
        FewerUnlisted(root, listed, q);
        iterators := Advanced(iterators, name);
        components := components + [name];
        paths, listed := paths + [RelativePath(components)], listed + [q];
        if node.Directory? {
          iterators := iterators + [Iterator(node.children, node.children.Keys)];
        } else {
          components := components[..|components| - 1];
        }
      } else {
        if components == [] {
          NothingPending(root, listed, iterators);
        } else {
          LeavesDirectory(root, listed, components, iterators);
        }
        iterators := iterators[..|iterators| - 1];
        if components == [] {
          break;
        }
        components := components[..|components| - 1];
      }
    }
    assert components == [] && iterators == [];
    PathsAreListed(root, paths, listed);
  }
}
