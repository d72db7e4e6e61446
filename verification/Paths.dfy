/** Guest paths: absolute, without empty, `.` and `..` components, and with a doubled sandbox prefix taken off. */
module Paths {
  import opened Common

  type Components = seq<string>

  // ----- Splitting at slashes -----

  /** The part before the first slash. */
  function UpToSlash(s: string): (t: string)
    ensures t <= s && '/' !in t
    ensures |t| < |s| ==> s[|t|] == '/'
  {
    if s == [] || s[0] == '/' then [] else [s[0]] + UpToSlash(s[1..])
  }

  function Split(s: string): (parts: Components)
    ensures parts != [] && forall i :: 0 <= i < |parts| ==> '/' !in parts[i]
    decreases |s|
  {
    var first := UpToSlash(s);
    if |first| == |s| then [first] else [first] + Split(s[|first| + 1..])
  }

  /** Components written as an absolute path. */
  function AsPath(components: Components): string {
    if components == [] then "/" else Joined(components)
  }

  function Joined(components: Components): string {
    if components == [] then "" else "/" + components[0] + Joined(components[1..])
  }

  lemma SplitFirst(first: string, rest: string)
    requires '/' !in first && (rest == [] || rest[0] == '/')
    ensures UpToSlash(first + rest) == first
    ensures Split(first + rest) == if rest == [] then [first] else [first] + Split(rest[1..])
  {
    UpToSlashOf(first, rest);
    assert rest != [] ==> (first + rest)[|first| + 1..] == rest[1..];
  }

  lemma {:induction false} UpToSlashOf(first: string, rest: string)
    requires '/' !in first && (rest == [] || rest[0] == '/')
    ensures UpToSlash(first + rest) == first
  {
    if first == [] {
      assert first + rest == rest;
    } else {
      assert (first + rest)[1..] == first[1..] + rest;
      assert first[0] in first;
      UpToSlashOf(first[1..], rest);
    }
  }

  lemma SplitAtSlash(first: string, rest: string)
    requires '/' !in first
    ensures Split(first + ("/" + rest)) == [first] + Split(rest)
  {
    hide Split;
    SplitFirst(first, "/" + rest);
    assert ("/" + rest)[1..] == rest;
  }

  lemma JoinedSplits(components: Components)
    requires components != []
    ensures Joined(components) == "/" + (components[0] + Joined(components[1..]))
  {
  }

  lemma {:induction false} SplitBehindSlash(components: Components)
    requires components != [] && forall i :: 0 <= i < |components| ==> '/' !in components[i]
    ensures Split(components[0] + Joined(components[1..])) == components
  {
    hide Split, UpToSlash, Joined;
    var first, rest := components[0], components[1..];
    assert components == [first] + rest;
    if rest == [] {
      NothingJoined();
      SplitFirst(first, []);
    } else {
      JoinedSplits(rest);
      SplitAtSlash(first, rest[0] + Joined(rest[1..]));
      SplitBehindSlash(rest);
    }
  }

  lemma NothingJoined()
    ensures Joined([]) == []
  {
  }

  /** Splitting undoes joining. */
  lemma SplitJoined(components: Components)
    requires components != [] && forall i :: 0 <= i < |components| ==> '/' !in components[i]
    ensures Split(Joined(components)) == [""] + components
  {
    hide Split, UpToSlash, Joined;
    JoinedSplits(components);
    var rest := components[0] + Joined(components[1..]);
    assert "/" + rest == "" + ("/" + rest);
    SplitAtSlash("", rest);
    SplitBehindSlash(components);
  }

  // ----- Components -----

  predicate IsPlain(component: string) {
    component != "" && component != "." && component != ".."
  }

  /** What the components of a resolved path are like. */
  predicate IsNormal(components: Components) {
    forall i :: 0 <= i < |components| ==> IsPlain(components[i]) && '/' !in components[i]
  }

  function Applied(components: Components, component: string): (r: Components)
    ensures IsNormal(components) && '/' !in component ==> IsNormal(r)
  {
    if component == "" || component == "." then components
    else if component == ".." then
      if components == [] then [] else components[..|components| - 1]
    else components + [component]
  }

  function Collapsed(start: Components, parts: Components): (r: Components)
    ensures IsNormal(start) && (forall i :: 0 <= i < |parts| ==> '/' !in parts[i]) ==> IsNormal(r)
  {
    if parts == [] then start
    else Applied(Collapsed(start, parts[..|parts| - 1]), parts[|parts| - 1])
  }

  lemma {:induction false} NormalStays(start: Components, components: Components)
    requires IsNormal(components)
    ensures Collapsed(start, components) == start + components
  {
    if components == [] {
    } else {
      NormalStays(start, components[..|components| - 1]);
      assert components == components[..|components| - 1] + [components[|components| - 1]];
    }
  }

  lemma {:induction false} CollapsedJoins(start: Components, front: Components, back: Components)
    ensures Collapsed(start, front + back) == Collapsed(Collapsed(start, front), back)
  {
    if back == [] {
      assert front + back == front;
    } else {
      CollapsedJoins(start, front, back[..|back| - 1]);
      assert (front + back)[..|front + back| - 1] == front + back[..|back| - 1];
    }
  }

  // ----- The doubled prefix -----

  const LONG_PATH := 6

  function Marker(): Components {
    ["var", "mobile", "Applications"]
  }

  predicate MarkerAt(components: Components, i: int) {
    0 <= i && i + 3 <= |components| && components[i..i + 3] == Marker()
  }

  /** The first place of the marker from `from` on. */
  function MarkerFrom(components: Components, from: nat): (i: Option<nat>)
    ensures i.Some? ==> from <= i.value < |components| && MarkerAt(components, i.value) && forall k :: from <= k < i.value ==> !MarkerAt(components, k)
    ensures i == None ==> forall k :: from <= k ==> !MarkerAt(components, k)
    decreases |components| - from
  {
    if from + 3 > |components| then None
    else if MarkerAt(components, from) then Some(from)
    else MarkerFrom(components, from + 1)
  }

  function SecondMarker(components: Components): (i: Option<nat>)
    ensures i.Some? ==> 0 < i.value < |components| && MarkerAt(components, i.value)
  {
    match MarkerFrom(components, 0)
    case Some(first) => MarkerFrom(components, first + 1)
    case None => None
  }

  /** A long path with two markers is taken to start at the second one. */
  function Deduplicated(components: Components): (r: Components)
    ensures IsNormal(components) ==> IsNormal(r)
  {
    if |components| > LONG_PATH && SecondMarker(components).Some? then components[SecondMarker(components).value..]
    else components
  }

  /** A path with the prefix twice, and not more often, starts at its second one: what two paths written one behind the
      other were meant to be. */
  lemma DoubledPrefixGoes(front: Components, back: Components, i: nat)
    requires |front + back| > 6 && ["var", "mobile", "Applications"] <= back
    requires i < |front| && (forall k :: 0 <= k < |front| ==> (MarkerAt(front + back, k) <==> k == i))
    ensures Deduplicated(front + back) == back
  {
    hide MarkerAt;
    var all := front + back;
    assert all[|front|..] == back;
    MarkerBehind(front, back);
    assert MarkerAt(all, i) && MarkerAt(all, |front|);
    assert MarkerFrom(all, 0) == Some(i);
    assert MarkerFrom(all, i + 1) == Some(|front|);
  }

  lemma MarkerBehind(front: Components, back: Components)
    requires ["var", "mobile", "Applications"] <= back
    ensures MarkerAt(front + back, |front|)
  {
    assert (front + back)[|front|..|front| + 3] == back[..3];
  }

  /** Any other path is left as it is. */
  lemma SinglePrefixStays(components: Components)
    requires |components| <= 6 || forall i, j :: MarkerAt(components, i) && MarkerAt(components, j) ==> i == j
    ensures Deduplicated(components) == components
  {
    hide MarkerAt;
  }

  lemma TwoMarkers(components: Components, i: int, j: int)
    requires i < j && MarkerAt(components, i) && MarkerAt(components, j)
    ensures SecondMarker(components).Some? && SecondMarker(components).value <= j
  {
    hide MarkerAt;
    MarkersAreInside(components, i);
  }

  lemma MarkersAreInside(components: Components, i: int)
    requires MarkerAt(components, i)
    ensures 0 <= i && i + 3 <= |components|
  {
  }

  lemma MarkerInRest(components: Components, start: nat, i: int)
    requires start <= |components| && i >= 0
    ensures MarkerAt(components[start..], i) <==> MarkerAt(components, start + i)
  {
    if start + i + 3 <= |components| {
      assert components[start..][i..i + 3] == components[start + i..start + i + 3];
    }
  }

  ghost predicate HasThreeMarkers(components: Components) {
    exists i, j, k :: i < j < k && MarkerAt(components, i) && MarkerAt(components, j) && MarkerAt(components, k)
  }

  /** Resolving a resolved path changes nothing more exactly when there were no three markers, or few components from the
      second one on. */
  lemma DeduplicationSettles(components: Components)
    ensures Deduplicated(Deduplicated(components)) == Deduplicated(components)
            <==> (HasThreeMarkers(components) ==>
                    SecondMarker(components).Some? && |components| - SecondMarker(components).value <= LONG_PATH)
  {
    hide MarkerAt;
    var r := Deduplicated(components);
    var second := SecondMarker(components);
    if HasThreeMarkers(components) {
      var i: int, j: int, k: int :| i < j < k && MarkerAt(components, i) && MarkerAt(components, j) && MarkerAt(components, k);
      TwoMarkers(components, i, j);
      MarkersAreInside(components, k);
      if |components| > LONG_PATH {
        MarkerInRest(components, second.value, 0);
        MarkerInRest(components, second.value, k - second.value);
        TwoMarkers(r, 0, k - second.value);
      }
    }
    if |components| > LONG_PATH && second.Some? && SecondMarker(r).Some? {
      ThirdMarker(components, second.value);
    }
  }

  /** With the prefix three times over, resolving once more takes off another one. */
  lemma TripledPrefixDoesNotSettle(file: string)
    ensures var components := Marker() + Marker() + Marker() + [file];
            Deduplicated(Deduplicated(components)) != Deduplicated(components)
  {
    var components := Marker() + Marker() + Marker() + [file];
    assert components[0..3] == components[3..6] == components[6..9] == Marker();
    assert MarkerAt(components, 0) && MarkerAt(components, 3) && MarkerAt(components, 6);
    hide MarkerAt, MarkerFrom;
    TwoMarkers(components, 0, 3);
    DeduplicationSettles(components);
  }

  lemma ThirdMarker(components: Components, second: nat)
    requires SecondMarker(components) == Some(second) && SecondMarker(components[second..]).Some?
    ensures HasThreeMarkers(components)
  {
    hide MarkerAt;
    var third := second + SecondMarker(components[second..]).value;
    var first := MarkerFrom(components, 0).value;
    MarkerInRest(components, second, SecondMarker(components[second..]).value);
    assert first < second < third;
  }

  method FindMarker(components: Components, from: nat) returns (i: Option<nat>)
    ensures i == MarkerFrom(components, from)
  {
    hide MarkerAt;
    var k := from;
    while k + 3 <= |components|
      invariant from <= k && MarkerFrom(components, from) == MarkerFrom(components, k)
    {
      if components[k..k + 3] == Marker() {
        MarkerIsAt(components, k);
        return Some(k);
      }
      MarkerIsAt(components, k);
      k := k + 1;
    }
    i := None;
  }

  lemma MarkerIsAt(components: Components, k: nat)
    requires k + 3 <= |components|
    ensures MarkerAt(components, k) <==> components[k..k + 3] == Marker()
  {
  }

  // ----- Resolving -----

  predicate IsAbsolute(path: string) {
    path != [] && path[0] == '/'
  }

  /** The components of a path, relative to an absolute one. */
  function Resolved(path: string, relativeTo: string): (components: Components)
    ensures IsNormal(components)
  {
    Deduplicated(Collapsed(if IsAbsolute(path) then [] else Collapsed([], Split(relativeTo)), Split(path)))
  }

  /** The components that a path is made from are what it resolves to, but for a doubled prefix. */
  lemma ComponentsResolve(components: Components, relativeTo: string)
    requires IsNormal(components)
    ensures Resolved(AsPath(components), relativeTo) == Deduplicated(components)
  {
    hide Deduplicated, Split, Collapsed, Joined, IsNormal;
    EmptyParts();
    if components == [] {
      SplitRoot();
    } else {
      NormalHasNoSlash(components);
      SplitJoined(components);
      JoinedSplits(components);
      CollapsedJoins([], [""], components);
      NormalStays([], components);
      assert [] + components == components;
    }
  }

  lemma EmptyParts()
    ensures Collapsed([], [""]) == Collapsed([], ["", ""]) == []
  {
    assert ["", ""][..1] == [""] && [""][..0] == [];
  }

  lemma NormalHasNoSlash(components: Components)
    requires IsNormal(components)
    ensures forall i :: 0 <= i < |components| ==> '/' !in components[i]
  {
  }

  lemma SplitRoot()
    ensures Split("/") == ["", ""]
  {
    assert "/" == "" + ("/" + "");
    SplitAtSlash("", "");
  }

  // ----- What paths mean -----

  lemma {:induction false} SplitOfBoth(a: string, b: string)
    ensures Split(a + "/" + b) == Split(a) + Split(b)
    decreases |a|
  {
    hide Split, UpToSlash;
    var first := UpToSlash(a);
    var rest := a[|first|..];
    assert a == first + rest;
    if rest == [] {
      assert a + "/" + b == first + ("/" + b);
      SplitAtSlash(first, b);
      SplitFirst(first, []);
      assert first + [] == a;
    } else {
      assert a + "/" + b == first + ("/" + (rest[1..] + "/" + b));
      assert a == first + ("/" + rest[1..]);
      SplitAtSlash(first, rest[1..] + "/" + b);
      SplitAtSlash(first, rest[1..]);
      SplitOfBoth(rest[1..], b);
    }
  }

  lemma AppliedOnce(start: Components, part: string)
    ensures Collapsed(start, [part]) == Applied(start, part)
  {
    assert [part][..0] == [];
  }

  /** What is between two slashes goes with the rest of the path. */
  lemma CollapsedAround(start: Components, a: string, middle: Components, b: string)
    ensures Collapsed(start, Split(a) + middle + Split(b)) == Collapsed(Collapsed(Collapsed(start, Split(a)), middle), Split(b))
  {
    hide Collapsed, Split;
    CollapsedJoins(start, Split(a) + middle, Split(b));
    CollapsedJoins(start, Split(a), middle);
  }

  /** Going into a directory and back with `..` leads nowhere else; `.` and a doubled slash stay where they are. Paths may
      go on in any way before and behind. */
  lemma DotsInPaths(a: string, name: string, b: string, relativeTo: string)
    requires IsPlain(name) && '/' !in name
    ensures Resolved(a + "/" + name + "/../" + b, relativeTo) == Resolved(a + "/" + b, relativeTo)
    ensures Resolved(a + "/./" + b, relativeTo) == Resolved(a + "//" + b, relativeTo) == Resolved(a + "/" + b, relativeTo)
  {
    hide Split, UpToSlash, Collapsed, Deduplicated;
    var start := if IsAbsolute(a + "/" + b) then [] else Collapsed([], Split(relativeTo));
    var here := Collapsed(start, Split(a));
    SplitOfBoth(a, b);
    CollapsedJoins(start, Split(a), Split(b));
    CollapsedAround(start, a, [name, ".."], b);
    CollapsedAround(start, a, ["."], b);
    CollapsedAround(start, a, [""], b);
    assert here + [name] + [] == here + [name];
    assert a + "/" + name + "/../" + b == a + "/" + (name + "/" + (".." + "/" + b));
    assert a + "/./" + b == a + "/" + ("." + "/" + b);
    assert a + "//" + b == a + "/" + ("" + "/" + b);
    InAndBack(here, name);
    AppliedOnce(here, ".");
    AppliedOnce(here, "");
    SplitOfPart(name, ".." + "/" + b);
    SplitOfPart("..", b);
    SplitOfPart(".", b);
    SplitOfPart("", b);
    SplitOfBoth(a, name + "/" + (".." + "/" + b));
    SplitOfBoth(a, "." + "/" + b);
    SplitOfBoth(a, "" + "/" + b);
    assert Split(a) + ([name] + ([".."] + Split(b))) == Split(a) + [name, ".."] + Split(b);
    assert Split(a) + (["."] + Split(b)) == Split(a) + ["."] + Split(b);
    assert Split(a) + ([""] + Split(b)) == Split(a) + [""] + Split(b);
  }

  lemma SplitOfPart(part: string, b: string)
    requires '/' !in part
    ensures Split(part + "/" + b) == [part] + Split(b)
  {
    hide Split, UpToSlash;
    assert part + "/" + b == part + ("/" + b);
    SplitAtSlash(part, b);
  }

  lemma InAndBack(here: Components, name: string)
    requires IsPlain(name)
    ensures Collapsed(here, [name, ".."]) == here
  {
    AppliedOnce(here, name);
    var parts := [name, ".."];
    assert parts[..|parts| - 1] == [name] && parts[|parts| - 1] == "..";
    assert Collapsed(here, parts) == Applied(here + [name], "..");
    assert (here + [name])[..|here|] == here;
  }

  /** There is nothing above `/`. */
  lemma NothingAboveRoot(b: string, relativeTo: string)
    ensures Resolved("/../" + b, relativeTo) == Resolved("/" + b, relativeTo)
  {
    hide Split, UpToSlash, Deduplicated;
    assert "/../" + b == "" + "/" + (".." + "/" + b) && "/" + b == "" + "/" + b;
    SplitOfPart("", ".." + "/" + b);
    SplitOfPart("..", b);
    SplitOfPart("", b);
    CollapsedJoins([], ["", ".."], Split(b));
    CollapsedJoins([], [""], Split(b));
    assert ["", ".."][..1] == [""] && [""][..0] == [];
    assert [""] + ([".."] + Split(b)) == ["", ".."] + Split(b);
  }

  /** A relative path goes on from the directory that it is relative to. */
  lemma RelativeGoesOn(path: string, relativeTo: string, other: string)
    requires !IsAbsolute(path) && IsAbsolute(relativeTo)
    ensures Resolved(path, relativeTo) == Resolved(relativeTo + "/" + path, other)
  {
    hide Split, Collapsed, Deduplicated;
    SplitOfBoth(relativeTo, path);
    CollapsedJoins([], Split(relativeTo), Split(path));
  }

  method ResolvePath(path: string, relativeTo: string) returns (components: Components)
    requires IsAbsolute(path) || IsAbsolute(relativeTo)
    ensures components == Resolved(path, relativeTo)
  {
    hide Split, MarkerAt;
    components := [];
    if !IsAbsolute(path) {
      components := ApplyAll(components, Split(relativeTo));
    }
    components := ApplyAll(components, Split(path));
    if |components| > LONG_PATH {
      var first := FindMarker(components, 0);
      if first.Some? {
        var second := FindMarker(components, first.value + 1);
        if second.Some? {
          components := components[second.value..];
        }
      }
    }
  }

  method ApplyAll(start: Components, parts: Components) returns (components: Components)
    ensures components == Collapsed(start, parts)
  {
    components := start;
    var i := 0;
    while i < |parts|
      invariant 0 <= i <= |parts| && components == Collapsed(start, parts[..i])
    {
      var part := parts[i];
      if part == "" || part == "." {
      } else if part == ".." {
        if components != [] {
          components := components[..|components| - 1];
        }
      } else {
        components := components + [part];
      }
      assert parts[..i + 1][..i] == parts[..i];
      i := i + 1;
    }
    assert parts[..i] == parts;
  }

  lemma {:induction false} JoinedGrows(components: Components, component: string)
    ensures Joined(components + [component]) == Joined(components) + "/" + component
  {
    if components == [] {
      assert Joined([component]) == "/" + component + "";
    } else {
      JoinedGrows(components[1..], component);
      assert (components + [component])[1..] == components[1..] + [component];
    }
  }

  /** A path that resolves to itself does so at every directory on the way. */
  lemma PrefixesSettle(components: Components, n: nat)
    requires n <= |components| && Deduplicated(components) == components
    ensures Deduplicated(components[..n]) == components[..n]
  {
    hide MarkerAt;
    var front := components[..n];
    if n > LONG_PATH && SecondMarker(front).Some? {
      var i, j := MarkerFrom(front, 0).value, SecondMarker(front).value;
      MarkerInFront(components, n, i);
      MarkerInFront(components, n, j);
      TwoMarkers(components, i, j);
    }
  }

  lemma MarkerInFront(components: Components, n: nat, i: int)
    requires n <= |components| && MarkerAt(components[..n], i)
    ensures MarkerAt(components, i)
  {
    assert components[..n][i..i + 3] == components[i..i + 3];
  }
}
