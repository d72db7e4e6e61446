/** Loading the dynamic libraries an app needs: a worklist over dependency paths in which
    several spellings of one library count as one. */
module DependencyLoader {
  import opened Common

  // ----- Canonical names -----

  /** The last component of a path. */
  function BaseName(path: string): (name: string)
    ensures '/' !in name
    ensures |name| <= |path| && path[|path| - |name|..] == name
    ensures |name| < |path| ==> path[|path| - |name| - 1] == '/'
  {
    if path == [] || path[|path| - 1] == '/' then []
    else BaseName(path[..|path| - 1]) + [path[|path| - 1]]
  }

  /** What precedes the last slash, or nothing when there is none. */
  function Directory(path: string): string {
    var name := BaseName(path);
    if |name| < |path| then path[..|path| - |name| - 1] else []
  }

  function CanonicalName(name: string): string {
    match name
    case "libstdc++.6.dylib" => "libstdc++.6.0.9.dylib"
    case "libz.1.dylib" => "libz.1.2.3.dylib"
    case "libz.dylib" => "libz.1.2.3.dylib"
    case "libz.1.1.3.dylib" => "libz.1.2.3.dylib"
    case "libsqlite3.0.dylib" => "libsqlite3.dylib"
    case _ => name
  }

  function Canonicalize(path: string): string {
    var directory, name := Directory(path), CanonicalName(BaseName(path));
    if directory == [] then name else directory + "/" + name
  }

  lemma OneMoreLetter(path: string, letter: char)
    requires letter != '/'
    ensures BaseName(path + [letter]) == BaseName(path) + [letter] && Directory(path + [letter]) == Directory(path)
  {
    assert (path + [letter])[..|path|] == path;
  }

  lemma {:induction false} BaseNameAfterSlash(directory: string, name: string)
    requires '/' !in name
    ensures BaseName(directory + "/" + name) == name && Directory(directory + "/" + name) == directory
  {
    var path := directory + "/" + name;
    if name == [] {
      assert path[|path| - 1] == '/';
      assert path[..|path| - 1] == directory;
    } else {
      var n := |name| - 1;
      BaseNameAfterSlash(directory, name[..n]);
      OneMoreLetter(directory + "/" + name[..n], name[n]);
      assert path == (directory + "/" + name[..n]) + [name[n]] && name[..n] + [name[n]] == name;
    }
  }

  lemma {:induction false} BaseNameWithoutSlash(name: string)
    requires '/' !in name
    ensures BaseName(name) == name && Directory(name) == []
  {
    if name == [] {
    } else {
      BaseNameWithoutSlash(name[..|name| - 1]);
    }
  }

  lemma CanonicalNameHasNoSlash(name: string)
    requires '/' !in name
    ensures '/' !in CanonicalName(name)
  {
  }

  /** Two paths count as one library exactly when they agree on the directory and, up to aliases, on the name.
      A lone leading slash is no directory. */
  lemma SameLibrary(p: string, q: string)
    ensures Canonicalize(p) == Canonicalize(q) <==>
            Directory(p) == Directory(q) && CanonicalName(BaseName(p)) == CanonicalName(BaseName(q))
  {
    CanonicalSplits(p);
    CanonicalSplits(q);
  }

  lemma CanonicalSplits(path: string)
    ensures Directory(Canonicalize(path)) == Directory(path)
    ensures BaseName(Canonicalize(path)) == CanonicalName(BaseName(path))
  {
    var directory, name := Directory(path), CanonicalName(BaseName(path));
    CanonicalNameHasNoSlash(BaseName(path));
    BaseNameAfterSlash(directory, name);
    BaseNameWithoutSlash(name);
  }

  lemma AliasesAreResolvedAtOnce(name: string)
    ensures CanonicalName(CanonicalName(name)) == CanonicalName(name)
  {
    assert CanonicalName("libstdc++.6.0.9.dylib") == "libstdc++.6.0.9.dylib";
    assert CanonicalName("libz.1.2.3.dylib") == "libz.1.2.3.dylib";
    assert CanonicalName("libsqlite3.dylib") == "libsqlite3.dylib";
  }

  /** The aliases: three libraries have more names than one. */
  lemma LibrariesWithAliases(a: string, b: string)
    ensures CanonicalName(a) == CanonicalName(b) <==>
            || a == b
            || {a, b} <= {"libstdc++.6.dylib", "libstdc++.6.0.9.dylib"}
            || {a, b} <= {"libz.dylib", "libz.1.dylib", "libz.1.1.3.dylib", "libz.1.2.3.dylib"}
            || {a, b} <= {"libsqlite3.0.dylib", "libsqlite3.dylib"}
  {
    assert a in {a, b} && b in {a, b};
  }

  lemma CanonicalizeIsIdempotent(path: string)
    ensures Canonicalize(Canonicalize(path)) == Canonicalize(path)
  {
    CanonicalSplits(path);
    AliasesAreResolvedAtOnce(BaseName(path));
    SameLibrary(Canonicalize(path), path);
  }

  // ----- The worklist -----

  /** What loading one path gives: an error, nothing (not a bundled library), or a binary with its dependencies. */
  datatype Loaded<T> = Failure(error: string) | Skipped | Binary(binary: T, dependencies: seq<string>)

  datatype Outcome<T> = Error(error: string) | Success(binaries: seq<T>)

  /** The names of some paths. */
  ghost function Names(name: string -> string, paths: seq<string>): set<string> {
    if paths == [] then {} else Names(name, paths[..|paths| - 1]) + {name(paths[|paths| - 1])}
  }

  lemma {:induction false} NamesAreCanonical(name: string -> string, paths: seq<string>)
    ensures forall n :: n in Names(name, paths) <==> exists p :: p in paths && name(p) == n
  {
    if paths == [] {
    } else {
      var rest, last := paths[..|paths| - 1], paths[|paths| - 1];
      assert paths == rest + [last];
      NamesAreCanonical(name, rest);
    }
  }

  lemma {:induction false} NamesOfBoth(name: string -> string, a: seq<string>, b: seq<string>)
    ensures Names(name, a + b) == Names(name, a) + Names(name, b)
  {
    if b == [] {
      assert a + b == a;
    } else {
      NamesOfBoth(name, a, b[..|b| - 1]);
      assert (a + b)[..|a + b| - 1] == a + b[..|b| - 1];
    }
  }

  ghost function Dependencies<T>(result: Loaded<T>): seq<string> {
    if result.Binary? then result.dependencies else []
  }

  /** All paths asked for: the roots, then what each call reported, in order. */
  ghost function Requests<T>(roots: seq<string>, load: string -> Loaded<T>, calls: seq<string>): seq<string> {
    if calls == [] then roots
    else Requests(roots, load, calls[..|calls| - 1]) + Dependencies(load(calls[|calls| - 1]))
  }

  /** Each call is for a name not called before, was asked for by what came before, and follows no failure. */
  ghost predicate Justified<T>(name: string -> string, roots: seq<string>, load: string -> Loaded<T>, calls: seq<string>) {
    calls == [] ||
    var before, path := calls[..|calls| - 1], calls[|calls| - 1];
    && Justified(name, roots, load, before)
    && name(path) !in Names(name, before)
    && path in Requests(roots, load, before)
    && (before == [] || !load(before[|before| - 1]).Failure?)
  }

  ghost function Binaries<T>(load: string -> Loaded<T>, calls: seq<string>): seq<T> {
    if calls == [] then []
    else
      var last := load(calls[|calls| - 1]);
      Binaries(load, calls[..|calls| - 1]) + if last.Binary? then [last.binary] else []
  }

  /** The finitely many names that loading can ever come across. */
  ghost predicate Universe<T>(name: string -> string, roots: seq<string>, load: string -> Loaded<T>, universe: set<string>) {
    && Names(name, roots) <= universe
    && forall p {:trigger load(p)} :: name(p) in universe ==> Names(name, Dependencies(load(p))) <= universe
  }

  // ----- The order of loading -----

  /** The first path for each name. */
  ghost function Firsts(name: string -> string, paths: seq<string>): seq<string> {
    if paths == [] then []
    else
      var front, last := paths[..|paths| - 1], paths[|paths| - 1];
      Firsts(name, front) + if name(last) in Names(name, front) then [] else [last]
  }

  lemma {:induction false} NamesOfFirsts(name: string -> string, paths: seq<string>)
    ensures Names(name, Firsts(name, paths)) == Names(name, paths)
  {
    if paths == [] {
    } else {
      var front, last := paths[..|paths| - 1], paths[|paths| - 1];
      NamesOfFirsts(name, front);
      if name(last) in Names(name, front) {
        assert Firsts(name, front) + [] == Firsts(name, front);
      } else {
        OneMoreName(name, Firsts(name, front), last);
      }
    }
  }

  lemma OneMoreName(name: string -> string, paths: seq<string>, last: string)
    ensures Names(name, paths + [last]) == Names(name, paths) + {name(last)}
  {
    assert (paths + [last])[..|paths|] == paths;
  }

  lemma FirstsGrow(name: string -> string, paths: seq<string>, last: string)
    ensures Firsts(name, paths + [last]) == Firsts(name, paths) + if name(last) in Names(name, paths) then [] else [last]
  {
    assert (paths + [last])[..|paths|] == paths;
  }

  /** The requests but the last `left` ones have been dealt with, in order: of each name, the first request has been called. */
  ghost predicate InTurn<T>(name: string -> string, roots: seq<string>, load: string -> Loaded<T>, calls: seq<string>, left: nat) {
    var requests := Requests(roots, load, calls);
    left <= |requests| && calls == Firsts(name, requests[..|requests| - left])
  }

  /** The paths still pending are the last of the requests. */
  ghost predicate IsPending<T>(name: string -> string, roots: seq<string>, load: string -> Loaded<T>, calls: seq<string>,
                               pending: seq<string>) {
    var requests := Requests(roots, load, calls);
    InTurn(name, roots, load, calls, |pending|) && requests[|requests| - |pending|..] == pending
  }

  lemma PendingStarts<T>(name: string -> string, roots: seq<string>, load: string -> Loaded<T>)
    ensures IsPending(name, roots, load, [], roots)
  {
    assert roots[..0] == [];
  }

  lemma PendingSkips<T>(name: string -> string, roots: seq<string>, load: string -> Loaded<T>, calls: seq<string>, pending: seq<string>)
    requires IsPending(name, roots, load, calls, pending) && pending != [] && name(pending[0]) in Names(name, calls)
    ensures IsPending(name, roots, load, calls, pending[1..])
  {
    hide Requests;
    var requests := Requests(roots, load, calls);
    var n := |requests| - |pending|;
    assert requests[n] == requests[n..][0] == pending[0];
    assert requests[..n + 1] == requests[..n] + [pending[0]];
    FirstsGrow(name, requests[..n], pending[0]);
    NamesOfFirsts(name, requests[..n]);
    assert calls + [] == calls;
  }

  lemma PendingCalls<T>(name: string -> string, roots: seq<string>, load: string -> Loaded<T>, calls: seq<string>, pending: seq<string>)
    requires IsPending(name, roots, load, calls, pending) && pending != [] && name(pending[0]) !in Names(name, calls)
    ensures IsPending(name, roots, load, calls + [pending[0]], pending[1..] + Dependencies(load(pending[0])))
  {
    var path := pending[0];
    var requests, more := Requests(roots, load, calls), Dependencies(load(path));
    var n := |requests| - |pending|;
    RequestsGrow(roots, load, calls, path);
    hide Requests, Dependencies;
    NextPending(requests, more, n, pending);
    FirstsGrow(name, requests[..n], path);
    NamesOfFirsts(name, requests[..n]);
    hide Firsts, Names;
  }

  lemma RequestsGrow<T>(roots: seq<string>, load: string -> Loaded<T>, calls: seq<string>, path: string)
    ensures Requests(roots, load, calls + [path]) == Requests(roots, load, calls) + Dependencies(load(path))
  {
    assert (calls + [path])[..|calls|] == calls;
  }

  lemma NextPending(requests: seq<string>, more: seq<string>, n: nat, pending: seq<string>)
    requires n <= |requests| && requests[n..] == pending != []
    ensures (requests + more)[..n + 1] == requests[..n] + [pending[0]]
    ensures (requests + more)[n + 1..] == pending[1..] + more
    ensures |requests + more| - |pending[1..] + more| == n + 1
  {
    assert requests == requests[..n] + pending && pending == [pending[0]] + pending[1..];
    var all := requests + more;
    assert all == requests[..n] + [pending[0]] + (pending[1..] + more);
  }

  /** What is loaded, in the order of the calls: nothing is left out, and nothing added. */
  lemma {:induction false} BinariesInOrder<T>(load: string -> Loaded<T>, calls: seq<string>, more: seq<string>)
    ensures Binaries(load, calls + more) == Binaries(load, calls) + Binaries(load, more)
    ensures |more| == 1 ==> Binaries(load, more) == match load(more[0]) case Binary(binary, _) => [binary] case _ => []
  {
    if more == [] {
      assert calls + more == calls;
    } else {
      BinariesInOrder(load, calls, more[..|more| - 1]);
      assert (calls + more)[..|calls + more| - 1] == calls + more[..|more| - 1];
    }
  }

  method LoadTransitiveDependencies<T>(roots: seq<string>, load: string -> Loaded<T>, ghost universe: set<string>)
    returns (r: Outcome<T>, calls: seq<string>)
    requires Universe(Canonicalize, roots, load, universe)
    ensures Justified(Canonicalize, roots, load, calls)
    ensures r.Success? ==> r.binaries == Binaries(load, calls)
    ensures r.Success? ==> Names(Canonicalize, calls) == Names(Canonicalize, Requests(roots, load, calls))
    ensures r.Success? ==> calls == [] || !load(calls[|calls| - 1]).Failure?
    ensures r.Error? ==> calls != [] && load(calls[|calls| - 1]) == Failure(r.error)
    ensures r.Success? ==> calls == Firsts(Canonicalize, Requests(roots, load, calls))
    ensures exists left :: InTurn(Canonicalize, roots, load, calls, left)
  {
    r, calls := RunWorklist(Canonicalize, roots, load, universe);
  }

  /** The loop itself, for any way of telling which paths mean one library. */
  method RunWorklist<T>(name: string -> string, roots: seq<string>, load: string -> Loaded<T>, ghost universe: set<string>)
    returns (r: Outcome<T>, calls: seq<string>)
    requires Universe(name, roots, load, universe)
    ensures Justified(name, roots, load, calls)
    ensures r.Success? ==> r.binaries == Binaries(load, calls)
    ensures r.Success? ==> Names(name, calls) == Names(name, Requests(roots, load, calls))
    ensures r.Success? ==> calls == [] || !load(calls[|calls| - 1]).Failure?
    ensures r.Error? ==> calls != [] && load(calls[|calls| - 1]) == Failure(r.error)
    ensures r.Success? ==> calls == Firsts(name, Requests(roots, load, calls))
    ensures exists left :: InTurn(name, roots, load, calls, left)
  {
    hide Working, Justified, Requests, Binaries, Firsts, IsPending;
    PendingStarts(name, roots, load);
    var pending := roots;
    var visited: set<string> := {};
    var loaded: seq<T> := [];
    calls := [];
    WorkStarts(name, roots, load);
    while pending != []
      invariant Working(name, roots, load, pending, visited, loaded, calls) && IsPending(name, roots, load, calls, pending)
      invariant visited <= universe && Names(name, pending) <= universe
      decreases universe - visited, |pending|
    {
      var path := pending[0];
      Pop(name, pending);
      VisitedAreCalled(name, roots, load, pending, visited, loaded, calls);
      if name(path) in visited {
        PendingSkips(name, roots, load, calls, pending);
        SkipKnown(name, roots, load, pending, visited, loaded, calls);
        pending := pending[1..];
        continue;
      }
      var result;
      PendingCalls(name, roots, load, calls, pending);
      result, pending, visited, loaded, calls := Call(name, roots, load, universe, pending, visited, loaded, calls);
      PendingIsInTurn(name, roots, load, calls, pending);
      if result.Failure? {
        return Error(result.error), calls;
      }
    }
    PendingIsInTurn(name, roots, load, calls, pending);
    WorkEnds(name, roots, load, visited, loaded, calls);
    return Success(loaded), calls;
  }

  /** The part of a turn that handles a name not seen before. */
  method Call<T>(name: string -> string, ghost roots: seq<string>, load: string -> Loaded<T>, ghost universe: set<string>,
                 pending: seq<string>, visited: set<string>, loaded: seq<T>, calls: seq<string>)
    returns (result: Loaded<T>, pending': seq<string>, visited': set<string>, loaded': seq<T>, calls': seq<string>)
    requires pending != [] && name(pending[0]) !in visited
    requires Working(name, roots, load, pending, visited, loaded, calls)
    requires Universe(name, roots, load, universe) && visited <= universe && Names(name, pending) <= universe
    ensures result == load(pending[0]) && calls' == calls + [pending[0]] && pending' == pending[1..] + Dependencies(result)
    ensures Justified(name, roots, load, calls')
    ensures visited' <= universe && universe - visited' < universe - visited
    ensures !result.Failure? ==> Working(name, roots, load, pending', visited', loaded', calls')
    ensures !result.Failure? ==> Names(name, pending') <= universe
  {
    var path := pending[0];
    Pop(name, pending);
    NewCall(name, roots, load, pending, visited, loaded, calls);
    assert name(path) in universe - visited;
    visited' := visited + {name(path)};
    calls' := calls + [path];
    result := load(path);
    pending' := pending[1..] + if result.Binary? then result.dependencies else [];
    loaded' := if result.Binary? then loaded + [result.binary] else loaded;
  }

  /** What holds between two turns of the loop. */
  ghost predicate Working<T>(name: string -> string, roots: seq<string>, load: string -> Loaded<T>,
                             pending: seq<string>, visited: set<string>, loaded: seq<T>, calls: seq<string>)
  {
    && Justified(name, roots, load, calls) && (calls == [] || !load(calls[|calls| - 1]).Failure?)
    && visited == Names(name, calls)
    && Names(name, Requests(roots, load, calls)) == visited + Names(name, pending)
    && (forall p :: p in pending ==> p in Requests(roots, load, calls))
    && loaded == Binaries(load, calls)
  }

  lemma VisitedAreCalled<T>(name: string -> string, roots: seq<string>, load: string -> Loaded<T>,
                            pending: seq<string>, visited: set<string>, loaded: seq<T>, calls: seq<string>)
    requires Working(name, roots, load, pending, visited, loaded, calls)
    ensures visited == Names(name, calls)
  {
  }

  lemma PendingIsInTurn<T>(name: string -> string, roots: seq<string>, load: string -> Loaded<T>, calls: seq<string>, pending: seq<string>)
    requires IsPending(name, roots, load, calls, pending)
    ensures InTurn(name, roots, load, calls, |pending|)
    ensures pending == [] ==> calls == Firsts(name, Requests(roots, load, calls))
  {
    var requests := Requests(roots, load, calls);
    assert requests[..|requests|] == requests;
  }

  lemma WorkStarts<T>(name: string -> string, roots: seq<string>, load: string -> Loaded<T>)
    ensures Working(name, roots, load, roots, {}, [], [])
  {
  }

  lemma WorkEnds<T>(name: string -> string, roots: seq<string>, load: string -> Loaded<T>,
                    visited: set<string>, loaded: seq<T>, calls: seq<string>)
    requires Working(name, roots, load, [], visited, loaded, calls)
    ensures Justified(name, roots, load, calls) && (calls == [] || !load(calls[|calls| - 1]).Failure?)
    ensures Names(name, calls) == Names(name, Requests(roots, load, calls)) && loaded == Binaries(load, calls)
  {
  }

  lemma SkipKnown<T>(name: string -> string, roots: seq<string>, load: string -> Loaded<T>,
                     pending: seq<string>, visited: set<string>, loaded: seq<T>, calls: seq<string>)
    requires pending != [] && name(pending[0]) in visited
    requires Working(name, roots, load, pending, visited, loaded, calls)
    ensures Working(name, roots, load, pending[1..], visited, loaded, calls)
  {
    hide Justified, Requests, Binaries;
    Pop(name, pending);
  }

  /** Calling `load` on the first pending path, whose name is new. */
  lemma NewCall<T>(name: string -> string, roots: seq<string>, load: string -> Loaded<T>,
                   pending: seq<string>, visited: set<string>, loaded: seq<T>, calls: seq<string>)
    requires pending != [] && name(pending[0]) !in visited
    requires Working(name, roots, load, pending, visited, loaded, calls)
    ensures var path := pending[0];
            var calls', result := calls + [path], load(path);
            && Justified(name, roots, load, calls')
            && (!result.Failure? ==>
                  Working(name, roots, load, pending[1..] + Dependencies(result), visited + {name(path)},
                          if result.Binary? then loaded + [result.binary] else loaded, calls'))
    ensures Names(name, pending[1..] + Dependencies(load(pending[0]))) <= Names(name, pending) + Names(name, Dependencies(load(pending[0])))
  {
    var path := pending[0];
    assert (calls + [path])[..|calls|] == calls;
    assert path in pending;
    Pop(name, pending);
    NamesOfBoth(name, Requests(roots, load, calls), Dependencies(load(path)));
    NamesOfBoth(name, pending[1..], Dependencies(load(path)));
  }

  lemma Pop(name: string -> string, pending: seq<string>)
    requires pending != []
    ensures Names(name, pending) == {name(pending[0])} + Names(name, pending[1..])
  {
    assert pending == [pending[0]] + pending[1..];
    NamesOfBoth(name, [pending[0]], pending[1..]);
    assert Names(name, [pending[0]]) == {name(pending[0])};
  }

  /** `load` is called at most once per canonical name and never after a failure. */
  lemma {:induction false} CalledOnce<T>(name: string -> string, roots: seq<string>, load: string -> Loaded<T>, calls: seq<string>)
    requires Justified(name, roots, load, calls)
    ensures forall i, j :: 0 <= i < j < |calls| ==> name(calls[i]) != name(calls[j])
    ensures forall i :: 0 <= i < |calls| - 1 ==> !load(calls[i]).Failure?
  {
    if calls == [] {
    } else {
      var before, path := calls[..|calls| - 1], calls[|calls| - 1];
      CalledOnce(name, roots, load, before);
      NamesAreCanonical(name, before);
      forall i | 0 <= i < |before| ensures name(calls[i]) != name(path) {
        assert before[i] in before;
      }
    }
  }

  lemma {:induction false} RequestsAreRootsAndReports<T>(roots: seq<string>, load: string -> Loaded<T>, calls: seq<string>)
    ensures forall p :: p in Requests(roots, load, calls) <==>
                        p in roots || exists c :: c in calls && p in Dependencies(load(c))
  {
    if calls == [] {
    } else {
      var before, path := calls[..|calls| - 1], calls[|calls| - 1];
      RequestsAreRootsAndReports(roots, load, before);
      assert calls == before + [path];
    }
  }

  /** A successful run has called a path with the name of every root and of every dependency that any call reported. */
  lemma SuccessCoversEverything<T>(name: string -> string, roots: seq<string>, load: string -> Loaded<T>, calls: seq<string>, p: string)
    requires Names(name, calls) == Names(name, Requests(roots, load, calls))
    requires p in roots || exists c :: c in calls && p in Dependencies(load(c))
    ensures exists c :: c in calls && name(c) == name(p)
  {
    RequestsAreRootsAndReports(roots, load, calls);
    NamesAreCanonical(name, Requests(roots, load, calls));
    NamesAreCanonical(name, calls);
    assert name(p) in Names(name, Requests(roots, load, calls));
  }

  /** Nothing is loaded needlessly: any set of names that holds the roots and is closed under dependencies
      holds everything that was called. */
  lemma {:induction false} OnlyTheClosureIsCalled<T>(name: string -> string, roots: seq<string>, load: string -> Loaded<T>, calls: seq<string>,
                                                     closed: set<string>)
    requires Justified(name, roots, load, calls) && Universe(name, roots, load, closed)
    ensures Names(name, calls) <= closed && Names(name, Requests(roots, load, calls)) <= closed
  {
    if calls == [] {
    } else {
      var before, path := calls[..|calls| - 1], calls[|calls| - 1];
      OnlyTheClosureIsCalled(name, roots, load, before, closed);
      NamesAreCanonical(name, Requests(roots, load, before));
      NamesOfBoth(name, Requests(roots, load, before), Dependencies(load(path)));
    }
  }
}
