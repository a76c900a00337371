/**
 * Calls of goog.require that run into a name nobody has registered yet, scripts that are registered
 * late, and paths that look like the address of a script: exactly when the loader keeps its order.
 */
module LoaderFailures {
  import opened ScriptLoader
  import opened LoaderRuns
  import LoaderRegistrations

  // ----- what a walk may push -----

  /** Only visited paths are pushed, and never one that is itself a key of deps.written. */
  ghost predicate Clean(written: set<Path>, w: Walk) {
    forall i :: 0 <= i < |w.scripts| ==> w.scripts[i] in w.visited && w.scripts[i] !in written
  }

  lemma {:induction false} VisitIsClean(g: Graph, provided: set<Name>, written: set<Path>, path: Path, w: Walk)
    requires Clean(written, w)
    ensures Clean(written, Visit(g, provided, written, path, w).walk)
    decreases g.needs.Keys - w.visited, 0
  {
    if path !in written && path !in w.visited && path in g.needs {
      VisitAllIsClean(g, provided, written, g.needs[path], w.(visited := w.visited + {path}));
    }
  }

  lemma {:induction false} VisitAllIsClean(g: Graph, provided: set<Name>, written: set<Path>, names: seq<Name>, w: Walk)
    requires Clean(written, w)
    ensures Clean(written, VisitAll(g, provided, written, names, w).walk)
    decreases g.needs.Keys - w.visited, |names|
  {
    if names != [] {
      if names[0] in provided {
        VisitAllIsClean(g, provided, written, names[1..], w);
      } else if names[0] in g.nameToPath {
        VisitIsClean(g, provided, written, g.nameToPath[names[0]], w);
        VisitAllIsClean(g, provided, written, names[1..], Visit(g, provided, written, g.nameToPath[names[0]], w).walk);
      }
    }
  }

  lemma {:induction false} IncludedAreClean(g: Graph, provided: set<Name>, written: set<Path>, paths: seq<Path>, w: Walk)
    requires Clean(written, w)
    ensures Clean(written, VisitIncluded(g, provided, written, paths, w).walk)
    ensures w.visited <= VisitIncluded(g, provided, written, paths, w).walk.visited
    decreases |paths|
  {
    if paths != [] {
      var v := if paths[0] in written then Visited(w, Done) else Visit(g, provided, written, paths[0], w);
      VisitIsClean(g, provided, written, paths[0], w);
      if v.outcome.Done? { IncludedAreClean(g, provided, written, paths[1..], v.walk); }
    }
  }

  lemma {:induction false} ImportAllWrites(s: Store, basePath: Path, scripts: seq<Path>, provided: set<Name>)
    ensures
      var t := ImportAll(s, basePath, scripts, provided).store;
      && s.log <= t.log && s.written <= t.written
      && forall x :: x in t.written ==> x in s.written || exists i :: 0 <= i < |scripts| && x == basePath + scripts[i]
    decreases |scripts|
  {
    if scripts != [] && scripts[0] != "" {
      var t := ImportScript(s, basePath + scripts[0], provided);
      ImportAllWrites(t, basePath, scripts[1..], provided);
      forall x | x in ImportAll(t, basePath, scripts[1..], provided).store.written
        ensures x in s.written || exists i :: 0 <= i < |scripts| && x == basePath + scripts[i]
      {
        if i :| 0 <= i < |scripts[1..]| && x == basePath + scripts[1..][i] { assert x == basePath + scripts[i + 1]; }
      }
    }
  }

  /** A call writes addresses of visited paths only, and of none that was a key of deps.written. */
  lemma RequireWrites(s: State, c: Call)
    ensures
      var t := Require(s, c.name, c.provided).state;
      && t.graph == s.graph && t.basePath == s.basePath && s.visited <= t.visited
      && s.store.log <= t.store.log && s.store.written <= t.store.written
      && forall x :: x in t.store.written ==>
        x in s.store.written || exists q :: q in t.visited && q !in s.store.written && x == s.basePath + q
  {
    if c.name !in c.provided && c.name in s.graph.nameToPath && s.graph.nameToPath[c.name] != "" {
      var u := Include(s, s.graph.nameToPath[c.name]);
      var v := VisitIncluded(s.graph, c.provided, s.store.written, u.included, Walk(s.visited, []));
      IncludedAreClean(s.graph, c.provided, s.store.written, u.included, Walk(s.visited, []));
      ImportAllWrites(s.store, s.basePath, v.walk.scripts, c.provided);
      hide VisitIncluded, ImportAll;
      forall x | x in Require(s, c.name, c.provided).state.store.written && x !in s.store.written
        ensures exists q :: q in v.walk.visited && q !in s.store.written && x == s.basePath + q
      {
        var i :| 0 <= i < |v.walk.scripts| && x == s.basePath + v.walk.scripts[i];
        assert v.walk.scripts[i] in v.walk.visited;
      }
    }
  }

  // ----- a path that is the address of another script -----

  /**
   * A path that is itself a key of deps.written, because it reads like the address of an imported
   * script, is never imported: not by any later sequence of calls and registrations.
   */
  lemma {:induction false} CollisionIsNeverImported(s: State, events: seq<Event>, p: Path)
    requires p in s.store.written && s.basePath + p !in s.store.written
    ensures s.basePath + p !in Run(s, events).store.written
    decreases |events|
  {
    if events != [] {
      if events[0].Required? {
        RequireWrites(s, events[0].call);
        var t := After(s, events[0]);
        if s.basePath + p in t.store.written {
          var q :| q in t.visited && q !in s.store.written && s.basePath + p == s.basePath + q;
          SameTail(s.basePath, p, q);
          assert false;
        }
      }
      CollisionIsNeverImported(After(s, events[0]), events[1..], p);
    }
  }

  /** The address of deps.js, registered as the path of a name, is such a path from the start. */
  lemma DepsAddressIsNeverImported(g: Graph, basePath: Path, events: seq<Event>)
    requires basePath != ""
    ensures basePath + (basePath + DEPS_JS) !in Run(Initial(g, basePath, false), events).store.written
  {
    var s := Initial(g, basePath, false);
    var p := basePath + DEPS_JS;
    assert s.store.written == {p};
    assert |basePath + p| == |basePath| + |p|;
    CollisionIsNeverImported(s, events, p);
  }

  /** Every included path that is no key of deps.written is pushed, unless the walk fails. */
  lemma {:induction false} IncludedIsPushed(g: Graph, provided: set<Name>, written: set<Path>, paths: seq<Path>, w: Walk, p: Path)
    requires p in paths && p !in written && VisitIncluded(g, provided, written, paths, w).outcome.Done?
    ensures p in VisitIncluded(g, provided, written, paths, w).walk.scripts
    decreases |paths|
  {
    var v := if paths[0] in written then Visited(w, Done) else Visit(g, provided, written, paths[0], w);
    if p in paths[1..] {
      IncludedIsPushed(g, provided, written, paths[1..], v.walk, p);
    } else {
      assert p == paths[0] && p in v.walk.scripts;
      var i :| 0 <= i < |v.walk.scripts| && v.walk.scripts[i] == p;
      assert VisitIncluded(g, provided, written, paths, w).walk.scripts[i] == p;
    }
  }

  lemma {:induction false} PushedIsWritten(s: Store, basePath: Path, scripts: seq<Path>, provided: set<Name>, p: Path)
    requires p in scripts && ImportAll(s, basePath, scripts, provided).outcome.Done?
    ensures basePath + p in ImportAll(s, basePath, scripts, provided).store.written
    decreases |scripts|
  {
    var t := ImportScript(s, basePath + scripts[0], provided);
    if p in scripts[1..] {
      PushedIsWritten(t, basePath, scripts[1..], provided, p);
    } else {
      ImportAllWrites(t, basePath, scripts[1..], provided);
    }
  }

  /**
   * A goog.require call that comes to its end, for a name that was not provided, has the script of
   * the name imported exactly when its path was no key of deps.written, or was imported already.
   * This holds of every state and every graph.
   */
  lemma RequiredIsImportedExactlyWhen(s: State, c: Call)
    requires c.name !in c.provided && Require(s, c.name, c.provided).outcome.Done?
    ensures c.name in s.graph.nameToPath
    ensures
      var p := s.graph.nameToPath[c.name];
      IsImported(Require(s, c.name, c.provided).state, c.name) <==> (p in s.store.written ==> s.basePath + p in s.store.written)
  {
    var p := s.graph.nameToPath[c.name];
    RequireWrites(s, c);
    if p in s.store.written {
      if s.basePath + p !in s.store.written {
        CollisionIsNeverImported(s, [Required(c)], p);
        assert Run(s, [Required(c)]) == Run(After(s, Required(c)), []);
      }
    } else {
      var t := Include(s, p);
      var v := VisitIncluded(s.graph, c.provided, s.store.written, t.included, Walk(s.visited, []));
      IncludedIsPushed(s.graph, c.provided, s.store.written, t.included, Walk(s.visited, []), p);
      PushedIsWritten(s.store, s.basePath, v.walk.scripts, c.provided, p);
    }
  }

  /**
   * A name that is provided needs nothing done. One that nobody has registered, or only for an empty path,
   * is not found, and nothing is changed. Any other path is included, and whatever else the call does,
   * it registers nothing and forgets nothing.
   */
  lemma RequireAnswers(s: State, c: Call)
    ensures
      var r, g := Require(s, c.name, c.provided), s.graph.nameToPath;
      && (c.name in c.provided ==> r.outcome == Done && r.state == s)
      && (c.name !in c.provided ==> (r.outcome == CouldNotFind(c.name) <==> c.name !in g || g[c.name] == ""))
      && (r.outcome.CouldNotFind? ==> r.outcome.name == c.name && r.state == s)
      && (c.name !in c.provided && !r.outcome.CouldNotFind? ==>
            g[c.name] in r.state.included && forall p :: p in r.state.included <==> p in s.included || p == g[c.name])
      && r.state.graph == s.graph && r.state.basePath == s.basePath
      && s.visited <= r.state.visited && s.store.log <= r.state.store.log && s.store.written <= r.state.store.written
  {
    RequireWrites(s, c);
    if c.name !in c.provided && c.name in s.graph.nameToPath && s.graph.nameToPath[c.name] != "" {
      WritesFindNothing(Include(s, s.graph.nameToPath[c.name]), c.provided);
      IncludeAdds(s, s.graph.nameToPath[c.name]);
    }
    hide Include, WriteScripts;
  }

  lemma IncludeAdds(s: State, path: Path)
    ensures forall p :: p in Include(s, path).included <==> p in s.included || p == path
  {
    var t := Include(s, path);
    if path !in s.included { assert t.included[|s.included|] == path; }
  }

  lemma {:induction false} ImportsAreFound(s: Store, basePath: Path, scripts: seq<Path>, provided: set<Name>)
    ensures !ImportAll(s, basePath, scripts, provided).outcome.CouldNotFind?
    decreases |scripts|
  {
    if scripts != [] && scripts[0] != "" {
      ImportsAreFound(ImportScript(s, basePath + scripts[0], provided), basePath, scripts[1..], provided);
    }
  }

  lemma WritesFindNothing(t: State, provided: set<Name>)
    ensures !WriteScripts(t, provided).outcome.CouldNotFind? && WriteScripts(t, provided).state.included == t.included
  {
    var v := VisitIncluded(t.graph, provided, t.store.written, t.included, Walk(t.visited, []));
    ImportsAreFound(t.store, t.basePath, v.walk.scripts, provided);
  }

  // ----- a call that fails -----

  /** Every written address belongs to a visited path, or to deps.js, which needs nothing. */
  ghost predicate Traced(s: State) {
    && DEPS_JS !in s.graph.needs
    && forall x :: x in s.store.written ==> exists q :: (q in s.visited || q == DEPS_JS) && x == s.basePath + q
  }

  lemma RequireKeepsTraced(s: State, c: Call)
    requires Traced(s)
    ensures Traced(Require(s, c.name, c.provided).state)
  {
    RequireWrites(s, c);
    var t := Require(s, c.name, c.provided).state;
    hide Require;
    forall x | x in t.store.written ensures exists q :: (q in t.visited || q == DEPS_JS) && x == t.basePath + q {
      if x in s.store.written {
        var q :| (q in s.visited || q == DEPS_JS) && x == s.basePath + q;
        assert q in t.visited || q == DEPS_JS;
      }
    }
  }

  /** The path needs the name, which is unregistered or registered for a path first seen in this walk. */
  ghost predicate Unmet(g: Graph, provided: set<Name>, written: set<Path>, visited: set<Path>, n: Name) {
    n !in provided && (n in g.nameToPath ==> g.nameToPath[n] !in written && g.nameToPath[n] !in visited && g.nameToPath[n] in g.needs)
  }

  lemma {:induction false} VisitFails(g: Graph, provided: set<Name>, written: set<Path>, path: Path, w: Walk) returns (n: Name)
    requires !Visit(g, provided, written, path, w).outcome.Done?
    ensures path !in written && path !in w.visited && path in Visit(g, provided, written, path, w).walk.visited
    ensures path in g.needs && n in g.needs[path] && Unmet(g, provided, written, w.visited + {path}, n)
    decreases g.needs.Keys - w.visited, 0
  {
    n := VisitAllFails(g, provided, written, g.needs[path], w.(visited := w.visited + {path}));
  }

  lemma {:induction false} VisitAllFails(g: Graph, provided: set<Name>, written: set<Path>, names: seq<Name>, w: Walk) returns (n: Name)
    requires !VisitAll(g, provided, written, names, w).outcome.Done?
    ensures n in names && Unmet(g, provided, written, w.visited, n)
    decreases g.needs.Keys - w.visited, |names|
  {
    if names[0] in provided {
      n := VisitAllFails(g, provided, written, names[1..], w);
    } else if names[0] !in g.nameToPath {
      n := names[0];
    } else {
      var v := Visit(g, provided, written, g.nameToPath[names[0]], w);
      if v.outcome.Done? {
        n := VisitAllFails(g, provided, written, names[1..], v.walk);
      } else {
        var below := VisitFails(g, provided, written, g.nameToPath[names[0]], w);
        n := names[0];
      }
    }
  }

  /** The included path at the bottom of the failing call stack, the walk that reached it, and what it lacks. */
  lemma {:induction false} IncludedFail(g: Graph, provided: set<Name>, written: set<Path>, paths: seq<Path>, w: Walk)
    returns (k: nat, before: set<Path>, n: Name)
    requires !VisitIncluded(g, provided, written, paths, w).outcome.Done?
    ensures k < |paths| && paths[k] in VisitIncluded(g, provided, written, paths, w).walk.visited
    ensures w.visited <= before <= VisitIncluded(g, provided, written, paths, w).walk.visited
    ensures paths[k] !in written && paths[k] !in before && forall j :: 0 <= j < k ==> paths[j] in written || paths[j] in before
    ensures paths[k] in g.needs && n in g.needs[paths[k]] && Unmet(g, provided, written, before + {paths[k]}, n)
    decreases |paths|
  {
    var v := if paths[0] in written then Visited(w, Done) else Visit(g, provided, written, paths[0], w);
    if v.outcome.Done? {
      var k' := 0;
      k', before, n := IncludedFail(g, provided, written, paths[1..], v.walk);
      k := k' + 1;
      assert paths[0] in written || paths[0] in v.walk.visited;
      assert forall j :: 1 <= j <= k ==> paths[j] == paths[1..][j - 1];
    } else {
      k, before := 0, w.visited;
      n := VisitFails(g, provided, written, paths[0], w);
    }
  }

  /**
   * The k-th included path stays marked but unwritten, everything included before it is marked or
   * written, and it needs a name whose script, if there is one, is neither written nor included so far.
   */
  ghost predicate Stuck(s: State, k: nat, n: Name) {
    && k < |s.included| && "" !in s.included
    && var p := s.included[k];
    && p in s.visited && p !in s.store.written && s.basePath + p !in s.store.written
    && (forall j :: 0 <= j < k ==> s.included[j] != p && (s.included[j] in s.store.written || s.included[j] in s.visited))
    && p in s.graph.needs && n in s.graph.needs[p]
    && (n in s.graph.nameToPath ==>
          var q := s.graph.nameToPath[n];
          s.basePath + q !in s.store.written && forall j :: 0 <= j <= k ==> s.included[j] != q)
  }

  lemma Unwritten(s: State, p: Path)
    requires Traced(s) && p !in s.visited && p in s.graph.needs
    ensures s.basePath + p !in s.store.written
  {
    if s.basePath + p in s.store.written {
      var q :| (q in s.visited || q == DEPS_JS) && s.basePath + p == s.basePath + q;
      SameTail(s.basePath, p, q);
      assert false;
    }
  }

  /** After a call that ran into an unregistered name some included script is stuck. */
  lemma FailureSticks(s: State, c: Call) returns (k: nat, n: Name)
    requires Traced(s) && "" !in s.included && Require(s, c.name, c.provided).outcome.UndefinedNameToPath?
    ensures Stuck(Require(s, c.name, c.provided).state, k, n) && n !in c.provided
  {
    var t := Include(s, s.graph.nameToPath[c.name]);
    var w := Walk(s.visited, []);
    RequireOutcome(s, c);
    var before;
    k, before, n := IncludedFail(s.graph, c.provided, s.store.written, t.included, w);
    Unwritten(s, t.included[k]);
    if n in s.graph.nameToPath { Unwritten(s, s.graph.nameToPath[n]); }
  }

  /** An import never runs into an unregistered name. */
  lemma {:induction false} ImportOutcome(s: Store, basePath: Path, scripts: seq<Path>, provided: set<Name>)
    ensures !ImportAll(s, basePath, scripts, provided).outcome.UndefinedNameToPath?
    decreases |scripts|
  {
    if scripts != [] && scripts[0] != "" {
      ImportOutcome(ImportScript(s, basePath + scripts[0], provided), basePath, scripts[1..], provided);
    }
  }

  lemma RequireOutcome(s: State, c: Call)
    requires Require(s, c.name, c.provided).outcome.UndefinedNameToPath?
    ensures c.name in s.graph.nameToPath && s.graph.nameToPath[c.name] != ""
    ensures
      var t := Include(s, s.graph.nameToPath[c.name]);
      var v := VisitIncluded(s.graph, c.provided, s.store.written, t.included, Walk(s.visited, []));
      !v.outcome.Done? && Require(s, c.name, c.provided).state == t.(visited := v.walk.visited)
  {
    var t := Include(s, s.graph.nameToPath[c.name]);
    var v := VisitIncluded(s.graph, c.provided, s.store.written, t.included, Walk(s.visited, []));
    ImportOutcome(s.store, s.basePath, v.walk.scripts, c.provided);
  }

  /** A walk stops at a name that is neither provided nor registered, and that a visited path needs. */
  lemma {:induction false} VisitNamesCulprit(g: Graph, provided: set<Name>, written: set<Path>, path: Path, w: Walk) returns (p: Path)
    requires Visit(g, provided, written, path, w).outcome.UndefinedNameToPath?
    ensures
      var v := Visit(g, provided, written, path, w);
      p in v.walk.visited && p in g.needs && v.outcome.name in g.needs[p] && v.outcome.name !in provided && v.outcome.name !in g.nameToPath
    decreases g.needs.Keys - w.visited, 0
  {
    p := VisitAllNamesCulprit(g, provided, written, path, g.needs[path], w.(visited := w.visited + {path}));
  }

  lemma {:induction false} VisitAllNamesCulprit(g: Graph, provided: set<Name>, written: set<Path>, path: Path, names: seq<Name>, w: Walk)
    returns (p: Path)
    requires VisitAll(g, provided, written, names, w).outcome.UndefinedNameToPath?
    requires path in w.visited && path in g.needs && forall n :: n in names ==> n in g.needs[path]
    ensures
      var v := VisitAll(g, provided, written, names, w);
      p in v.walk.visited && p in g.needs && v.outcome.name in g.needs[p] && v.outcome.name !in provided && v.outcome.name !in g.nameToPath
    decreases g.needs.Keys - w.visited, |names|
  {
    p := path;
    if names[0] in provided {
      p := VisitAllNamesCulprit(g, provided, written, path, names[1..], w);
    } else if names[0] in g.nameToPath {
      var v := Visit(g, provided, written, g.nameToPath[names[0]], w);
      if v.outcome.Done? {
        p := VisitAllNamesCulprit(g, provided, written, path, names[1..], v.walk);
      } else {
        p := VisitNamesCulprit(g, provided, written, g.nameToPath[names[0]], w);
      }
    }
  }

  lemma {:induction false} IncludedNameCulprit(g: Graph, provided: set<Name>, written: set<Path>, paths: seq<Path>, w: Walk) returns (p: Path)
    requires VisitIncluded(g, provided, written, paths, w).outcome.UndefinedNameToPath?
    ensures
      var v := VisitIncluded(g, provided, written, paths, w);
      p in v.walk.visited && p in g.needs && v.outcome.name in g.needs[p] && v.outcome.name !in provided && v.outcome.name !in g.nameToPath
    decreases |paths|
  {
    var v := if paths[0] in written then Visited(w, Done) else Visit(g, provided, written, paths[0], w);
    if v.outcome.Done? {
      p := IncludedNameCulprit(g, provided, written, paths[1..], v.walk);
    } else {
      p := VisitNamesCulprit(g, provided, written, paths[0], w);
    }
  }

  /** The name in the error is one that a visited script needs, that is not provided and that nobody has registered. */
  lemma FailureNamesCulprit(s: State, c: Call) returns (p: Path)
    requires Require(s, c.name, c.provided).outcome.UndefinedNameToPath?
    ensures
      var r := Require(s, c.name, c.provided);
      var n := r.outcome.name;
      p in r.state.visited && p in s.graph.needs && n in s.graph.needs[p] && n !in c.provided && n !in s.graph.nameToPath
  {
    RequireOutcome(s, c);
    var t := Include(s, s.graph.nameToPath[c.name]);
    p := IncludedNameCulprit(s.graph, c.provided, s.store.written, t.included, Walk(s.visited, []));
    SameOutcome(s, c);
  }

  lemma SameOutcome(s: State, c: Call)
    requires Require(s, c.name, c.provided).outcome.UndefinedNameToPath?
    requires c.name in s.graph.nameToPath && s.graph.nameToPath[c.name] != ""
    ensures
      var t := Include(s, s.graph.nameToPath[c.name]);
      VisitIncluded(s.graph, c.provided, s.store.written, t.included, Walk(s.visited, [])).outcome == Require(s, c.name, c.provided).outcome
  {
    var t := Include(s, s.graph.nameToPath[c.name]);
    var v := VisitIncluded(s.graph, c.provided, s.store.written, t.included, Walk(s.visited, []));
    ImportOutcome(s.store, s.basePath, v.walk.scripts, c.provided);
  }

  // ----- what becomes of a stuck script -----

  /** The paths before the k-th are only pushed, since all were visited, and so is the k-th itself. */
  lemma {:induction false} PushedBare(g: Graph, provided: set<Name>, written: set<Path>, paths: seq<Path>, k: nat, w: Walk, front: seq<Path>)
    returns (m: nat)
    requires k < |paths| && paths[k] in w.visited && paths[k] !in written && paths[k] !in front
    requires forall j :: 0 <= j < k ==> paths[j] != paths[k] && (paths[j] in written || paths[j] in w.visited)
    requires forall i :: 0 <= i < |w.scripts| ==> w.scripts[i] in front
    ensures
      var scripts := VisitIncluded(g, provided, written, paths, w).walk.scripts;
      && m < |scripts| && scripts[m] == paths[k]
      && forall i :: 0 <= i < m ==> scripts[i] in front || exists j :: 0 <= j < k && scripts[i] == paths[j]
    decreases k
  {
    if k == 0 {
      m := |w.scripts|;
      assert Visit(g, provided, written, paths[0], w) == Visited(Pushed(w, paths[0]), Done);
    } else {
      var v := if paths[0] in written then Visited(w, Done) else Visit(g, provided, written, paths[0], w);
      var next := front + [paths[0]];
      m := PushedBare(g, provided, written, paths[1..], k - 1, v.walk, next);
      var scripts := VisitIncluded(g, provided, written, paths, w).walk.scripts;
      forall i | 0 <= i < m ensures scripts[i] in front || exists j :: 0 <= j < k && scripts[i] == paths[j] {
        if scripts[i] !in front {
          if scripts[i] == paths[0] {
          } else {
            var j :| 0 <= j < k - 1 && scripts[i] == paths[1..][j];
            assert scripts[i] == paths[j + 1];
          }
        }
      }
    }
  }

  lemma {:induction false} ScriptsAreNames(g: Graph, provided: set<Name>, written: set<Path>, paths: seq<Path>, w: Walk)
    requires "" !in w.scripts && "" !in paths && Usable(g)
    ensures "" !in VisitIncluded(g, provided, written, paths, w).walk.scripts
    decreases |paths|
  {
    if paths != [] {
      var v := if paths[0] in written then Visited(w, Done) else Visit(g, provided, written, paths[0], w);
      if paths[0] !in written { VisitPushesNames(g, provided, written, paths[0], w); }
      if v.outcome.Done? { ScriptsAreNames(g, provided, written, paths[1..], v.walk); }
    }
  }

  lemma {:induction false} VisitPushesNames(g: Graph, provided: set<Name>, written: set<Path>, path: Path, w: Walk)
    requires "" !in w.scripts && path != "" && Usable(g)
    ensures "" !in Visit(g, provided, written, path, w).walk.scripts
    decreases g.needs.Keys - w.visited, 0
  {
    if path !in written && path !in w.visited && path in g.needs {
      VisitAllPushesNames(g, provided, written, path, g.needs[path], w.(visited := w.visited + {path}));
    }
  }

  lemma {:induction false} VisitAllPushesNames(g: Graph, provided: set<Name>, written: set<Path>, path: Path, names: seq<Name>, w: Walk)
    requires "" !in w.scripts && Usable(g) && path in g.needs && forall n :: n in names ==> n in g.needs[path]
    ensures "" !in VisitAll(g, provided, written, names, w).walk.scripts
    decreases g.needs.Keys - w.visited, |names|
  {
    if names != [] {
      if names[0] in provided {
        VisitAllPushesNames(g, provided, written, path, names[1..], w);
      } else if names[0] in g.nameToPath {
        VisitPushesNames(g, provided, written, g.nameToPath[names[0]], w);
        VisitAllPushesNames(g, provided, written, path, names[1..], Visit(g, provided, written, g.nameToPath[names[0]], w).walk);
      }
    }
  }

  /** The script at m is imported at a place of the log before which no other script than those before m was added. */
  lemma {:induction false} ImportedBare(s: Store, basePath: Path, scripts: seq<Path>, provided: set<Name>, m: nat) returns (i: nat)
    requires m < |scripts| && "" !in scripts && basePath + scripts[m] !in s.written
    requires forall j :: 0 <= j < m ==> scripts[j] != scripts[m]
    ensures
      var log := ImportAll(s, basePath, scripts, provided).store.log;
      && |s.log| <= i < |log| && log[i] == Import(basePath + scripts[m], provided)
      && forall j :: |s.log| <= j < i ==> exists l :: 0 <= l < m && log[j].src == basePath + scripts[l]
    decreases m
  {
    var t := ImportScript(s, basePath + scripts[0], provided);
    ImportAllWrites(t, basePath, scripts[1..], provided);
    var log := ImportAll(s, basePath, scripts, provided).store.log;
    assert log == ImportAll(t, basePath, scripts[1..], provided).store.log;
    if m == 0 {
      i := |s.log|;
      assert t.log[i] == log[i];
    } else {
      if basePath + scripts[0] == basePath + scripts[m] { SameTail(basePath, scripts[0], scripts[m]); }
      i := ImportedBare(t, basePath, scripts[1..], provided, m - 1);
      forall j | |s.log| <= j < i ensures exists l :: 0 <= l < m && log[j].src == basePath + scripts[l] {
        if j < |t.log| {
          assert log[j] == t.log[j] && log[j].src == basePath + scripts[0];
        } else {
          var rest := ImportAll(t, basePath, scripts[1..], provided).store.log;
          assert log[j] == rest[j];
          var l :| 0 <= l < m - 1 && rest[j].src == basePath + scripts[1..][l];
          assert log[j].src == basePath + scripts[l + 1];
        }
      }
    }
  }

  /** The i-th import is that of a script which needs a name that was not provided and not imported before. */
  ghost predicate Broken(s: State, i: nat, p: Path, n: Name) {
    && i < |s.store.log| && s.store.log[i].src == s.basePath + p && n !in s.store.log[i].provided
    && p in s.graph.needs && n in s.graph.needs[p]
    && (n in s.graph.nameToPath ==> !ImportedBefore(s.store.log, i, s.basePath + s.graph.nameToPath[n]))
  }

  lemma BrokenIsOutOfOrder(s: State, i: nat, p: Path, n: Name)
    requires Broken(s, i, p, n)
    ensures !InOrder(s.graph, s.basePath, s.store.log)
  {
    assert !EntryInOrder(s.graph, s.basePath, s.store.log, i);
  }

  /** A later call that imports anything imports the stuck script bare. */
  lemma StuckBreaks(s: State, k: nat, n: Name, c: Call) returns (i: nat)
    requires Stuck(s, k, n) && EachOnce(s.store) && Usable(s.graph)
    requires c.name !in c.provided && c.name in s.graph.nameToPath && s.graph.nameToPath[c.name] != ""
    requires !Require(s, c.name, c.provided).outcome.UndefinedNameToPath? && n !in c.provided
    ensures Broken(Require(s, c.name, c.provided).state, i, s.included[k], n)
  {
    var t := Include(s, s.graph.nameToPath[c.name]);
    var w := Walk(s.visited, []);
    var v := VisitIncluded(s.graph, c.provided, s.store.written, t.included, w);
    var m := PushedBare(s.graph, c.provided, s.store.written, t.included, k, w, []);
    ScriptsAreNames(s.graph, c.provided, s.store.written, t.included, w);
    i := ImportedBare(s.store, s.basePath, v.walk.scripts, c.provided, m);
    ImportAllWrites(s.store, s.basePath, v.walk.scripts, c.provided);
    var u := Require(s, c.name, c.provided).state;
    assert u.store == ImportAll(s.store, s.basePath, v.walk.scripts, c.provided).store;
    hide VisitIncluded, ImportAll, Require;
    if n in s.graph.nameToPath {
      var q := s.graph.nameToPath[n];
      forall j | 0 <= j < i ensures u.store.log[j].src != s.basePath + q {
        if j < |s.store.log| {
          assert u.store.log[j] == s.store.log[j];
        } else if u.store.log[j].src == s.basePath + q {
          var l :| 0 <= l < m && u.store.log[j].src == s.basePath + v.walk.scripts[l];
          SameTail(s.basePath, q, v.walk.scripts[l]);
          assert false;
        }
      }
    }
  }

  // ----- registering more scripts -----

  /** The script that is registered is one the loader has not looked at yet, and no name is moved to it. */
  ghost predicate Gentle(s: State, e: Event) {
    e.Added? ==>
      var path := Slashes(e.relPath);
      && path !in s.visited && path !in s.included && s.basePath + path !in s.store.written
      && forall n :: n in UpToEmpty(e.offers) && n in s.graph.nameToPath ==> s.graph.nameToPath[n] == path
  }

  ghost predicate GentleRun(s: State, events: seq<Event>)
    decreases |events|
  {
    events == [] || (Gentle(s, events[0]) && GentleRun(After(s, events[0]), events[1..]))
  }

  /** A goog.require call ran into a name that was not registered at that time. */
  predicate Fails(s: State, e: Event) {
    e.Required? && Require(s, e.call.name, e.call.provided).outcome.UndefinedNameToPath?
  }

  predicate NoneFails(s: State, events: seq<Event>)
    decreases |events|
  {
    events == [] || (!Fails(s, events[0]) && NoneFails(After(s, events[0]), events[1..]))
  }

  ghost predicate GraphGrows(g: Graph, h: Graph) {
    && (forall n :: n in g.nameToPath ==> n in h.nameToPath && h.nameToPath[n] == g.nameToPath[n])
    && (forall p :: p in g.needs ==> p in h.needs && g.needs[p] <= h.needs[p])
  }

  /** Nothing that was registered is lost, and only the new script needs something new. */
  lemma GentleGrows(s: State, e: Event)
    requires Gentle(s, e)
    ensures
      var t := After(s, e);
      && t.basePath == s.basePath && GraphGrows(s.graph, t.graph)
      && (e.Added? ==>
            var path := Slashes(e.relPath);
            && (forall p :: p in t.graph.needs && p != path ==> p in s.graph.needs && t.graph.needs[p] == s.graph.needs[p])
            && (forall n :: n in t.graph.nameToPath && n !in s.graph.nameToPath ==> t.graph.nameToPath[n] == path))
  {
    match e
    case Required(c) => RequireWrites(s, c);
    case Added(relPath, offers, needed) =>
      LoaderRegistrations.ProvideAdds(s.graph.nameToPath, UpToEmpty(offers), Slashes(relPath));
      LoaderRegistrations.NeedAdds(s.graph.needs, UpToEmpty(needed), Slashes(relPath));
  }

  lemma {:induction false} GentleRunGrows(s: State, events: seq<Event>)
    requires GentleRun(s, events)
    ensures GraphGrows(s.graph, Run(s, events).graph)
    decreases |events|
  {
    if events != [] {
      GentleGrows(s, events[0]);
      GentleRunGrows(After(s, events[0]), events[1..]);
    }
  }

  /** What the scripts must be like: no cycle, no empty path, no path that reads like an address. */
  ghost predicate Proper(g: Graph, basePath: Path, rank: Path -> nat) {
    Usable(g) && NoCollision(g, basePath) && Ranked(g, rank) && DEPS_JS !in g.needs
  }

  lemma ProperBefore(g: Graph, h: Graph, basePath: Path, rank: Path -> nat)
    requires GraphGrows(g, h) && Proper(h, basePath, rank)
    ensures Proper(g, basePath, rank)
  {
    forall p, n | p in g.needs && n in g.needs[p] ensures p in h.needs && n in h.needs[p] {
    }
    forall p | p in g.nameToPath.Values ensures p in h.nameToPath.Values {
      var n :| n in g.nameToPath && g.nameToPath[n] == p;
      assert h.nameToPath[n] == p;
    }
  }

  // ----- late registration without a failure is harmless -----

  lemma WrittenIsLogged(s: Store, src: Path, i: nat)
    requires EachOnce(s) && i < |s.log|
    ensures s.log[i].src in s.written
  {
  }

  lemma AddingKeepsInv(s: State, e: Event)
    requires Inv(s) && e.Added? && Gentle(s, e)
    ensures Inv(After(s, e))
  {
    var t := After(s, e);
    GentleGrows(s, e);
    hide Registered, Gentle;
    forall p | p in s.graph.nameToPath.Values ensures p in t.graph.nameToPath.Values {
      var n :| n in s.graph.nameToPath && s.graph.nameToPath[n] == p;
      assert t.graph.nameToPath[n] == p;
    }
    forall x | x in s.store.written ensures Addressed(t.graph, t.basePath, x) {
      var p :| Known(s.graph, p) && x == s.basePath + p;
      assert Known(t.graph, p);
    }
    forall i | 0 <= i < |s.store.log| ensures EntryInOrder(t.graph, t.basePath, s.store.log, i) {
      EntryStaysInOrder(s, e, i);
    }
  }

  lemma EntryStaysInOrder(s: State, e: Event, i: nat)
    requires Inv(s) && e.Added? && Gentle(s, e) && i < |s.store.log|
    ensures EntryInOrder(After(s, e).graph, s.basePath, s.store.log, i)
  {
    var g := After(s, e).graph;
    GentleGrows(s, e);
    WrittenIsLogged(s.store, s.store.log[i].src, i);
    assert EntryInOrder(s.graph, s.basePath, s.store.log, i);
    hide Registered;
    forall p, n | s.store.log[i].src == s.basePath + p && p in g.needs && n in g.needs[p] && n !in s.store.log[i].provided
      ensures n in g.nameToPath && ImportedBefore(s.store.log, i, s.basePath + g.nameToPath[n])
    {
      assert p != Slashes(e.relPath);
    }
  }

  /** Registering new scripts between the calls loses nothing, as long as no call runs into an unregistered name. */
  lemma {:induction false} LateRegistrationIsHarmless(s: State, rank: Path -> nat, events: seq<Event>)
    requires Inv(s) && GentleRun(s, events) && NoneFails(s, events)
    requires Proper(Run(s, events).graph, s.basePath, rank)
    ensures Inv(Run(s, events))
    decreases |events|
  {
    if events != [] {
      GentleRunGrows(s, events);
      ProperBefore(s.graph, Run(s, events).graph, s.basePath, rank);
      GentleGrows(s, events[0]);
      if events[0].Required? {
        RequireKeepsInv(s, rank, events[0].call);
      } else {
        AddingKeepsInv(s, events[0]);
      }
      LateRegistrationIsHarmless(After(s, events[0]), rank, events[1..]);
    }
  }

  // ----- a failure is never made good -----

  /** A name that a script needs counts as provided in a call only once the script of that name has been imported. */
  ghost predicate OnlyImportsProvide(s: State, g: Graph, events: seq<Event>)
    decreases |events|
  {
    events == [] ||
    (&& (events[0].Required? ==> forall p, n :: p in g.needs && n in g.needs[p] && n in events[0].call.provided ==> IsImported(s, n))
     && OnlyImportsProvide(After(s, events[0]), g, events[1..]))
  }

  /** After the first call that fails, no name that a script needs is provided by anything else than its own script. */
  ghost predicate NothingBootstrapped(s: State, g: Graph, events: seq<Event>)
    decreases |events|
  {
    events == [] ||
    (if Fails(s, events[0]) then OnlyImportsProvide(After(s, events[0]), g, events[1..])
     else NothingBootstrapped(After(s, events[0]), g, events[1..]))
  }

  /** Where only imports provide at all, nothing is bootstrapped after a failure. */
  lemma {:induction false} OnlyImportsBootstrapNothing(s: State, g: Graph, events: seq<Event>)
    requires OnlyImportsProvide(s, g, events)
    ensures NothingBootstrapped(s, g, events)
    decreases |events|
  {
    if events != [] { OnlyImportsBootstrapNothing(After(s, events[0]), g, events[1..]); }
  }

  ghost predicate Lost(s: State, k: nat, p: Path, n: Name) {
    EachOnce(s.store) && ((Stuck(s, k, n) && s.included[k] == p) || exists i :: Broken(s, i, p, n))
  }

  lemma LostByAdding(s: State, k: nat, p: Path, n: Name, e: Event)
    requires Lost(s, k, p, n) && e.Added? && Gentle(s, e)
    ensures Lost(After(s, e), k, p, n)
  {
    var t := After(s, e);
    GentleGrows(s, e);
    hide Registered;
    if i :| Broken(s, i, p, n) {
      if n in t.graph.nameToPath && n !in s.graph.nameToPath {
        var q := s.basePath + t.graph.nameToPath[n];
        assert forall j :: 0 <= j < i ==> s.store.log[j].src in s.store.written;
        assert !ImportedBefore(s.store.log, i, q);
      }
      assert Broken(t, i, p, n);
    } else {
      assert Stuck(t, k, n);
    }
  }

  lemma BrokenStays(s: State, i: nat, p: Path, n: Name, c: Call)
    requires Broken(s, i, p, n)
    ensures Broken(Require(s, c.name, c.provided).state, i, p, n)
  {
    RequireWrites(s, c);
    var t := Require(s, c.name, c.provided).state;
    hide Require;
    assert t.store.log[i] == s.store.log[i];
    if n in s.graph.nameToPath {
      var q := s.basePath + s.graph.nameToPath[n];
      assert forall j :: 0 <= j < i ==> t.store.log[j] == s.store.log[j];
    }
  }

  lemma RequireKeepsOnce(s: State, c: Call)
    requires EachOnce(s.store)
    ensures EachOnce(Require(s, c.name, c.provided).state.store)
  {
    NothingIsImportedTwice(s, [Required(c)]);
    assert Run(s, [Required(c)]) == Run(After(s, Required(c)), []);
  }

  lemma LostByRequiring(s: State, k: nat, p: Path, n: Name, c: Call)
    requires Lost(s, k, p, n) && Usable(s.graph) && (n in c.provided ==> IsImported(s, n))
    ensures Lost(Require(s, c.name, c.provided).state, k, p, n)
  {
    RequireKeepsOnce(s, c);
    var r := Require(s, c.name, c.provided);
    if i :| Broken(s, i, p, n) {
      BrokenStays(s, i, p, n, c);
    } else if c.name !in c.provided && c.name in s.graph.nameToPath && s.graph.nameToPath[c.name] != "" {
      if r.outcome.UndefinedNameToPath? {
        RequireOutcome(s, c);
        RequireWrites(s, c);
        hide Require;
        assert Stuck(r.state, k, n);
      } else {
        var i := StuckBreaks(s, k, n, c);
      }
    }
  }

  lemma {:induction false} LostForGood(s: State, k: nat, p: Path, n: Name, events: seq<Event>)
    requires Lost(s, k, p, n) && GentleRun(s, events) && Usable(Run(s, events).graph)
    requires OnlyImportsProvide(s, Run(s, events).graph, events)
    requires p in Run(s, events).graph.needs && n in Run(s, events).graph.needs[p]
    ensures Lost(Run(s, events), k, p, n)
    decreases |events|
  {
    if events != [] {
      GentleRunGrows(s, events);
      UsableBefore(s.graph, Run(s, events).graph);
      if events[0].Required? {
        LostByRequiring(s, k, p, n, events[0].call);
      } else {
        LostByAdding(s, k, p, n, events[0]);
      }
      LostForGood(After(s, events[0]), k, p, n, events[1..]);
    }
  }

  lemma UsableBefore(g: Graph, h: Graph)
    requires GraphGrows(g, h) && Usable(h)
    ensures Usable(g)
  {
    forall p, n | p in g.needs && n in g.needs[p] ensures p in h.needs && n in h.needs[p] {
    }
  }

  lemma LostIsNotKept(s: State, k: nat, p: Path, n: Name)
    requires Lost(s, k, p, n)
    ensures !KeepsOrder(s)
  {
    if i :| Broken(s, i, p, n) {
      BrokenIsOutOfOrder(s, i, p, n);
    } else {
      assert s.included[k] in s.visited;
    }
  }

  /** Both promises about the order: whatever was visited was written, after what it needs. */
  ghost predicate KeepsOrder(s: State) {
    AllWritten(s.basePath, s.visited, s.store.written) && InOrder(s.graph, s.basePath, s.store.log)
  }

  lemma {:induction false} OrderKeptExactlyWhen(s: State, rank: Path -> nat, events: seq<Event>)
    requires Inv(s) && Traced(s) && GentleRun(s, events)
    requires Proper(Run(s, events).graph, s.basePath, rank) && NothingBootstrapped(s, Run(s, events).graph, events)
    ensures KeepsOrder(Run(s, events)) <==> NoneFails(s, events)
    decreases |events|
  {
    if NoneFails(s, events) {
      LateRegistrationIsHarmless(s, rank, events);
    } else {
      var t, end := After(s, events[0]), Run(s, events);
      GentleRunGrows(s, events);
      GentleRunGrows(t, events[1..]);
      GentleGrows(s, events[0]);
      ProperBefore(s.graph, end.graph, s.basePath, rank);
      ProperBefore(t.graph, end.graph, s.basePath, rank);
      if Fails(s, events[0]) {
        FailureIsNeverMadeGood(s, events);
      } else {
        if events[0].Required? {
          RequireKeepsTraced(s, events[0].call);
          RequireKeepsInv(s, rank, events[0].call);
        } else {
          AddingKeepsInv(s, events[0]);
        }
        OrderKeptExactlyWhen(t, rank, events[1..]);
      }
    }
  }

  /**
   * A call that runs into an unregistered name loses the order for good, in any graph: however the
   * name is registered afterwards and whatever is required, and while imported scripts provide their
   * names, in the end some script is still marked as visited without being imported, or was
   * imported without a script it needs.
   */
  lemma FailureIsNeverMadeGood(s: State, events: seq<Event>)
    requires EachOnce(s.store) && Traced(s) && "" !in s.included && events != [] && Fails(s, events[0]) && GentleRun(s, events)
    requires Usable(Run(s, events).graph) && NothingBootstrapped(s, Run(s, events).graph, events)
    ensures !KeepsOrder(Run(s, events))
  {
    var c := events[0].call;
    var t := Require(s, c.name, c.provided).state;
    var k, n := FailureSticks(s, c);
    RequireKeepsOnce(s, c);
    GentleRunGrows(t, events[1..]);
    var p := t.included[k];
    assert p in Run(s, events).graph.needs && n in Run(s, events).graph.needs[p];
    LostForGood(t, k, p, n, events[1..]);
    LostIsNotKept(Run(s, events), k, p, n);
  }

  /**
   * On scripts without a cycle, registered beforehand or between the calls, a sequence of
   * goog.require calls keeps the order of imports exactly when none of them runs into a name that
   * is not registered yet.
   */
  lemma ScriptsComeInOrderExactlyWhen(g: Graph, basePath: Path, noDeps: bool, rank: Path -> nat, events: seq<Event>)
    requires GentleRun(Initial(g, basePath, noDeps), events)
    requires
      var h := Run(Initial(g, basePath, noDeps), events).graph;
      Proper(h, basePath, rank) && NothingBootstrapped(Initial(g, basePath, noDeps), h, events)
    ensures KeepsOrder(Run(Initial(g, basePath, noDeps), events)) <==> NoneFails(Initial(g, basePath, noDeps), events)
  {
    var s := Initial(g, basePath, noDeps);
    GentleRunGrows(s, events);
    ProperBefore(g, Run(s, events).graph, basePath, rank);
    InitialInv(g, basePath, noDeps);
    assert Traced(s) by {
      assert forall x :: x in s.store.written ==> x == basePath + DEPS_JS;
    }
    OrderKeptExactlyWhen(s, rank, events);
  }

  // ----- instances -----

  /**
   * The same call made again when the missing name is provided by other means: the script is
   * imported in order although the first call failed.
   */
  lemma BootstrappingMakesGood(basePath: Path, a: Name, pathA: Path, b: Name)
    requires a != b && pathA != ""
    ensures
      var s := Initial(Graph(map[a := pathA], map[pathA := [b]]), basePath, true);
      var events := [Required(Call(a, {})), Required(Call(a, {b}))];
      && Fails(s, events[0]) && KeepsOrder(Run(s, events))
      && Run(s, events).store.log == [Import(basePath + pathA, {b})]
  {
    var g := Graph(map[a := pathA], map[pathA := [b]]);
    var s := Initial(g, basePath, true);
    var first, second := Required(Call(a, {})), Required(Call(a, {b}));
    var included := [pathA];
    var entered := Walk({pathA}, []);
    assert VisitAll(g, {}, {}, [b], entered) == Visited(entered, UndefinedNameToPath(b));
    assert Visit(g, {}, {}, pathA, Walk({}, [])) == Visited(entered, UndefinedNameToPath(b));
    assert VisitIncluded(g, {}, {}, included, Walk({}, [])) == Visited(entered, UndefinedNameToPath(b));
    var failed := s.(included := included, visited := {pathA});
    assert Require(s, a, {}) == Called(failed, UndefinedNameToPath(b));

    var pushed := Walk({pathA}, [pathA]);
    assert Visit(g, {b}, {}, pathA, entered) == Visited(pushed, Done);
    assert VisitIncluded(g, {b}, {}, included[1..], pushed) == Visited(pushed, Done);
    assert VisitIncluded(g, {b}, {}, included, entered) == Visited(pushed, Done);
    var store := Store({basePath + pathA}, [Import(basePath + pathA, {b})]);
    assert ImportAll(store, basePath, [pathA][1..], {b}) == Imported(store, Done);
    assert ImportAll(Store({}, []), basePath, [pathA], {b}) == Imported(store, Done);
    var end := failed.(store := store);
    assert Require(failed, a, {b}) == Called(end, Done);
    assert [first, second][1..] == [second] && [second][1..] == [];
    assert Run(s, [first, second]) == Run(failed, [second]) == Run(end, []) == end;
    forall p | basePath + pathA == basePath + p ensures p == pathA { SameTail(basePath, pathA, p); }
    assert EntryInOrder(g, basePath, store.log, 0);
  }

  /**
   * A path visited in a call that failed stays marked. Once the missing name is registered, the
   * same call succeeds and imports the script, but never the script it needs.
   */
  lemma FailureForgetsNeeds(basePath: Path, a: Name, pathA: Path, b: Name, pathB: Path)
    requires a != b && a != "" && b != "" && pathA != "" && pathB != "" && pathA != pathB
    requires forall k :: 0 <= k < |pathB| ==> pathB[k] != '\\'
    ensures
      var s := Initial(Graph(map[a := pathA], map[pathA := [b]]), basePath, true);
      var failed := Require(s, a, {});
      var repaired := After(failed.state, Added(pathB, [b], []));
      var again := Require(repaired, a, {});
      && failed.outcome == UndefinedNameToPath(b)
      && Closed(repaired.graph) && Acyclic(repaired.graph)
      && again.outcome == Done && IsImported(again.state, a) && !IsImported(again.state, b)
      && again.state.store.log == [Import(basePath + pathA, {})]
  {
    var g := Graph(map[a := pathA], map[pathA := [b]]);
    var s := Initial(g, basePath, true);
    var w := Walk({}, []);
    var included := [pathA];
    var entered := Walk({pathA}, []);
    assert VisitAll(g, {}, {}, [b], entered) == Visited(entered, UndefinedNameToPath(b));
    assert Visit(g, {}, {}, pathA, w) == Visited(entered, UndefinedNameToPath(b));
    assert VisitIncluded(g, {}, {}, included, w) == Visited(entered, UndefinedNameToPath(b));
    var failed := Require(s, a, {});
    assert failed == Called(s.(included := included, visited := {pathA}), UndefinedNameToPath(b));

    assert Slashes(pathB) == pathB;
    var noNames: seq<Name> := [];
    assert UpToEmpty([b]) == [b] + UpToEmpty([b][1..]) && [b][1..] == noNames;
    var g' := Registered(g, pathB, [b], []);
    assert Provide(map[a := pathA][b := pathB], noNames, pathB) == map[a := pathA][b := pathB];
    assert g' == Graph(map[a := pathA, b := pathB], map[pathA := [b]]);
    var rank := (p: Path) => if p == pathA then 1 else 0;
    assert Ranked(g', rank);

    var pushed := Walk({pathA}, [pathA]);
    assert Visit(g', {}, {}, pathA, entered) == Visited(pushed, Done);
    assert VisitIncluded(g', {}, {}, included[1..], pushed) == Visited(pushed, Done);
    assert VisitIncluded(g', {}, {}, included, entered) == Visited(pushed, Done);
    var store := Store({basePath + pathA}, [Import(basePath + pathA, {})]);
    assert ImportAll(store, basePath, [pathA][1..], {}) == Imported(store, Done);
    assert ImportAll(Store({}, []), basePath, [pathA], {}) == Imported(store, Done);
    if basePath + pathA == basePath + pathB { SameTail(basePath, pathA, pathB); }
  }
}
