/**
 * The dependency loader of javascript/phonenumbernormalizer/js/base.js: which scripts a
 * sequence of goog.require calls imports, and in which order.
 */
module ScriptLoader {
  type Path = string
  type Name = string

  /** goog.dependencies_: what addDependency has registered. */
  datatype Graph = Graph(nameToPath: map<Name, Path>, needs: map<Path, seq<Name>>)

  datatype Outcome = Done | UndefinedNameToPath(name: Name) | UndefinedScriptInput | CouldNotFind(name: Name)

  /** Backslashes become slashes. */
  function Slashes(path: Path): Path {
    seq(|path|, i requires 0 <= i < |path| => if path[i] == '\\' then '/' else path[i])
  }

  /** The names up to the first empty one, where the loops over an argument stop. */
  function UpToEmpty(names: seq<Name>): seq<Name> {
    if names == [] || names[0] == "" then [] else [names[0]] + UpToEmpty(names[1..])
  }

  function Provide(m: map<Name, Path>, names: seq<Name>, path: Path): map<Name, Path>
    decreases |names|
  {
    if names == [] then m else Provide(m[names[0] := path], names[1..], path)
  }

  /** The names a script needs, in the order they were first registered. */
  function Need(m: map<Path, seq<Name>>, names: seq<Name>, path: Path): map<Path, seq<Name>>
    decreases |names|
  {
    if names == [] then m
    else
      var known := if path in m then m[path] else [];
      Need(m[path := if names[0] in known then known else known + [names[0]]], names[1..], path)
  }

  /** addDependency */
  function Registered(g: Graph, relPath: Path, offers: seq<Name>, needed: seq<Name>): Graph {
    var path := Slashes(relPath);
    Graph(Provide(g.nameToPath, UpToEmpty(offers), path), Need(g.needs, UpToEmpty(needed), path))
  }

  // ----- visiting -----

  /** What one call of writeScripts_ works on: deps.visited, which outlives it, and its list of scripts. */
  datatype Walk = Walk(visited: set<Path>, scripts: seq<Path>)

  datatype Visited = Visited(walk: Walk, outcome: Outcome)

  function Pushed(w: Walk, path: Path): Walk {
    if path in w.scripts then w else w.(scripts := w.scripts + [path])
  }

  /** visitNode; provided are the names isProvided_ accepts during this call. */
  function Visit(g: Graph, provided: set<Name>, written: set<Path>, path: Path, w: Walk): (v: Visited)
    ensures w.visited <= v.walk.visited
    ensures w.scripts <= v.walk.scripts && (v.outcome.Done? || v.outcome.UndefinedNameToPath?)
    decreases g.needs.Keys - w.visited, 0
  {
    if path in written then Visited(w, Done)
    else if path in w.visited then Visited(Pushed(w, path), Done)
    else
      var entered := w.(visited := w.visited + {path});
      if path !in g.needs then Visited(Pushed(entered, path), Done)
      else
        var v := VisitAll(g, provided, written, g.needs[path], entered);
        if v.outcome.Done? then Visited(Pushed(v.walk, path), Done) else v
  }

  function VisitAll(g: Graph, provided: set<Name>, written: set<Path>, names: seq<Name>, w: Walk): (v: Visited)
    ensures w.visited <= v.walk.visited
    ensures w.scripts <= v.walk.scripts && (v.outcome.Done? || v.outcome.UndefinedNameToPath?)
    decreases g.needs.Keys - w.visited, |names|
  {
    if names == [] then Visited(w, Done)
    else if names[0] in provided then VisitAll(g, provided, written, names[1..], w)
    else if names[0] !in g.nameToPath then Visited(w, UndefinedNameToPath(names[0]))
    else
      var v := Visit(g, provided, written, g.nameToPath[names[0]], w);
      if v.outcome.Done? then VisitAll(g, provided, written, names[1..], v.walk) else v
  }

  /** The loop over goog.included_. */
  function VisitIncluded(g: Graph, provided: set<Name>, written: set<Path>, paths: seq<Path>, w: Walk): (v: Visited)
    ensures w.scripts <= v.walk.scripts && (v.outcome.Done? || v.outcome.UndefinedNameToPath?)
    decreases |paths|
  {
    if paths == [] then Visited(w, Done)
    else
      var v := if paths[0] in written then Visited(w, Done) else Visit(g, provided, written, paths[0], w);
      if v.outcome.Done? then VisitIncluded(g, provided, written, paths[1..], v.walk) else v
  }

  // ----- importing -----

  /** A script that was imported, and what counted as provided at that time. */
  datatype Import = Import(src: Path, provided: set<Name>)

  datatype Store = Store(written: set<Path>, log: seq<Import>)

  function ImportScript(s: Store, src: Path, provided: set<Name>): Store {
    if src in s.written then s else Store(s.written + {src}, s.log + [Import(src, provided)])
  }

  datatype Imported = Imported(store: Store, outcome: Outcome)

  function ImportAll(s: Store, basePath: Path, scripts: seq<Path>, provided: set<Name>): Imported
    decreases |scripts|
  {
    if scripts == [] then Imported(s, Done)
    else if scripts[0] == "" then Imported(s, UndefinedScriptInput)
    else ImportAll(ImportScript(s, basePath + scripts[0], provided), basePath, scripts[1..], provided)
  }

  // ----- requiring -----

  datatype State = State(graph: Graph, basePath: Path, visited: set<Path>, included: seq<Path>, store: Store)

  datatype Called = Called(state: State, outcome: Outcome)

  function WriteScripts(s: State, provided: set<Name>): Called {
    var v := VisitIncluded(s.graph, provided, s.store.written, s.included, Walk(s.visited, []));
    var t := s.(visited := v.walk.visited);
    if !v.outcome.Done? then Called(t, v.outcome)
    else
      var i := ImportAll(s.store, s.basePath, v.walk.scripts, provided);
      Called(t.(store := i.store), i.outcome)
  }

  function Include(s: State, path: Path): State {
    if path in s.included then s else s.(included := s.included + [path])
  }

  /** goog.require */
  function Require(s: State, name: Name, provided: set<Name>): Called {
    if name in provided then Called(s, Done)
    else if name in s.graph.nameToPath && s.graph.nameToPath[name] != "" then
      WriteScripts(Include(s, s.graph.nameToPath[name]), provided)
    else Called(s, CouldNotFind(name))
  }

  /** The variables writeScripts_ shares with visitNode. */
  class Scripts {
    var scripts: seq<Path>
    var seenScript: set<Path>

    ghost predicate Valid()
      reads this
    {
      forall p :: p in seenScript <==> p in scripts
    }

    constructor ()
      ensures Valid() && scripts == []
    {
      scripts := [];
      seenScript := {};
    }

    method Push(path: Path)
      requires Valid()
      modifies this
      ensures Valid()
      ensures forall v :: Walk(v, scripts) == Pushed(Walk(v, old(scripts)), path)
    {
      if path !in seenScript {
        seenScript := seenScript + {path};
        scripts := scripts + [path];
      }
    }
  }

  class Loader {
    var nameToPath: map<Name, Path>
    var needs: map<Path, seq<Name>>
    var visited: set<Path>
    var written: set<Path>
    var included: seq<Path>
    const basePath: Path
    var log: seq<Import>

    ghost function Contents(): State
      reads this
    {
      State(Graph(nameToPath, needs), basePath, visited, included, Store(written, log))
    }

    constructor (basePath: Path)
      ensures Contents() == State(Graph(map[], map[]), basePath, {}, [], Store({}, []))
    {
      nameToPath := map[];
      needs := map[];
      visited := {};
      written := {};
      included := [];
      this.basePath := basePath;
      log := [];
    }

    method AddDependency(relPath: Path, offers: seq<Name>, needed: seq<Name>)
      modifies this`nameToPath, this`needs
      ensures Contents() == old(Contents()).(graph := Registered(old(Contents().graph), relPath, offers, needed))
    {
      var path := Slashes(relPath);
      var i := 0;
      while i < |offers| && offers[i] != ""
        invariant 0 <= i <= |offers|
        invariant needs == old(needs)
        invariant Provide(nameToPath, UpToEmpty(offers[i..]), path) == Provide(old(nameToPath), UpToEmpty(offers), path)
      {
        nameToPath := nameToPath[offers[i] := path];
        i := i + 1;
      }
      var j := 0;
      while j < |needed| && needed[j] != ""
        invariant 0 <= j <= |needed|
        invariant nameToPath == Provide(old(nameToPath), UpToEmpty(offers), path)
        invariant Need(needs, UpToEmpty(needed[j..]), path) == Need(old(needs), UpToEmpty(needed), path)
      {
        ghost var before := needs;
        ghost var known := if path in needs then needs[path] else [];
        if path !in needs {
          needs := needs[path := []];
        }
        if needed[j] !in needs[path] {
          needs := needs[path := needs[path] + [needed[j]]];
        }
        assert needs == before[path := if needed[j] in known then known else known + [needed[j]]];
        j := j + 1;
      }
    }

    method VisitNode(path: Path, provided: set<Name>, s: Scripts) returns (outcome: Outcome)
      requires s.Valid()
      modifies this`visited, s
      ensures s.Valid()
      ensures Visited(Walk(visited, s.scripts), outcome)
        == old(Visit(Graph(nameToPath, needs), provided, written, path, Walk(visited, s.scripts)))
      decreases needs.Keys - visited
    {
      ghost var g := Graph(nameToPath, needs);
      if path in written {
        return Done;
      }
      if path in visited {
        s.Push(path);
        return Done;
      }
      visited := visited + {path};
      ghost var entered := Walk(visited, s.scripts);
      if path in needs {
        var names := needs[path];
        var i := 0;
        while i < |names|
          invariant 0 <= i <= |names|
          invariant s.Valid()
          invariant entered.visited <= visited
          invariant VisitAll(g, provided, written, names[i..], Walk(visited, s.scripts))
            == VisitAll(g, provided, written, names, entered)
        {
          assert names[i..][1..] == names[i + 1..];
          if names[i] !in provided {
            if names[i] in nameToPath {
              outcome := VisitNode(nameToPath[names[i]], provided, s);
              if !outcome.Done? {
                return;
              }
            } else {
              return UndefinedNameToPath(names[i]);
            }
          }
          i := i + 1;
        }
      }
      s.Push(path);
      return Done;
    }

    method ImportScript_(src: Path, provided: set<Name>)
      modifies this`written, this`log
      ensures Store(written, log) == ImportScript(Store(old(written), old(log)), src, provided)
    {
      if src !in written {
        log := log + [Import(src, provided)];
        written := written + {src};
      }
    }

    method WriteScripts_(provided: set<Name>) returns (outcome: Outcome)
      modifies this`visited, this`written, this`log
      ensures Called(Contents(), outcome) == WriteScripts(old(Contents()), provided)
    {
      ghost var g, before := Graph(nameToPath, needs), Store(written, log);
      ghost var goal := VisitIncluded(g, provided, written, included, Walk(visited, []));
      var s := new Scripts();
      var k := 0;
      while k < |included|
        invariant 0 <= k <= |included|
        invariant s.Valid()
        invariant Store(written, log) == before
        invariant VisitIncluded(g, provided, written, included[k..], Walk(visited, s.scripts)) == goal
      {
        assert included[k..][1..] == included[k + 1..];
        if included[k] !in written {
          outcome := VisitNode(included[k], provided, s);
          if !outcome.Done? {
            return;
          }
        }
        k := k + 1;
      }
      var i := 0;
      ghost var imported := ImportAll(before, basePath, s.scripts, provided);
      while i < |s.scripts|
        invariant 0 <= i <= |s.scripts|
        invariant goal == Visited(Walk(visited, s.scripts), Done)
        invariant ImportAll(Store(written, log), basePath, s.scripts[i..], provided) == imported
      {
        assert s.scripts[i..][1..] == s.scripts[i + 1..];
        if s.scripts[i] == "" {
          return UndefinedScriptInput;
        }
        ImportScript_(basePath + s.scripts[i], provided);
        i := i + 1;
      }
      return Done;
    }

    /** goog.require */
    method Require_(name: Name, provided: set<Name>) returns (outcome: Outcome)
      modifies this`visited, this`written, this`included, this`log
      ensures Called(Contents(), outcome) == Require(old(Contents()), name, provided)
    {
      if name in provided {
        return Done;
      }
      if name in nameToPath && nameToPath[name] != "" {
        var path := nameToPath[name];
        if path !in included {
          included := included + [path];
        }
        outcome := WriteScripts_(provided);
        return;
      }
      return CouldNotFind(name);
    }
  }
}
