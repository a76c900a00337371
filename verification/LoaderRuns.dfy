/**
 * What any sequence of goog.require calls does: every script is imported at most once, and after
 * the scripts it needs, provided the registered dependencies are closed and without a cycle.
 */
module LoaderRuns {
  import opened ScriptLoader

  /** A goog.require call, and the names that count as provided when it is made. */
  datatype Call = Call(name: Name, provided: set<Name>)

  datatype Event = Required(call: Call) | Added(relPath: Path, offers: seq<Name>, needed: seq<Name>)

  const DEPS_JS: Path := "deps.js"

  /** Unless CLOSURE_NO_DEPS is set, deps.js is imported first. */
  function Initial(g: Graph, basePath: Path, noDeps: bool): State {
    var empty := Store({}, []);
    State(g, basePath, {}, [], if noDeps then empty else ImportScript(empty, basePath + DEPS_JS, {}))
  }

  function After(s: State, e: Event): State {
    match e
    case Required(c) => Require(s, c.name, c.provided).state
    case Added(relPath, offers, needed) => s.(graph := Registered(s.graph, relPath, offers, needed))
  }

  function Run(s: State, events: seq<Event>): State
    decreases |events|
  {
    if events == [] then s else Run(After(s, events[0]), events[1..])
  }

  // ----- at most once, whatever happens -----

  /** The log names each script once, and written holds exactly the scripts in the log. */
  ghost predicate EachOnce(s: Store) {
    && (forall i, j :: 0 <= i < j < |s.log| ==> s.log[i].src != s.log[j].src)
    && (forall x :: x in s.written <==> exists i :: 0 <= i < |s.log| && s.log[i].src == x)
  }

  lemma ImportKeepsOnce(s: Store, src: Path, provided: set<Name>)
    requires EachOnce(s)
    ensures EachOnce(ImportScript(s, src, provided))
  {
    var t := ImportScript(s, src, provided);
    if src !in s.written {
      assert t.log[|s.log|].src == src;
      forall x ensures x in t.written <==> exists i :: 0 <= i < |t.log| && t.log[i].src == x {
        if x in s.written {
          var i :| 0 <= i < |s.log| && s.log[i].src == x;
          assert t.log[i].src == x;
        }
      }
    }
  }

  lemma {:induction false} ImportAllKeepsOnce(s: Store, basePath: Path, scripts: seq<Path>, provided: set<Name>)
    requires EachOnce(s)
    ensures EachOnce(ImportAll(s, basePath, scripts, provided).store)
    decreases |scripts|
  {
    if scripts != [] && scripts[0] != "" {
      ImportKeepsOnce(s, basePath + scripts[0], provided);
      ImportAllKeepsOnce(ImportScript(s, basePath + scripts[0], provided), basePath, scripts[1..], provided);
    }
  }

  /**
   * No script is ever imported twice: for every sequence of require and addDependency calls,
   * failing calls included, and whatever the graph, its cycles and its paths are.
   */
  lemma {:induction false} NothingIsImportedTwice(s: State, events: seq<Event>)
    requires EachOnce(s.store)
    ensures EachOnce(Run(s, events).store)
    decreases |events|
  {
    if events != [] {
      if events[0].Required? {
        var c := events[0].call;
        if c.name !in c.provided && c.name in s.graph.nameToPath && s.graph.nameToPath[c.name] != "" {
          var t := Include(s, s.graph.nameToPath[c.name]);
          var v := VisitIncluded(t.graph, c.provided, t.store.written, t.included, Walk(t.visited, []));
          ImportAllKeepsOnce(t.store, t.basePath, v.walk.scripts, c.provided);
        }
      }
      NothingIsImportedTwice(After(s, events[0]), events[1..]);
    }
  }

  // ----- what a graph must be for the order to be right -----

  /** Every name a script needs is registered, for a path that is not empty. */
  ghost predicate Closed(g: Graph) {
    forall p, n :: p in g.needs && n in g.needs[p] ==> n in g.nameToPath && g.nameToPath[n] != ""
  }

  /** Whatever is needed and registered is registered for a path that is not empty. */
  ghost predicate Usable(g: Graph) {
    forall p, n :: p in g.needs && n in g.needs[p] && n in g.nameToPath ==> g.nameToPath[n] != ""
  }

  /** Every script ranks above the scripts it needs. */
  ghost predicate Ranked(g: Graph, rank: Path -> nat) {
    forall p, n :: p in g.needs && n in g.needs[p] && n in g.nameToPath ==> rank(g.nameToPath[n]) < rank(p)
  }

  ghost predicate Acyclic(g: Graph) {
    exists rank: Path -> nat :: Ranked(g, rank)
  }

  ghost predicate Known(g: Graph, p: Path) {
    p == DEPS_JS || p in g.nameToPath.Values
  }

  /** No registered path is the address of a script, so looking a path up among the addresses is harmless. */
  ghost predicate NoCollision(g: Graph, basePath: Path) {
    basePath == "" || forall p, q :: p in g.nameToPath.Values && Known(g, q) ==> p != basePath + q
  }

  // ----- one walk -----

  /** What does not change during a call of writeScripts_. */
  datatype Context = Context(g: Graph, basePath: Path, written: set<Path>, provided: set<Name>)

  ghost predicate Sound(c: Context, rank: Path -> nat) {
    && Usable(c.g) && Ranked(c.g, rank)
    && (forall p :: p in c.g.nameToPath.Values && p in c.written ==> c.basePath + p in c.written)
  }

  /** Imported earlier, or to be imported in this call. */
  ghost predicate Settled(c: Context, scripts: seq<Path>, p: Path) {
    c.basePath + p in c.written || p in scripts
  }

  ghost predicate NeedsSettled(c: Context, scripts: seq<Path>, p: Path) {
    p in c.g.needs ==>
      forall n :: n in c.g.needs[p] && n !in c.provided ==> n in c.g.nameToPath && Settled(c, scripts, c.g.nameToPath[n])
  }

  ghost predicate Sorted(c: Context, scripts: seq<Path>) {
    forall i :: 0 <= i < |scripts| ==>
      && scripts[i] != "" && scripts[i] in c.g.nameToPath.Values
      && (c.basePath + scripts[i] in c.written || NeedsSettled(c, scripts[..i], scripts[i]))
  }

  /** Whatever was visited is settled, or still being visited further up the call stack. */
  ghost predicate OpenAbove(c: Context, w: Walk, rank: Path -> nat, r: nat) {
    forall p :: p in w.visited ==> Settled(c, w.scripts, p) || rank(p) >= r
  }

  ghost predicate Extends(c: Context, w: Walk, v: Walk) {
    && w.scripts <= v.scripts && w.visited <= v.visited
    && (forall p :: p in v.visited && p !in w.visited ==> Settled(c, v.scripts, p))
  }

  lemma PushSorted(c: Context, w: Walk, path: Path)
    requires Sorted(c, w.scripts) && path != "" && path in c.g.nameToPath.Values
    requires c.basePath + path in c.written || NeedsSettled(c, w.scripts, path)
    ensures Sorted(c, Pushed(w, path).scripts) && Settled(c, Pushed(w, path).scripts, path)
    ensures w.scripts <= Pushed(w, path).scripts
  {
    var scripts := Pushed(w, path).scripts;
    forall i | 0 <= i < |scripts|
      ensures scripts[i] != "" && scripts[i] in c.g.nameToPath.Values
      ensures c.basePath + scripts[i] in c.written || NeedsSettled(c, scripts[..i], scripts[i])
    {
      if i < |w.scripts| {
        assert scripts[..i] == w.scripts[..i];
      } else {
        assert scripts[..i] == w.scripts;
      }
    }
  }

  lemma {:induction false} VisitSettles(c: Context, rank: Path -> nat, r: nat, path: Path, w: Walk)
    requires Sound(c, rank) && Sorted(c, w.scripts) && OpenAbove(c, w, rank, r)
    requires path != "" && path in c.g.nameToPath.Values && rank(path) < r
    ensures
      var v := Visit(c.g, c.provided, c.written, path, w);
      && (Closed(c.g) ==> v.outcome.Done?)
      && (v.outcome.Done? ==> Sorted(c, v.walk.scripts) && Extends(c, w, v.walk) && Settled(c, v.walk.scripts, path))
    decreases c.g.needs.Keys - w.visited, 0
  {
    if path !in c.written {
      if path in w.visited {
        if c.basePath + path in c.written {
          PushSorted(c, w, path);
        }
      } else {
        var entered := w.(visited := w.visited + {path});
        if path !in c.g.needs {
          PushSorted(c, entered, path);
        } else {
          VisitAllSettles(c, rank, rank(path), path, c.g.needs[path], entered);
          var v := VisitAll(c.g, c.provided, c.written, c.g.needs[path], entered);
          if v.outcome.Done? { PushSorted(c, v.walk, path); }
        }
      }
    }
  }

  lemma {:induction false} VisitAllSettles(c: Context, rank: Path -> nat, r: nat, path: Path, names: seq<Name>, w: Walk)
    requires Sound(c, rank) && Sorted(c, w.scripts) && OpenAbove(c, w, rank, r)
    requires path in c.g.needs && rank(path) <= r && forall n :: n in names ==> n in c.g.needs[path]
    ensures
      var v := VisitAll(c.g, c.provided, c.written, names, w);
      && (Closed(c.g) ==> v.outcome.Done?)
      && (v.outcome.Done? ==>
            && Sorted(c, v.walk.scripts) && Extends(c, w, v.walk)
            && forall n :: n in names && n !in c.provided ==> n in c.g.nameToPath && Settled(c, v.walk.scripts, c.g.nameToPath[n]))
    decreases c.g.needs.Keys - w.visited, |names|
  {
    if names != [] {
      if names[0] in c.provided {
        VisitAllSettles(c, rank, r, path, names[1..], w);
      } else if names[0] in c.g.nameToPath {
        var needed := c.g.nameToPath[names[0]];
        VisitSettles(c, rank, r, needed, w);
        var v := Visit(c.g, c.provided, c.written, needed, w);
        if v.outcome.Done? { VisitAllSettles(c, rank, r, path, names[1..], v.walk); }
      }
    }
  }

  /** Between calls every path visited so far has been written. */
  ghost predicate AllWritten(basePath: Path, visited: set<Path>, written: set<Path>) {
    forall p :: p in visited ==> basePath + p in written
  }

  lemma {:induction false} IncludedSettle(c: Context, rank: Path -> nat, paths: seq<Path>, w: Walk)
    requires Sound(c, rank) && Sorted(c, w.scripts)
    requires forall p :: p in w.visited ==> Settled(c, w.scripts, p)
    requires forall i :: 0 <= i < |paths| ==> paths[i] != "" && paths[i] in c.g.nameToPath.Values
    ensures
      var v := VisitIncluded(c.g, c.provided, c.written, paths, w);
      && (Closed(c.g) ==> v.outcome.Done?)
      && (v.outcome.Done? ==>
            && Sorted(c, v.walk.scripts) && Extends(c, w, v.walk)
            && (forall p :: p in v.walk.visited ==> Settled(c, v.walk.scripts, p))
            && (forall p :: p in paths ==> Settled(c, v.walk.scripts, p)))
    decreases |paths|
  {
    if paths != [] {
      if paths[0] in c.written {
        IncludedSettle(c, rank, paths[1..], w);
      } else {
        VisitSettles(c, rank, rank(paths[0]) + 1, paths[0], w);
        var v := Visit(c.g, c.provided, c.written, paths[0], w);
        if v.outcome.Done? { IncludedSettle(c, rank, paths[1..], v.walk); }
      }
    }
  }

  // ----- from the walk to the log -----

  ghost predicate ImportedBefore(log: seq<Import>, i: nat, src: Path) {
    exists j :: 0 <= j < i && j < |log| && log[j].src == src
  }

  /** Whatever the script imported at i needs and was not provided was imported before it. */
  ghost predicate EntryInOrder(g: Graph, basePath: Path, log: seq<Import>, i: nat)
    requires i < |log|
  {
    forall p, n :: log[i].src == basePath + p && p in g.needs && n in g.needs[p] && n !in log[i].provided ==>
      n in g.nameToPath && ImportedBefore(log, i, basePath + g.nameToPath[n])
  }

  ghost predicate InOrder(g: Graph, basePath: Path, log: seq<Import>) {
    forall i :: 0 <= i < |log| ==> EntryInOrder(g, basePath, log, i)
  }

  /** Every written script is the address of a path that was registered, or of deps.js. */
  ghost predicate Addressed(g: Graph, basePath: Path, src: Path) {
    exists p :: Known(g, p) && src == basePath + p
  }

  ghost predicate GoodStore(g: Graph, basePath: Path, s: Store) {
    && EachOnce(s) && InOrder(g, basePath, s.log)
    && forall x :: x in s.written ==> Addressed(g, basePath, x)
  }

  lemma SameTail(front: Path, p: Path, q: Path)
    requires front + p == front + q
    ensures p == q
  {
    assert (front + p)[|front|..] == p && (front + q)[|front|..] == q;
  }

  lemma ImportKeepsOrder(c: Context, s: Store, scripts: seq<Path>, i: nat)
    requires GoodStore(c.g, c.basePath, s) && Sorted(c, scripts) && i < |scripts| && c.written <= s.written
    requires forall k :: 0 <= k < i ==> c.basePath + scripts[k] in s.written
    ensures GoodStore(c.g, c.basePath, ImportScript(s, c.basePath + scripts[i], c.provided))
  {
    var path, src := scripts[i], c.basePath + scripts[i];
    var t := ImportScript(s, src, c.provided);
    ImportKeepsOnce(s, src, c.provided);
    if src !in s.written {
      var last := |s.log|;
      assert Addressed(c.g, c.basePath, src) by { assert Known(c.g, path); }
      forall k | 0 <= k < |t.log| ensures EntryInOrder(c.g, c.basePath, t.log, k) {
        if k < last {
          EarlierEntry(c.g, c.basePath, s.log, t.log, k);
        } else {
          forall p, n | src == c.basePath + p && p in c.g.needs && n in c.g.needs[p] && n !in c.provided
            ensures n in c.g.nameToPath && ImportedBefore(t.log, last, c.basePath + c.g.nameToPath[n])
          {
            SameTail(c.basePath, p, path);
            assert NeedsSettled(c, scripts[..i], path);
            var needed := c.basePath + c.g.nameToPath[n];
            assert needed in s.written;
            var j :| 0 <= j < |s.log| && s.log[j].src == needed;
            assert t.log[j].src == needed;
          }
        }
      }
    }
  }

  lemma EarlierEntry(g: Graph, basePath: Path, log: seq<Import>, longer: seq<Import>, k: nat)
    requires log <= longer && k < |log| && EntryInOrder(g, basePath, log, k)
    ensures EntryInOrder(g, basePath, longer, k)
  {
    forall p, n | longer[k].src == basePath + p && p in g.needs && n in g.needs[p] && n !in longer[k].provided
      ensures n in g.nameToPath && ImportedBefore(longer, k, basePath + g.nameToPath[n])
    {
      assert ImportedBefore(log, k, basePath + g.nameToPath[n]);
      var j :| 0 <= j < k && log[j].src == basePath + g.nameToPath[n];
      assert longer[j].src == basePath + g.nameToPath[n];
    }
  }

  lemma {:induction false} ImportAllKeepsOrder(c: Context, s: Store, scripts: seq<Path>, i: nat)
    requires GoodStore(c.g, c.basePath, s) && Sorted(c, scripts) && i <= |scripts| && c.written <= s.written
    requires forall k :: 0 <= k < i ==> c.basePath + scripts[k] in s.written
    ensures
      var t := ImportAll(s, c.basePath, scripts[i..], c.provided);
      && t.outcome.Done? && GoodStore(c.g, c.basePath, t.store) && s.written <= t.store.written
      && forall k :: 0 <= k < |scripts| ==> c.basePath + scripts[k] in t.store.written
    decreases |scripts| - i
  {
    if i < |scripts| {
      assert scripts[i..][1..] == scripts[i + 1..];
      ImportKeepsOrder(c, s, scripts, i);
      ImportAllKeepsOrder(c, ImportScript(s, c.basePath + scripts[i], c.provided), scripts, i + 1);
    }
  }

  // ----- whole runs -----

  /** What holds between two calls. */
  ghost predicate Inv(s: State) {
    && GoodStore(s.graph, s.basePath, s.store)
    && AllWritten(s.basePath, s.visited, s.store.written)
    && (forall i :: 0 <= i < |s.included| ==> s.included[i] != "" && s.included[i] in s.graph.nameToPath.Values)
  }

  /** The script that provides a name has been imported. */
  predicate IsImported(s: State, name: Name) {
    name in s.graph.nameToPath && s.basePath + s.graph.nameToPath[name] in s.store.written
  }

  lemma SoundContext(s: State, rank: Path -> nat, provided: set<Name>)
    requires Inv(s) && Usable(s.graph) && NoCollision(s.graph, s.basePath) && Ranked(s.graph, rank)
    ensures Sound(Context(s.graph, s.basePath, s.store.written, provided), rank)
  {
    forall p | p in s.graph.nameToPath.Values && p in s.store.written ensures s.basePath + p in s.store.written {
      assert Addressed(s.graph, s.basePath, p);
      assert "" + p == p;
    }
  }

  /** A call that does not run into an unregistered name keeps the invariant, whatever else is unregistered. */
  lemma RequireKeepsInv(s: State, rank: Path -> nat, c: Call)
    requires Inv(s) && Usable(s.graph) && NoCollision(s.graph, s.basePath) && Ranked(s.graph, rank)
    ensures
      var r := Require(s, c.name, c.provided);
      && r.state.graph == s.graph && r.state.basePath == s.basePath && s.store.written <= r.state.store.written
      && (!r.outcome.UndefinedNameToPath? ==> Inv(r.state))
      && (r.outcome.Done? ==> c.name in c.provided || IsImported(r.state, c.name))
      && (c.name in s.graph.nameToPath && s.graph.nameToPath[c.name] != "" && Closed(s.graph) ==> r.outcome.Done?)
      && (Closed(s.graph) ==> !r.outcome.UndefinedNameToPath?)
  {
    if c.name !in c.provided && c.name in s.graph.nameToPath && s.graph.nameToPath[c.name] != "" {
      var path := s.graph.nameToPath[c.name];
      var t := Include(s, path);
      var ctx := Context(s.graph, s.basePath, s.store.written, c.provided);
      SoundContext(s, rank, c.provided);
      IncludedSettle(ctx, rank, t.included, Walk(s.visited, []));
      var v := VisitIncluded(s.graph, c.provided, s.store.written, t.included, Walk(s.visited, []));
      if v.outcome.Done? {
        assert v.walk.scripts[0..] == v.walk.scripts;
        ImportAllKeepsOrder(ctx, s.store, v.walk.scripts, 0);
        assert path in t.included;
      }
    }
  }

  lemma InitialInv(g: Graph, basePath: Path, noDeps: bool)
    requires DEPS_JS !in g.needs
    ensures Inv(Initial(g, basePath, noDeps))
  {
    var s := Initial(g, basePath, noDeps).store;
    if !noDeps {
      ImportKeepsOnce(Store({}, []), basePath + DEPS_JS, {});
      assert Known(g, DEPS_JS) && Addressed(g, basePath, basePath + DEPS_JS);
      forall p | s.log[0].src == basePath + p ensures p == DEPS_JS {
        SameTail(basePath, p, DEPS_JS);
      }
    }
  }

  ghost predicate AllRequired(events: seq<Event>) {
    forall i :: 0 <= i < |events| ==> events[i].Required?
  }

  lemma {:induction false} RunKeepsInv(s: State, rank: Path -> nat, events: seq<Event>)
    requires Inv(s) && Closed(s.graph) && NoCollision(s.graph, s.basePath) && Ranked(s.graph, rank) && AllRequired(events)
    ensures
      var t := Run(s, events);
      && Inv(t) && t.graph == s.graph && t.basePath == s.basePath && s.store.written <= t.store.written
      && forall i :: 0 <= i < |events| ==>
        var c := events[i].call;
        c.name in c.provided || (c.name in s.graph.nameToPath && s.graph.nameToPath[c.name] != "" ==> IsImported(t, c.name))
    decreases |events|
  {
    if events != [] {
      RequireKeepsInv(s, rank, events[0].call);
      RunKeepsInv(After(s, events[0]), rank, events[1..]);
      assert forall i :: 1 <= i < |events| ==> events[i] == events[1..][i - 1];
    }
  }

  /**
   * On a closed acyclic graph registered beforehand, any sequence of goog.require calls imports
   * each script at most once, imports every registered name it was asked for, and imports a script
   * only after the scripts of all the names it needs that were not provided at that time.
   */
  lemma ScriptsComeInOrder(g: Graph, basePath: Path, noDeps: bool, events: seq<Event>)
    requires Closed(g) && Acyclic(g) && NoCollision(g, basePath) && DEPS_JS !in g.needs && AllRequired(events)
    ensures
      var t := Run(Initial(g, basePath, noDeps), events);
      && EachOnce(t.store) && InOrder(g, basePath, t.store.log) && AllWritten(basePath, t.visited, t.store.written)
      && forall i :: 0 <= i < |events| ==>
        var c := events[i].call;
        c.name in c.provided || (c.name in g.nameToPath && g.nameToPath[c.name] != "" ==> IsImported(t, c.name))
  {
    var rank: Path -> nat :| Ranked(g, rank);
    InitialInv(g, basePath, noDeps);
    RunKeepsInv(Initial(g, basePath, noDeps), rank, events);
  }

  // ----- nothing more than is needed -----

  /** Whatever a script of the set needs, and is not provided, is in the set. */
  ghost predicate ClosedUnder(g: Graph, provided: set<Name>, all: set<Path>) {
    forall p, n :: p in all && p in g.needs && n in g.needs[p] && n !in provided && n in g.nameToPath ==> g.nameToPath[n] in all
  }

  ghost predicate Within(scripts: seq<Path>, all: set<Path>) {
    forall i :: 0 <= i < |scripts| ==> scripts[i] in all
  }

  lemma {:induction false} VisitStaysWithin(g: Graph, provided: set<Name>, written: set<Path>, path: Path, w: Walk, all: set<Path>)
    requires ClosedUnder(g, provided, all) && path in all && Within(w.scripts, all)
    ensures Within(Visit(g, provided, written, path, w).walk.scripts, all)
    decreases g.needs.Keys - w.visited, 0
  {
    if path !in written && path !in w.visited && path in g.needs {
      VisitAllStaysWithin(g, provided, written, g.needs[path], w.(visited := w.visited + {path}), all);
    }
  }

  lemma {:induction false} VisitAllStaysWithin(g: Graph, provided: set<Name>, written: set<Path>, names: seq<Name>, w: Walk, all: set<Path>)
    requires ClosedUnder(g, provided, all) && Within(w.scripts, all)
    requires forall n :: n in names && n !in provided && n in g.nameToPath ==> g.nameToPath[n] in all
    ensures Within(VisitAll(g, provided, written, names, w).walk.scripts, all)
    decreases g.needs.Keys - w.visited, |names|
  {
    if names != [] {
      var w' := w;
      if names[0] !in provided && names[0] in g.nameToPath {
        VisitStaysWithin(g, provided, written, g.nameToPath[names[0]], w, all);
        w' := Visit(g, provided, written, g.nameToPath[names[0]], w).walk;
      }
      VisitAllStaysWithin(g, provided, written, names[1..], w', all);
    }
  }

  lemma {:induction false} IncludedStayWithin(g: Graph, provided: set<Name>, written: set<Path>, paths: seq<Path>, w: Walk, all: set<Path>)
    requires ClosedUnder(g, provided, all) && Within(paths, all) && Within(w.scripts, all)
    ensures Within(VisitIncluded(g, provided, written, paths, w).walk.scripts, all)
    decreases |paths|
  {
    if paths != [] {
      var w' := w;
      if paths[0] !in written {
        VisitStaysWithin(g, provided, written, paths[0], w, all);
        w' := Visit(g, provided, written, paths[0], w).walk;
      }
      IncludedStayWithin(g, provided, written, paths[1..], w', all);
    }
  }

  lemma {:induction false} ImportsStayWithin(s: Store, basePath: Path, scripts: seq<Path>, provided: set<Name>, all: set<Path>)
    requires Within(scripts, all)
    ensures forall x :: x in ImportAll(s, basePath, scripts, provided).store.written ==>
              x in s.written || exists p :: p in all && x == basePath + p
    decreases |scripts|
  {
    if scripts != [] && scripts[0] != "" {
      assert basePath + scripts[0] == basePath + scripts[0] && scripts[0] in all;
      ImportsStayWithin(ImportScript(s, basePath + scripts[0], provided), basePath, scripts[1..], provided, all);
    }
  }

  /**
   * One goog.require call imports nothing beyond what the included scripts need: whatever set holds
   * those and is closed under what is needed, the imported scripts are in it. This holds of any graph.
   */
  lemma NothingElseIsImported(s: State, c: Call, all: set<Path>)
    requires ClosedUnder(s.graph, c.provided, all) && Within(s.included, all)
    requires c.name in s.graph.nameToPath ==> s.graph.nameToPath[c.name] in all
    ensures forall x :: x in Require(s, c.name, c.provided).state.store.written ==>
              x in s.store.written || exists p :: p in all && x == s.basePath + p
  {
    if c.name !in c.provided && c.name in s.graph.nameToPath && s.graph.nameToPath[c.name] != "" {
      var t := Include(s, s.graph.nameToPath[c.name]);
      var w := Walk(s.visited, []);
      IncludedStayWithin(s.graph, c.provided, s.store.written, t.included, w, all);
      var v := VisitIncluded(s.graph, c.provided, s.store.written, t.included, w);
      ImportsStayWithin(s.store, s.basePath, v.walk.scripts, c.provided, all);
    }
  }
}
