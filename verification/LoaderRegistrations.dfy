/**
 * What goog.addDependency records, and what a sequence of goog.require calls imports of the scripts
 * that a sequence of addDependency calls has registered.
 */
module LoaderRegistrations {
  import opened ScriptLoader
  import opened LoaderRuns

  // ----- one registration -----

  /** The loops over an argument stop at the first empty name. */
  ghost predicate Listed(names: seq<Name>, n: Name) {
    exists i :: 0 <= i < |names| && names[i] == n && forall j :: 0 <= j <= i ==> names[j] != ""
  }

  /** a is listed before b is listed for the first time. */
  ghost predicate ListedBefore(names: seq<Name>, a: Name, b: Name) {
    exists i :: 0 <= i < |names| && names[i] == a && forall j :: 0 <= j <= i ==> names[j] != "" && names[j] != b
  }

  ghost predicate NoTwice(names: seq<Name>) {
    forall i, j :: 0 <= i < j < |names| ==> names[i] != names[j]
  }

  lemma {:induction false} UpToEmptyIsListed(names: seq<Name>, n: Name)
    ensures n in UpToEmpty(names) <==> Listed(names, n)
  {
    if names != [] && names[0] != "" {
      UpToEmptyIsListed(names[1..], n);
      if i :| 0 <= i < |names[1..]| && names[1..][i] == n && forall j :: 0 <= j <= i ==> names[1..][j] != "" {
        assert names[i + 1] == n && forall j :: 1 <= j <= i + 1 ==> names[j] == names[1..][j - 1];
      }
      if i :| 0 <= i < |names| && names[i] == n && forall j :: 0 <= j <= i ==> names[j] != "" {
        if i == 0 {
          assert UpToEmpty(names)[0] == n;
        } else {
          assert names[1..][i - 1] == n && forall j :: 0 <= j <= i - 1 ==> names[1..][j] == names[j + 1];
          assert n in UpToEmpty(names[1..]);
        }
      }
    }
  }

  /** Where a name is registered afterwards. */
  lemma {:induction false} ProvideAt(m: map<Name, Path>, names: seq<Name>, path: Path, n: Name)
    ensures
      var t := Provide(m, names, path);
      (n in t <==> n in m || n in names) && (n in t ==> t[n] == if n in names then path else m[n])
    decreases |names|
  {
    if names != [] {
      ProvideAt(m[names[0] := path], names[1..], path, n);
      assert n in names <==> n == names[0] || n in names[1..];
    }
  }

  lemma ProvideAdds(m: map<Name, Path>, names: seq<Name>, path: Path)
    ensures
      var t := Provide(m, names, path);
      && (forall n :: n in t <==> n in m || n in names)
      && (forall n :: n in t ==> t[n] == if n in names then path else m[n])
  {
    hide Provide;
    forall n { ProvideAt(m, names, path, n); }
  }

  lemma {:induction false} NeedAdds(m: map<Path, seq<Name>>, names: seq<Name>, path: Path)
    ensures
      var t := Need(m, names, path);
      && (forall p :: p in m ==> p in t && m[p] <= t[p])
      && (forall p :: p in t && p != path ==> p in m && t[p] == m[p])
    decreases |names|
  {
    if names != [] {
      var known := if path in m then m[path] else [];
      var next := m[path := if names[0] in known then known else known + [names[0]]];
      NeedAdds(next, names[1..], path);
    }
  }

  /** What is recorded for a path. */
  function NeedsOf(m: map<Path, seq<Name>>, path: Path): seq<Name> {
    if path in m then m[path] else []
  }

  /** The names a script needs: those known before and those given, each once. */
  lemma {:induction false} NeedHolds(m: map<Path, seq<Name>>, names: seq<Name>, path: Path)
    ensures
      var t := Need(m, names, path);
      && (path in t <==> path in m || names != [])
      && (forall n :: n in NeedsOf(t, path) <==> n in NeedsOf(m, path) || n in names)
      && (NoTwice(NeedsOf(m, path)) ==> NoTwice(NeedsOf(t, path)))
    decreases |names|
  {
    if names != [] {
      var known := NeedsOf(m, path);
      var longer := if names[0] in known then known else known + [names[0]];
      var next := m[path := longer];
      NeedHolds(next, names[1..], path);
      assert NeedsOf(next, path) == longer && Need(m, names, path) == Need(next, names[1..], path);
      forall n ensures n in longer <==> n in known || n == names[0] {
        if n == names[0] && n !in known { assert longer[|known|] == n; }
      }
      forall n ensures n in names <==> n == names[0] || n in names[1..] {
      }
    }
  }

  ghost predicate Sooner(names: seq<Name>, a: Name, b: Name) {
    exists i :: 0 <= i < |names| && names[i] == a && forall j :: 0 <= j <= i ==> names[j] != b
  }

  lemma SoonerLater(names: seq<Name>, a: Name, b: Name)
    requires names != [] && Sooner(names[1..], a, b) && names[0] != b
    ensures Sooner(names, a, b)
  {
    var i :| 0 <= i < |names[1..]| && names[1..][i] == a && forall j :: 0 <= j <= i ==> names[1..][j] != b;
    assert names[i + 1] == a && forall j :: 1 <= j <= i + 1 ==> names[j] == names[1..][j - 1];
  }

  /** The new ones among them come in the order in which they are first given. */
  lemma {:induction false} NeedOrders(m: map<Path, seq<Name>>, names: seq<Name>, path: Path)
    requires NoTwice(NeedsOf(m, path))
    ensures
      var before, all := |NeedsOf(m, path)|, NeedsOf(Need(m, names, path), path);
      forall i, j :: before <= i < j < |all| ==> Sooner(names, all[i], all[j])
    decreases |names|
  {
    if names != [] {
      var known := NeedsOf(m, path);
      var longer := if names[0] in known then known else known + [names[0]];
      var next := m[path := longer];
      var all := NeedsOf(Need(m, names, path), path);
      assert NeedsOf(next, path) == longer && Need(m, names, path) == Need(next, names[1..], path);
      NeedOrders(next, names[1..], path);
      NeedHolds(m, names, path);
      NeedAdds(next, names[1..], path);
      assert longer <= all && path in next;
      hide Need;
      forall i, j | |known| <= i < j < |all| ensures Sooner(names, all[i], all[j]) {
        var k :| 0 <= k < |longer| && longer[k] == names[0] && (k == |known| || k < |known|);
        assert all[k] == names[0] && k < j;
        if i < |longer| {
          assert i == |known| && all[i] == longer[i] == names[0];
          assert names[0] != all[j];
        } else {
          SoonerLater(names, all[i], all[j]);
        }
      }
    }
  }

  lemma SoonerIsListedBefore(names: seq<Name>, a: Name, b: Name)
    requires Sooner(UpToEmpty(names), a, b)
    ensures ListedBefore(names, a, b)
  {
    UpToEmptyIsFront(names);
    var i :| 0 <= i < |UpToEmpty(names)| && UpToEmpty(names)[i] == a && forall j :: 0 <= j <= i ==> UpToEmpty(names)[j] != b;
    assert names[i] == a && forall j :: 0 <= j <= i ==> names[j] == UpToEmpty(names)[j];
  }

  lemma {:induction false} UpToEmptyIsFront(names: seq<Name>)
    ensures UpToEmpty(names) <= names && "" !in UpToEmpty(names)
  {
    if names != [] && names[0] != "" {
      UpToEmptyIsFront(names[1..]);
      assert names == [names[0]] + names[1..];
    }
  }

  /** The path that is recorded: backslashes are slashes, and nothing else differs. */
  ghost predicate Normalized(relPath: Path, path: Path) {
    |path| == |relPath| && forall i :: 0 <= i < |path| ==> path[i] == if relPath[i] == '\\' then '/' else relPath[i]
  }

  /** h registers the offers for the path, and nothing else than g does. */
  ghost predicate OffersRecorded(g: Graph, h: Graph, path: Path, offers: seq<Name>) {
    forall n ::
      && (n in h.nameToPath <==> n in g.nameToPath || Listed(offers, n))
      && (n in h.nameToPath ==> h.nameToPath[n] == if Listed(offers, n) then path else g.nameToPath[n])
  }

  /** h needs for the path what g needs and what is given, old names first, and for other paths what g needs. */
  ghost predicate NeedsRecorded(g: Graph, h: Graph, path: Path, needed: seq<Name>) {
    && (forall p :: p != path ==> (p in h.needs <==> p in g.needs) && NeedsOf(h.needs, p) == NeedsOf(g.needs, p))
    && (forall n :: n in NeedsOf(h.needs, path) <==> n in NeedsOf(g.needs, path) || Listed(needed, n))
    && (path in h.needs <==> path in g.needs || exists n :: Listed(needed, n))
    && NeedsOf(g.needs, path) <= NeedsOf(h.needs, path)
    && (NoTwice(NeedsOf(g.needs, path)) ==>
          && NoTwice(NeedsOf(h.needs, path))
          && forall i, j :: |NeedsOf(g.needs, path)| <= i < j < |NeedsOf(h.needs, path)| ==>
               ListedBefore(needed, NeedsOf(h.needs, path)[i], NeedsOf(h.needs, path)[j]))
  }

  lemma NeedIsRecorded(g: Graph, path: Path, needed: seq<Name>)
    ensures NeedsRecorded(g, g.(needs := Need(g.needs, UpToEmpty(needed), path)), path, needed)
  {
    var names, t := UpToEmpty(needed), Need(g.needs, UpToEmpty(needed), path);
    NeedAdds(g.needs, names, path);
    NeedHolds(g.needs, names, path);
    forall n { UpToEmptyIsListed(needed, n); }
    if names != [] { assert names[0] in names; }
    if NoTwice(NeedsOf(g.needs, path)) {
      NeedOrders(g.needs, names, path);
      forall i, j | |NeedsOf(g.needs, path)| <= i < j < |NeedsOf(t, path)|
        ensures ListedBefore(needed, NeedsOf(t, path)[i], NeedsOf(t, path)[j])
      {
        SoonerIsListedBefore(needed, NeedsOf(t, path)[i], NeedsOf(t, path)[j]);
      }
    }
    hide Need, UpToEmpty, Listed, ListedBefore;
  }

  /** goog.addDependency records exactly the names given before the first empty one, for the normalized path. */
  lemma RegistrationRecords(g: Graph, relPath: Path, offers: seq<Name>, needed: seq<Name>)
    ensures
      var h, path := Registered(g, relPath, offers, needed), Slashes(relPath);
      Normalized(relPath, path) && OffersRecorded(g, h, path, offers) && NeedsRecorded(g, h, path, needed)
  {
    NeedIsRecorded(g, Slashes(relPath), needed);
    ProvideAdds(g.nameToPath, UpToEmpty(offers), Slashes(relPath));
    forall n { UpToEmptyIsListed(offers, n); }
    hide Need, Provide, UpToEmpty, Listed;
  }

  // ----- any number of registrations, and then any number of goog.require calls -----

  datatype Registration = Registration(relPath: Path, offers: seq<Name>, needed: seq<Name>)

  function RegisteredAll(regs: seq<Registration>): Graph {
    if regs == [] then Graph(map[], map[])
    else
      var last := regs[|regs| - 1];
      Registered(RegisteredAll(regs[..|regs| - 1]), last.relPath, last.offers, last.needed)
  }

  ghost predicate Offers(regs: seq<Registration>, q: nat, n: Name) {
    q < |regs| && Listed(regs[q].offers, n)
  }

  /** The last registration that offers a name counts. */
  ghost predicate Provides(regs: seq<Registration>, q: nat, n: Name) {
    Offers(regs, q, n) && forall j :: q < j < |regs| ==> !Offers(regs, j, n)
  }

  ghost predicate Needs(regs: seq<Registration>, r: nat, n: Name) {
    r < |regs| && Listed(regs[r].needed, n)
  }

  ghost function PathOf(regs: seq<Registration>, r: nat): Path
    requires r < |regs|
  {
    Slashes(regs[r].relPath)
  }

  lemma {:induction false} ProvidedByLast(regs: seq<Registration>, n: Name)
    ensures n in RegisteredAll(regs).nameToPath <==> exists q :: Provides(regs, q, n)
    ensures forall q :: Provides(regs, q, n) ==> n in RegisteredAll(regs).nameToPath && RegisteredAll(regs).nameToPath[n] == PathOf(regs, q)
  {
    if regs != [] {
      var front, last := regs[..|regs| - 1], regs[|regs| - 1];
      ProvidedByLast(front, n);
      RegistrationRecords(RegisteredAll(front), last.relPath, last.offers, last.needed);
      hide Registered, Listed, NeedsRecorded;
      if Listed(last.offers, n) {
        assert Provides(regs, |regs| - 1, n);
        forall q | Provides(regs, q, n) ensures q == |regs| - 1 {
        }
      } else {
        assert forall q :: Provides(regs, q, n) <==> Provides(front, q, n) by {
          assert forall q: nat :: Offers(regs, q, n) <==> Offers(front, q, n);
        }
        forall q | Provides(regs, q, n) ensures PathOf(regs, q) == PathOf(front, q) {
        }
        if q :| Provides(front, q, n) { assert Provides(regs, q, n); }
      }
    } else {
      assert forall q: nat :: !Provides(regs, q, n);
    }
  }

  lemma {:induction false} NeededByAny(regs: seq<Registration>, p: Path, n: Name)
    ensures n in NeedsOf(RegisteredAll(regs).needs, p) <==> exists r :: Needs(regs, r, n) && PathOf(regs, r) == p
  {
    if regs != [] {
      var front, last := regs[..|regs| - 1], regs[|regs| - 1];
      NeededByAny(front, p, n);
      RegistrationRecords(RegisteredAll(front), last.relPath, last.offers, last.needed);
      hide Registered, Listed, OffersRecorded;
      if r :| Needs(front, r, n) && PathOf(front, r) == p {
        assert Needs(regs, r, n) && PathOf(regs, r) == p;
      }
      if Listed(last.needed, n) && Slashes(last.relPath) == p {
        assert Needs(regs, |regs| - 1, n) && PathOf(regs, |regs| - 1) == p;
      }
      if r: nat :| Needs(regs, r, n) && PathOf(regs, r) == p {
        if r < |front| { assert Needs(front, r, n) && PathOf(front, r) == p; }
      }
    }
  }

  function Additions(regs: seq<Registration>): seq<Event> {
    seq(|regs|, i requires 0 <= i < |regs| => Added(regs[i].relPath, regs[i].offers, regs[i].needed))
  }

  lemma {:induction false} RunAppends(s: State, events: seq<Event>, more: seq<Event>)
    ensures Run(s, events + more) == Run(Run(s, events), more)
    decreases |events|
  {
    hide After;
    if events == [] {
      assert [] + more == more;
    } else {
      RunAppends(After(s, events[0]), events[1..], more);
      assert (events + more)[1..] == events[1..] + more;
    }
  }

  lemma {:induction false} AdditionsRegister(basePath: Path, noDeps: bool, regs: seq<Registration>)
    ensures Run(Initial(Graph(map[], map[]), basePath, noDeps), Additions(regs)) == Initial(RegisteredAll(regs), basePath, noDeps)
  {
    var start := Initial(Graph(map[], map[]), basePath, noDeps);
    if regs != [] {
      var front, last := regs[..|regs| - 1], regs[|regs| - 1];
      AdditionsRegister(basePath, noDeps, front);
      var one := [Added(last.relPath, last.offers, last.needed)];
      assert Additions(regs) == Additions(front) + one;
      RunAppends(start, Additions(front), one);
      var s := Initial(RegisteredAll(front), basePath, noDeps);
      assert one[1..] == [];
      assert Run(s, one) == After(s, one[0]) == s.(graph := RegisteredAll(regs));
    }
  }

  /** Whatever is needed is offered, for a path that is not empty. */
  ghost predicate Complete(regs: seq<Registration>) {
    forall r, n :: Needs(regs, r, n) ==> exists q: nat :: Provides(regs, q, n) && regs[q].relPath != ""
  }

  /** Every script ranks above the scripts that provide what it needs. */
  ghost predicate Layered(regs: seq<Registration>, rank: Path -> nat) {
    forall r, q, n :: Needs(regs, r, n) && Provides(regs, q, n) ==> rank(PathOf(regs, q)) < rank(PathOf(regs, r))
  }

  /** No path reads like the address of a script, and deps.js needs nothing. */
  ghost predicate Apart(regs: seq<Registration>, basePath: Path) {
    && (basePath == "" || forall r :: 0 <= r < |regs| ==>
          PathOf(regs, r) != basePath + DEPS_JS && forall q :: 0 <= q < |regs| ==> PathOf(regs, r) != basePath + PathOf(regs, q))
    && forall r, n :: Needs(regs, r, n) ==> PathOf(regs, r) != DEPS_JS
  }

  lemma NeedsAreNeeds(regs: seq<Registration>, p: Path, n: Name) returns (r: nat)
    requires p in RegisteredAll(regs).needs && n in RegisteredAll(regs).needs[p]
    ensures Needs(regs, r, n) && PathOf(regs, r) == p
  {
    NeededByAny(regs, p, n);
    r :| Needs(regs, r, n) && PathOf(regs, r) == p;
  }

  lemma ValuesArePaths(regs: seq<Registration>, p: Path) returns (q: nat)
    requires p in RegisteredAll(regs).nameToPath.Values
    ensures q < |regs| && PathOf(regs, q) == p
  {
    var n :| n in RegisteredAll(regs).nameToPath && RegisteredAll(regs).nameToPath[n] == p;
    ProvidedByLast(regs, n);
    q :| Provides(regs, q, n);
  }

  lemma {:induction false} NothingEmptyNeeded(regs: seq<Registration>, p: Path)
    requires p in RegisteredAll(regs).needs
    ensures RegisteredAll(regs).needs[p] != []
  {
    var front, last := regs[..|regs| - 1], regs[|regs| - 1];
    RegistrationRecords(RegisteredAll(front), last.relPath, last.offers, last.needed);
    if p in RegisteredAll(front).needs {
      NothingEmptyNeeded(front, p);
    }
    hide Registered, Listed, OffersRecorded;
    if p == Slashes(last.relPath) && p !in RegisteredAll(front).needs {
      var n :| Listed(last.needed, n);
      assert n in NeedsOf(RegisteredAll(regs).needs, p);
    }
  }

  lemma RegisteredIsClosed(regs: seq<Registration>, rank: Path -> nat)
    requires Complete(regs) && Layered(regs, rank)
    ensures Closed(RegisteredAll(regs)) && Ranked(RegisteredAll(regs), rank)
  {
    var g := RegisteredAll(regs);
    forall p, n | p in g.needs && n in g.needs[p]
      ensures n in g.nameToPath && g.nameToPath[n] != "" && rank(g.nameToPath[n]) < rank(p)
    {
      var r := NeedsAreNeeds(regs, p, n);
      var q: nat :| Provides(regs, q, n) && regs[q].relPath != "";
      ProvidedByLast(regs, n);
    }
  }

  lemma RegisteredIsApart(regs: seq<Registration>, basePath: Path)
    requires Apart(regs, basePath)
    ensures NoCollision(RegisteredAll(regs), basePath) && DEPS_JS !in RegisteredAll(regs).needs
  {
    var g := RegisteredAll(regs);
    if basePath != "" {
      forall p, q | p in g.nameToPath.Values && Known(g, q) ensures p != basePath + q {
        var r := ValuesArePaths(regs, p);
        if q != DEPS_JS { var s := ValuesArePaths(regs, q); }
      }
    }
    if DEPS_JS in g.needs {
      NothingEmptyNeeded(regs, DEPS_JS);
      var r := NeedsAreNeeds(regs, DEPS_JS, g.needs[DEPS_JS][0]);
      assert false;
    }
  }

  /** A script was imported only after the scripts that provide what it needs and what was not provided then. */
  ghost predicate LogInOrder(regs: seq<Registration>, basePath: Path, log: seq<Import>) {
    forall i, r: nat, q: nat, n :: 0 <= i < |log| && Needs(regs, r, n) && Provides(regs, q, n) ==>
      log[i].src == basePath + PathOf(regs, r) && n !in log[i].provided ==> ImportedBefore(log, i, basePath + PathOf(regs, q))
  }

  /** The script of every name that was asked for, was offered and was not provided was imported. */
  ghost predicate AllImported(regs: seq<Registration>, basePath: Path, events: seq<Event>, written: set<Path>) {
    forall i, q: nat :: 0 <= i < |events| && events[i].Required? && Provides(regs, q, events[i].call.name) && regs[q].relPath != "" ==>
      events[i].call.name in events[i].call.provided || basePath + PathOf(regs, q) in written
  }

  lemma OrderOfRegistered(regs: seq<Registration>, basePath: Path, log: seq<Import>)
    requires InOrder(RegisteredAll(regs), basePath, log)
    ensures LogInOrder(regs, basePath, log)
  {
    var g := RegisteredAll(regs);
    hide RegisteredAll, Listed, Slashes, ImportedBefore;
    forall i, r: nat, q: nat, n | 0 <= i < |log| && Needs(regs, r, n) && Provides(regs, q, n)
      ensures log[i].src == basePath + PathOf(regs, r) && n !in log[i].provided ==> ImportedBefore(log, i, basePath + PathOf(regs, q))
    {
      NeededByAny(regs, PathOf(regs, r), n);
      ProvidedByLast(regs, n);
      assert EntryInOrder(g, basePath, log, i);
    }
  }

  lemma ImportsOfRegistered(regs: seq<Registration>, events: seq<Event>, t: State, i: nat, q: nat)
    requires i < |events| && events[i].Required? && Provides(regs, q, events[i].call.name) && regs[q].relPath != ""
    requires t.graph == RegisteredAll(regs)
    requires var c := events[i].call;
      c.name in c.provided || (c.name in t.graph.nameToPath && t.graph.nameToPath[c.name] != "" ==> IsImported(t, c.name))
    ensures events[i].call.name in events[i].call.provided || t.basePath + PathOf(regs, q) in t.store.written
  {
    ProvidedByLast(regs, events[i].call.name);
    assert |Slashes(regs[q].relPath)| == |regs[q].relPath|;
    hide RegisteredAll, Slashes, Listed;
  }

  /**
   * After any sequence of goog.addDependency calls in which every needed name is offered and nothing is
   * needed in a circle, any sequence of goog.require calls imports every script at most once; every
   * script only after the scripts that provide what any registration of it needs and what was not provided
   * at that time; and the script of every name it was asked for that was offered and not provided.
   */
  lemma RegisteredScriptsComeInOrder(regs: seq<Registration>, basePath: Path, noDeps: bool, rank: Path -> nat, events: seq<Event>)
    requires Complete(regs) && Layered(regs, rank) && Apart(regs, basePath) && AllRequired(events)
    ensures
      var t := Run(Initial(Graph(map[], map[]), basePath, noDeps), Additions(regs) + events);
      EachOnce(t.store) && LogInOrder(regs, basePath, t.store.log) && AllImported(regs, basePath, events, t.store.written)
  {
    var g, start := RegisteredAll(regs), Initial(Graph(map[], map[]), basePath, noDeps);
    var t := Run(start, Additions(regs) + events);
    RegisteredIsClosed(regs, rank);
    RegisteredIsApart(regs, basePath);
    AdditionsRegister(basePath, noDeps, regs);
    RunAppends(start, Additions(regs), events);
    InitialInv(g, basePath, noDeps);
    RunKeepsInv(Initial(g, basePath, noDeps), rank, events);
    OrderOfRegistered(regs, basePath, t.store.log);
    RegisteredImported(regs, events, t);
    hide Run, RegisteredAll, Closed, Ranked, NoCollision, InOrder, IsImported, Complete, Layered, Apart;
  }

  lemma RegisteredImported(regs: seq<Registration>, events: seq<Event>, t: State)
    requires t.graph == RegisteredAll(regs) && AllRequired(events)
    requires forall i :: 0 <= i < |events| ==>
        var c := events[i].call;
        c.name in c.provided || (c.name in t.graph.nameToPath && t.graph.nameToPath[c.name] != "" ==> IsImported(t, c.name))
    ensures AllImported(regs, t.basePath, events, t.store.written)
  {
    hide RegisteredAll, Listed, IsImported;
    forall i, q: nat | 0 <= i < |events| && events[i].Required? && Provides(regs, q, events[i].call.name) && regs[q].relPath != ""
      ensures events[i].call.name in events[i].call.provided || t.basePath + PathOf(regs, q) in t.store.written
    {
      ImportsOfRegistered(regs, events, t, i, q);
    }
  }
}
