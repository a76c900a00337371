/**
 * goog.provide and the registry of implicit namespaces of
 * javascript/phonenumbernormalizer/js/base.js. The objects reachable from the global object are
 * kept as the set of their paths.
 */
module Namespaces {
  type Name = string
  type Path = seq<string>

  // ----- names and paths -----

  /** lastIndexOf('.') */
  function LastDot(s: Name): (i: int)
    ensures -1 <= i < |s|
    ensures i >= 0 ==> s[i] == '.'
    ensures forall k :: i < k < |s| ==> s[k] != '.'
  {
    if s == "" then -1 else if s[|s| - 1] == '.' then |s| - 1 else LastDot(s[..|s| - 1])
  }

  /** name.split('.') */
  function Split(s: Name): (parts: Path)
    ensures parts != []
  {
    var i := LastDot(s);
    if i < 0 then [s] else Split(s[..i]) + [s[i + 1..]]
  }

  /** name.substring(0, name.lastIndexOf('.')), which is empty when there is no dot. */
  function Parent(s: Name): (p: Name)
    ensures s != "" ==> |p| < |s|
  {
    var i := LastDot(s);
    if i < 0 then "" else s[..i]
  }

  function Join(parts: Path): Name
    requires parts != []
  {
    if |parts| == 1 then parts[0] else Join(parts[..|parts| - 1]) + "." + parts[|parts| - 1]
  }

  lemma {:induction false} JoinSplit(s: Name)
    ensures Join(Split(s)) == s
    decreases |s|
  {
    var i := LastDot(s);
    if i >= 0 {
      JoinSplit(s[..i]);
      var front, last := Split(s[..i]), s[i + 1..];
      assert (front + [last])[..|front|] == front;
      assert s == s[..i] + "." + s[i + 1..];
    }
  }

  /** A name has no empty part. */
  predicate WellFormed(s: Name) {
    forall i :: 0 <= i < |Split(s)| ==> Split(s)[i] != ""
  }

  /** The loops over the parts of a name stop at the first empty one. */
  function UpToEmpty(parts: Path): Path {
    if parts == [] || parts[0] == "" then [] else [parts[0]] + UpToEmpty(parts[1..])
  }

  /** Where a loop ends up that has reached cur and still has the parts from i on before it. */
  function Ahead(cur: Path, parts: Path, i: nat): Path
    requires i <= |parts|
  {
    cur + UpToEmpty(parts[i..])
  }

  lemma AheadStarts(parts: Path)
    ensures Ahead([], parts, 0) == UpToEmpty(parts)
  {
    assert parts[0..] == parts;
  }

  lemma AheadMoves(cur: Path, parts: Path, i: nat)
    requires i < |parts| && parts[i] != ""
    ensures Ahead(cur, parts, i) == Ahead(cur + [parts[i]], parts, i + 1)
    ensures Prefix(cur + [parts[i]], Ahead(cur, parts, i))
  {
    assert parts[i..][1..] == parts[i + 1..];
    var rest := UpToEmpty(parts[i + 1..]);
    assert cur + ([parts[i]] + rest) == (cur + [parts[i]]) + rest;
  }

  lemma AheadEnds(cur: Path, parts: Path, i: nat)
    requires i == |parts| || (i < |parts| && parts[i] == "")
    ensures Ahead(cur, parts, i) == cur
  {
    assert UpToEmpty(parts[i..]) == [];
  }

  lemma {:induction false} NoneEmpty(parts: Path)
    requires forall i :: 0 <= i < |parts| ==> parts[i] != ""
    ensures UpToEmpty(parts) == parts
  {
    if parts != [] { NoneEmpty(parts[1..]); }
  }

  /** The object a name stands for. */
  function Target(s: Name): Path {
    UpToEmpty(Split(s))
  }

  lemma ParentSplit(s: Name)
    requires WellFormed(s)
    ensures Target(s) == Split(s)
    ensures Parent(s) == "" <==> |Split(s)| == 1
    ensures Parent(s) != "" ==> WellFormed(Parent(s)) && Split(Parent(s)) == Split(s)[..|Split(s)| - 1]
  {
    NoneEmpty(Split(s));
    var i := LastDot(s);
    assert Split("") == [""];
    if i > 0 {
      var front := Split(s[..i]);
      assert Split(s)[..|front|] == front;
      forall k | 0 <= k < |front| ensures front[k] != "" { assert front[k] == Split(s)[k]; }
    }
  }

  predicate Prefix(p: Path, q: Path) {
    |p| <= |q| && p == q[..|p|]
  }

  // ----- the registry -----

  /** The paths of the existing objects, and goog.implicitNamespaces_. */
  datatype Registry = Registry(objects: set<Path>, implicit_: set<Name>)

  /** Every object hangs from another one, up to the global object. */
  ghost predicate PrefixClosed(objects: set<Path>) {
    [] in objects && forall p :: p in objects && p != [] ==> p[..|p| - 1] in objects
  }

  /** getObjectByName finds an object. */
  predicate Exists(objects: set<Path>, name: Name) {
    Target(name) in objects
  }

  /** isProvided_ */
  predicate IsProvided(r: Registry, name: Name) {
    name !in r.implicit_ && Exists(r.objects, name)
  }

  /** The names the loop in goog.provide marks from one on: it stops at the first one that exists. */
  function MarkedFrom(objects: set<Path>, name: Name): set<Name>
    decreases |name|
  {
    if name == "" || Exists(objects, name) then {} else {name} + MarkedFrom(objects, Parent(name))
  }

  /** The objects after exportPath_: every prefix of the path. */
  function Exported(objects: set<Path>, path: Path): set<Path> {
    objects + set i | 0 <= i <= |path| :: path[..i]
  }

  /** goog.provide, when it does not throw. */
  function Provided(r: Registry, name: Name): Registry {
    Registry(Exported(r.objects, Target(name)), r.implicit_ - {name} + MarkedFrom(r.objects, Parent(name)))
  }

  /** goog.provide; a name that is provided already is an error and changes nothing. */
  function Provide(r: Registry, name: Name): Registry {
    if IsProvided(r, name) then r else Provided(r, name)
  }

  datatype Result = Ok | AlreadyDeclared(name: Name)

  class Goog {
    var objects: set<Path>
    var implicitNamespaces: set<Name>

    ghost predicate Valid()
      reads this
    {
      PrefixClosed(objects)
    }

    ghost function Contents(): Registry
      reads this
    {
      Registry(objects, implicitNamespaces)
    }

    constructor (objects: set<Path>)
      requires PrefixClosed(objects)
      ensures Valid() && Contents() == Registry(objects, {})
    {
      this.objects := objects;
      implicitNamespaces := {};
    }

    method GetObjectByName(name: Name) returns (found: bool)
      requires Valid()
      ensures found == Exists(objects, name)
    {
      var parts := Split(name);
      var cur: Path := [];
      assert cur in objects;
      AheadStarts(parts);
      var i := 0;
      hide Split, UpToEmpty, Ahead, PrefixClosed;
      while i < |parts| && parts[i] != ""
        invariant 0 <= i <= |parts|
        invariant cur in objects
        invariant Target(name) == Ahead(cur, parts, i)
      {
        AheadMoves(cur, parts, i);
        if cur + [parts[i]] !in objects {
          PrefixMissing(objects, cur + [parts[i]], Target(name));
          return false;
        }
        cur := cur + [parts[i]];
        i := i + 1;
      }
      AheadEnds(cur, parts, i);
      return true;
    }

    method IsProvided_(name: Name) returns (provided: bool)
      requires Valid()
      ensures provided == IsProvided(Contents(), name)
    {
      var exists_ := GetObjectByName(name);
      return name !in implicitNamespaces && exists_;
    }

    method ExportPath_(name: Name)
      requires Valid()
      modifies this`objects
      ensures Valid()
      ensures objects == Exported(old(objects), Target(name))
    {
      var parts := Split(name);
      var cur: Path := [];
      assert cur in objects;
      AheadStarts(parts);
      ExportedNothing(objects);
      var i := 0;
      hide Split, UpToEmpty, Ahead, PrefixClosed, Exported;
      while i < |parts| && parts[i] != ""
        invariant 0 <= i <= |parts|
        invariant Valid() && cur in objects
        invariant Target(name) == Ahead(cur, parts, i)
        invariant objects == Exported(old(objects), cur)
      {
        AheadMoves(cur, parts, i);
        ghost var before := objects;
        ExportedNext(old(objects), cur, parts[i]);
        ExportedNext(objects, cur, parts[i]);
        cur := cur + [parts[i]];
        if cur !in objects {
          objects := objects + {cur};
        }
        assert objects == before + {cur};
        i := i + 1;
      }
      AheadEnds(cur, parts, i);
    }

    method Provide_(name: Name) returns (result: Result)
      requires Valid()
      modifies this
      ensures Valid()
      ensures Contents() == Provide(old(Contents()), name)
      ensures result == if IsProvided(old(Contents()), name) then AlreadyDeclared(name) else Ok
    {
      hide Split, Target, Parent, Exported, PrefixClosed;
      var declared := IsProvided_(name);
      if declared {
        return AlreadyDeclared(name);
      }
      implicitNamespaces := implicitNamespaces - {name};
      ghost var marked := implicitNamespaces + MarkedFrom(objects, Parent(name));
      var namespace := Parent(name);
      var stop := false;
      while namespace != "" && !stop
        invariant objects == old(objects)
        invariant stop ==> implicitNamespaces == marked
        invariant !stop ==> marked == implicitNamespaces + MarkedFrom(objects, namespace)
        decreases |namespace|, !stop
      {
        var found := GetObjectByName(namespace);
        if found {
          stop := true;
        } else {
          implicitNamespaces := implicitNamespaces + {namespace};
          namespace := Parent(namespace);
        }
      }
      ExportPath_(name);
      return Ok;
    }
  }

  lemma {:induction false} PrefixMissing(objects: set<Path>, p: Path, q: Path)
    requires PrefixClosed(objects) && Prefix(p, q) && p !in objects
    ensures q !in objects
    decreases |q|
  {
    if |p| < |q| {
      assert q[..|q| - 1][..|p|] == p;
      PrefixMissing(objects, p, q[..|q| - 1]);
    } else {
      assert p == q;
    }
  }

  lemma ExportedHas(objects: set<Path>, path: Path, p: Path)
    ensures p in Exported(objects, path) <==> p in objects || Prefix(p, path)
  {
    if Prefix(p, path) { assert p == path[..|p|]; }
  }

  lemma ExportedNothing(objects: set<Path>)
    requires PrefixClosed(objects)
    ensures Exported(objects, []) == objects
  {
    forall p ensures p in Exported(objects, []) <==> p in objects {
      ExportedHas(objects, [], p);
    }
  }

  lemma ExportedNext(objects: set<Path>, path: Path, part: string)
    ensures Exported(objects, path + [part]) == Exported(objects, path) + {path + [part]}
    ensures PrefixClosed(objects) && path in objects ==> PrefixClosed(objects + {path + [part]})
  {
    forall p ensures p in Exported(objects, path + [part]) <==> p in Exported(objects, path) + {path + [part]} {
      ExportedHas(objects, path + [part], p);
      ExportedHas(objects, path, p);
      PrefixesOf(path, part);
    }
    assert (path + [part])[..|path|] == path;
  }

  lemma PrefixesOf(path: Path, part: string)
    ensures forall p :: Prefix(p, path + [part]) <==> Prefix(p, path) || p == path + [part]
  {
    forall p ensures Prefix(p, path + [part]) <==> Prefix(p, path) || p == path + [part] {
      if |p| <= |path| {
        assert (path + [part])[..|p|] == path[..|p|];
      }
    }
  }

  // ----- what a sequence of goog.provide calls means -----

  /**
   * The registry and its history after a sequence of calls: the names that were provided, and for
   * every object that did not exist at the start the name that made it.
   */
  datatype History = History(registry: Registry, explicit: set<Name>, makers: map<Path, Name>)

  function Made(h: History, name: Name): map<Path, Name> {
    h.makers + map p | p in Exported(h.registry.objects, Target(name)) - h.registry.objects :: name
  }

  function Next(h: History, name: Name): History {
    if IsProvided(h.registry, name) then h
    else History(Provide(h.registry, name), h.explicit + {name}, Made(h, name))
  }

  function Run(h: History, names: seq<Name>): History
    decreases |names|
  {
    if names == [] then h else Run(Next(h, names[0]), names[1..])
  }

  /** m is one of the names that come before n when its last parts are cut off one by one. */
  predicate Above(m: Name, n: Name) {
    m != n && Prefix(Split(m), Split(n))
  }

  // ----- names with empty parts included -----

  lemma {:induction false} UpToEmptyMonotone(p: Path, q: Path)
    requires Prefix(p, q)
    ensures Prefix(UpToEmpty(p), UpToEmpty(q))
    decreases |p|
  {
    if p != [] && p[0] != "" {
      assert p[1..] == q[1..][..|p| - 1] && p[0] == q[0];
      UpToEmptyMonotone(p[1..], q[1..]);
    }
  }

  lemma {:induction false} UpToEmptyIsPrefix(p: Path)
    ensures Prefix(UpToEmpty(p), p)
  {
    if p != [] && p[0] != "" { UpToEmptyIsPrefix(p[1..]); }
  }

  /** Cutting off the last part: the shorter name splits into the parts before it. */
  lemma ParentParts(s: Name)
    ensures LastDot(s) < 0 ==> Split(s) == [s] && Parent(s) == ""
    ensures LastDot(s) >= 0 ==> |Split(s)| > 1 && Split(Parent(s)) == Split(s)[..|Split(s)| - 1]
  {
    var i := LastDot(s);
    if i >= 0 {
      var front := Split(s[..i]);
      assert Split(s)[..|front|] == front;
    }
  }

  lemma AboveParent(m: Name, n: Name)
    ensures LastDot(n) < 0 ==> (Above(m, n) <==> false)
    ensures LastDot(n) >= 0 ==> (Above(m, n) <==> m == Parent(n) || Above(m, Parent(n)))
  {
    ParentParts(n);
    JoinSplit(m);
    JoinSplit(n);
    var parts := Split(n);
    var above := parts[..|parts| - 1];
    assert parts == above + [parts[|parts| - 1]];
    PrefixesOf(above, parts[|parts| - 1]);
    if LastDot(n) < 0 {
      assert Prefix(Split(m), above) ==> Split(m) == [];
    } else {
      JoinSplit(Parent(n));
      assert Split(m) == above ==> m == Parent(n);
      assert Split(m) == parts ==> m == n;
      assert Prefix(above, above) && Prefix(above, parts);
    }
  }

  lemma AboveTargets(m: Name, n: Name)
    requires m == n || Above(m, n)
    ensures Prefix(Target(m), Target(n))
  {
    UpToEmptyMonotone(Split(m), Split(n));
  }

  lemma EmptyExists(objects: set<Path>)
    requires PrefixClosed(objects)
    ensures Exists(objects, "")
  {
    assert Split("") == [""];
  }

  /** The loop marks exactly the missing ancestors, although it stops at the first one that exists. */
  lemma {:induction false} MarkedAbove(objects: set<Path>, name: Name, m: Name)
    requires PrefixClosed(objects)
    ensures m in MarkedFrom(objects, Parent(name)) <==> Above(m, name) && !Exists(objects, m)
    decreases |name|
  {
    var parent := Parent(name);
    AboveParent(m, name);
    ParentParts(name);
    EmptyExists(objects);
    if parent == "" {
      if Above(m, name) { AboveParent(m, ""); }
    } else {
      if Exists(objects, parent) && (m == parent || Above(m, parent)) {
        AboveTargets(m, parent);
        if !Exists(objects, m) { PrefixMissing(objects, Target(m), Target(parent)); }
      }
      MarkedAbove(objects, parent, m);
    }
  }

  // ----- the state in terms of the history -----

  /** The objects are the starting ones and those that were made later. */
  ghost predicate ObjectsAre(start: set<Path>, h: History) {
    h.registry.objects == start + h.makers.Keys && start !! h.makers.Keys
  }

  /** Every object was made on the way to a provided name. */
  ghost predicate MakersReach(h: History) {
    forall p {:trigger h.makers[p]} :: p in h.makers ==> h.makers[p] in h.explicit && Prefix(p, Target(h.makers[p]))
  }

  ghost predicate ExplicitExist(h: History) {
    forall n :: n in h.explicit ==> Target(n) in h.makers
  }

  /** A name is implicit when it was not provided and lies above the name that made its object. */
  ghost predicate ImplicitAre(h: History) {
    forall m :: m in h.registry.implicit_ <==>
      m !in h.explicit && Target(m) in h.makers && Above(m, h.makers[Target(m)])
  }

  /** The whole state, said in terms of the starting objects and the history. */
  ghost predicate Describes(start: set<Path>, h: History) {
    PrefixClosed(h.registry.objects) && ObjectsAre(start, h) && MakersReach(h) && ExplicitExist(h) && ImplicitAre(h)
  }

  lemma MadeAre(h: History, n: Name)
    ensures forall p :: p in Made(h, n) <==> p in h.makers || (p !in h.registry.objects && Prefix(p, Target(n)))
    ensures forall p :: p in Made(h, n) ==>
      Made(h, n)[p] == if p !in h.registry.objects && Prefix(p, Target(n)) then n else h.makers[p]
  {
    forall p ensures p in Exported(h.registry.objects, Target(n)) <==> p in h.registry.objects || Prefix(p, Target(n)) {
      ExportedHas(h.registry.objects, Target(n), p);
    }
  }

  lemma ExportedClosed(objects: set<Path>, path: Path)
    requires PrefixClosed(objects)
    ensures PrefixClosed(Exported(objects, path))
  {
    var after := Exported(objects, path);
    forall p ensures p in after <==> p in objects || Prefix(p, path) {
      ExportedHas(objects, path, p);
    }
    forall p | p in after && p != [] ensures p[..|p| - 1] in after {
      assert Prefix(p, path) ==> Prefix(p[..|p| - 1], path);
    }
  }

  lemma MadeKeys(start: set<Path>, h: History, n: Name)
    requires ObjectsAre(start, h) && !IsProvided(h.registry, n)
    ensures ObjectsAre(start, Next(h, n))
  {
    var added := Exported(h.registry.objects, Target(n)) - h.registry.objects;
    assert Made(h, n).Keys == h.makers.Keys + added;
    assert h.registry.objects <= Exported(h.registry.objects, Target(n));
  }

  lemma MakersStillReach(h: History, n: Name)
    requires MakersReach(h) && !IsProvided(h.registry, n)
    ensures MakersReach(Next(h, n))
  {
    MadeAre(h, n);
    hide Made, Target, Prefix;
  }

  lemma ExplicitStillExist(start: set<Path>, h: History, n: Name)
    requires ObjectsAre(start, h) && ExplicitExist(h) && ImplicitAre(h) && !IsProvided(h.registry, n)
    ensures ExplicitExist(Next(h, n))
  {
    MadeAre(h, n);
    hide Made, Target;
    assert Prefix(Target(n), Target(n));
  }

  lemma ProvideKeepsObjects(start: set<Path>, h: History, n: Name)
    requires Describes(start, h) && !IsProvided(h.registry, n)
    ensures PrefixClosed(Next(h, n).registry.objects)
    ensures ObjectsAre(start, Next(h, n)) && MakersReach(Next(h, n)) && ExplicitExist(Next(h, n))
  {
    MadeKeys(start, h, n);
    MakersStillReach(h, n);
    ExplicitStillExist(start, h, n);
    ExportedClosed(h.registry.objects, Target(n));
    hide ObjectsAre, MakersReach, ExplicitExist, PrefixClosed, ImplicitAre;
  }

  lemma ProvideKeepsImplicit(start: set<Path>, h: History, n: Name)
    requires Describes(start, h) && !IsProvided(h.registry, n)
    ensures ImplicitAre(Next(h, n))
  {
    var t := Next(h, n);
    MadeAre(h, n);
    hide MakersReach, PrefixClosed;
    forall m ensures m in t.registry.implicit_ <==> m !in t.explicit && Target(m) in t.makers && Above(m, t.makers[Target(m)]) {
      MarkedAbove(h.registry.objects, n, m);
      if Above(m, n) { AboveTargets(m, n); }
    }
  }

  lemma {:induction false} RunKeepsDescription(start: set<Path>, h: History, names: seq<Name>)
    requires Describes(start, h)
    ensures Describes(start, Run(h, names))
    decreases |names|
  {
    if names != [] {
      if !IsProvided(h.registry, names[0]) {
        ProvideKeepsObjects(start, h, names[0]);
        ProvideKeepsImplicit(start, h, names[0]);
      }
      RunKeepsDescription(start, Next(h, names[0]), names[1..]);
    }
  }

  /** The object of the name was made by a provided name that the name does not lie above. */
  predicate MadeByAnother(h: History, n: Name) {
    Target(n) in h.makers && !Above(n, h.makers[Target(n)])
  }

  /** What isProvided_ answers for any name, with or without empty parts. */
  lemma ProvidedExactlyWhen(start: set<Path>, h: History, n: Name)
    requires Describes(start, h)
    ensures IsProvided(h.registry, n) <==> n in h.explicit || Target(n) in start || MadeByAnother(h, n)
  {
  }

  lemma PrefixThrough(p: Path, q: Path, r: Path)
    requires Prefix(p, q) && Prefix(q, r)
    ensures Prefix(p, r)
  {
    assert q[..|p|] == r[..|q|][..|p|] == r[..|p|];
  }

  /** A name without empty parts lies above whatever made its object, or is that name. */
  lemma WellFormedIsAbove(start: set<Path>, h: History, n: Name)
    requires Describes(start, h) && WellFormed(n) && MadeByAnother(h, n)
    ensures n in h.explicit
  {
    var e := h.makers[Target(n)];
    ParentSplit(n);
    UpToEmptyIsPrefix(Split(e));
    PrefixThrough(Target(n), Target(e), Split(e));
    JoinSplit(n);
    hide Target, Split, UpToEmpty, WellFormed, ImplicitAre, Join, Prefix;
    assert Prefix(Split(n), Split(e));
  }

  /** The objects are the starting ones and all prefixes of what the provided names stand for. */
  ghost predicate ObjectsMean(start: set<Path>, h: History) {
    forall p :: p in h.registry.objects <==> p in start || exists n :: n in h.explicit && Prefix(p, Target(n))
  }

  lemma MadeForAName(start: set<Path>, h: History, p: Path)
    requires ObjectsAre(start, h) && MakersReach(h) && p in h.registry.objects && p !in start
    ensures exists n :: n in h.explicit && Prefix(p, Target(n))
  {
    var n := h.makers[p];
    assert n in h.explicit && Prefix(p, Target(n));
  }

  lemma PrefixExists(start: set<Path>, h: History, n: Name, p: Path)
    requires Describes(start, h) && n in h.explicit && Prefix(p, Target(n))
    ensures p in h.registry.objects
  {
    assert Target(n) in h.registry.objects;
    if p !in h.registry.objects { PrefixMissing(h.registry.objects, p, Target(n)); }
  }

  lemma ObjectsAreAllPrefixes(start: set<Path>, h: History)
    requires Describes(start, h)
    ensures ObjectsMean(start, h)
  {
    hide MakersReach, ExplicitExist, ImplicitAre, PrefixClosed, Target, Prefix;
    forall p ensures p in h.registry.objects <==> p in start || exists n :: n in h.explicit && Prefix(p, Target(n)) {
      if p in h.registry.objects && p !in start { MadeForAName(start, h, p); }
      if n :| n in h.explicit && Prefix(p, Target(n)) { PrefixExists(start, h, n, p); }
    }
  }

  ghost function Began(start: set<Path>): History {
    History(Registry(start, {}), {}, map[])
  }

  /**
   * After any sequence of goog.provide calls with any names, from any prefix-closed set of existing
   * objects: the objects are the starting ones and those made on the way to a provided name, the
   * implicit namespaces are the names above the one that made their object, and isProvided_
   * accepts what was provided, what existed, and the names MadeByAnother describes.
   */
  lemma RegistryMeansHistory(start: set<Path>, names: seq<Name>)
    requires PrefixClosed(start)
    ensures
      var h := Run(Began(start), names);
      && Describes(start, h)
      && ObjectsMean(start, h)
      && (forall n :: IsProvided(h.registry, n) <==> n in h.explicit || Target(n) in start || MadeByAnother(h, n))
  {
    RunKeepsDescription(start, Began(start), names);
    var h := Run(Began(start), names);
    ObjectsAreAllPrefixes(start, h);
    hide Describes, ObjectsMean, IsProvided, MadeByAnother, Run;
    forall n ensures IsProvided(h.registry, n) <==> n in h.explicit || Target(n) in start || MadeByAnother(h, n) {
      ProvidedExactlyWhen(start, h, n);
    }
  }

  /** isProvided_ accepts a name that was neither provided nor there at the start. */
  predicate WronglyProvided(start: set<Path>, h: History, n: Name) {
    IsProvided(h.registry, n) && n !in h.explicit && Target(n) !in start
  }

  /**
   * A name counts as provided wrongly exactly when its object was made by a name it does not lie
   * above; only a name with an empty part can, whatever names were provided.
   */
  lemma WronglyProvidedExactlyWhen(start: set<Path>, names: seq<Name>, n: Name)
    requires PrefixClosed(start)
    ensures
      var h := Run(Began(start), names);
      && (WronglyProvided(start, h, n) <==> n !in h.explicit && MadeByAnother(h, n))
      && (WronglyProvided(start, h, n) ==> !WellFormed(n))
  {
    RunKeepsDescription(start, Began(start), names);
    var h := Run(Began(start), names);
    ProvidedExactlyWhen(start, h, n);
    if WellFormed(n) && MadeByAnother(h, n) { WellFormedIsAbove(start, h, n); }
  }

  /** As soon as one name has been provided, the same name with a dot at its end may count as provided too. */
  lemma TrailingDotIsProvided(start: set<Path>, n: Name)
    requires PrefixClosed(start) && WellFormed(n) && Target(n) !in start
    ensures WronglyProvided(start, Run(Began(start), [n]), n + ".")
  {
    var h := Began(start);
    var t := Next(h, n);
    var dotted := n + ".";
    assert LastDot(dotted) == |n| && dotted[..|n|] == n && dotted[|n| + 1..] == "";
    assert Split(dotted) == Split(n) + [""];
    ParentSplit(n);
    DroppedEmpty(Split(n));
    assert Run(h, [n]) == Run(t, []) == t;
    RunKeepsDescription(start, h, [n]);
    MadeAre(h, n);
    assert Prefix(Target(n), Target(n));
    assert t.makers[Target(dotted)] == n;
    ProvidedExactlyWhen(start, t, dotted);
  }

  lemma {:induction false} DroppedEmpty(parts: Path)
    ensures UpToEmpty(parts + [""]) == UpToEmpty(parts)
  {
    if parts == [] {
      assert parts + [""] == [""];
    } else {
      assert (parts + [""])[1..] == parts[1..] + [""];
      DroppedEmpty(parts[1..]);
    }
  }

  /** The well-formed names that were provided are those asked for that did not exist at the start. */
  lemma {:induction false} ExplicitAreTheNames(start: set<Path>, h: History, names: seq<Name>, n: Name)
    requires Describes(start, h) && WellFormed(n)
    ensures n in Run(h, names).explicit <==> n in h.explicit || (n in names && Target(n) !in start)
    decreases |names|
  {
    if names != [] {
      var t := Next(h, names[0]);
      if !IsProvided(h.registry, names[0]) {
        ProvideKeepsObjects(start, h, names[0]);
        ProvideKeepsImplicit(start, h, names[0]);
      }
      if names[0] == n {
        ProvidedExactlyWhen(start, h, n);
        if MadeByAnother(h, n) { WellFormedIsAbove(start, h, n); }
      }
      ExplicitAreTheNames(start, t, names[1..], n);
    }
  }
}
