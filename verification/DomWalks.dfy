/**
 * The tree walks of javascript/phonenumbernormalizer/js/dom.js: getNextNode,
 * getPreviousNode and findNodes_, over nodes that know their relatives only by pointers.
 */
module DomWalks {
  import opened JsArrays

  class Node {
    var firstChild: Node?
    var lastChild: Node?
    var nextSibling: Node?
    var previousSibling: Node?
    var parentNode: Node?
  }

  /** The finite ordered tree that the pointers describe. */
  datatype Tree = Tree(node: Node, kids: seq<Tree>)

  /** Source order. */
  ghost function Preorder(t: Tree): (s: seq<Node>)
    ensures |s| > 0 && s[0] == t.node
    decreases t, 1
  {
    [t.node] + Forest(t.kids)
  }

  ghost function Forest(ts: seq<Tree>): seq<Node>
    decreases ts, 0
  {
    if ts == [] then [] else Preorder(ts[0]) + Forest(ts[1..])
  }

  ghost function Nodes(t: Tree): set<Node>
    decreases t, 1
  {
    {t.node} + ForestNodes(t.kids)
  }

  ghost function ForestNodes(ts: seq<Tree>): set<Node>
    decreases ts, 0
  {
    if ts == [] then {} else Nodes(ts[0]) + ForestNodes(ts[1..])
  }

  ghost function NodeAt(ts: seq<Tree>, i: int): Node? {
    if 0 <= i < |ts| then ts[i].node else null
  }

  /** What the pointers of one node are. */
  datatype Links = Links(firstChild: Node?, lastChild: Node?, nextSibling: Node?, previousSibling: Node?, parentNode: Node?)

  type Wiring = map<Node, Links>

  /** The pointers in memory are as w says. */
  ghost predicate Wired(w: Wiring)
    reads w.Keys
  {
    forall n :: n in w ==> w[n] == Links(n.firstChild, n.lastChild, n.nextSibling, n.previousSibling, n.parentNode)
  }

  /** The pointers of every node of t agree with t, given those of its root. */
  ghost predicate Linked(t: Tree, w: Wiring, parent: Node?, prev: Node?, next: Node?)
    decreases t, 1
  {
    && t.node in w
    && w[t.node] == Links(NodeAt(t.kids, 0), NodeAt(t.kids, |t.kids| - 1), next, prev, parent)
    && ForestLinked(t.kids, w, t.node, null)
  }

  ghost predicate ForestLinked(ts: seq<Tree>, w: Wiring, parent: Node, prev: Node?)
    decreases ts, 0
  {
    ts == [] || (Linked(ts[0], w, parent, prev, NodeAt(ts, 1)) && ForestLinked(ts[1..], w, parent, ts[0].node))
  }

  /** A whole document: the root has neither parent nor siblings. */
  ghost predicate IsDocument(t: Tree, w: Wiring) {
    Linked(t, w, null, null, null)
  }

  // ----- positions in the tree -----

  type Path = seq<nat>

  ghost predicate ValidPath(t: Tree, p: Path)
    decreases |p|
  {
    p == [] || (p[0] < |t.kids| && ValidPath(t.kids[p[0]], p[1..]))
  }

  ghost function At(t: Tree, p: Path): Tree
    requires ValidPath(t, p)
    decreases |p|
  {
    if p == [] then t else At(t.kids[p[0]], p[1..])
  }

  /** The place of the node at p in source order. */
  ghost function Start(t: Tree, p: Path): nat
    requires ValidPath(t, p)
    decreases |p|
  {
    if p == [] then 0 else 1 + |Forest(t.kids[..p[0]])| + Start(t.kids[p[0]], p[1..])
  }

  /** The place just after the subtree at p. */
  ghost function End(t: Tree, p: Path): nat
    requires ValidPath(t, p)
  {
    Start(t, p) + |Preorder(At(t, p))|
  }

  lemma {:induction false} ForestSplit(ts: seq<Tree>, i: nat)
    requires i <= |ts|
    ensures Forest(ts) == Forest(ts[..i]) + Forest(ts[i..])
  {
    if i > 0 {
      ForestSplit(ts[1..], i - 1);
      assert ts[1..][..i - 1] == ts[..i][1..] && ts[1..][i - 1..] == ts[i..];
    }
  }

  lemma ForestOne(t: Tree)
    ensures Forest([t]) == Preorder(t)
  {
    assert [t][1..] == [];
    assert Forest([]) == [];
    assert Forest([t]) == Preorder(t) + Forest([t][1..]);
  }

  lemma ForestHead(ts: seq<Tree>, i: nat)
    requires i < |ts|
    ensures Forest(ts[i..]) == Preorder(ts[i]) + Forest(ts[i + 1..])
  {
    assert ts[i..][1..] == ts[i + 1..];
  }

  lemma ForestGrow(ts: seq<Tree>, i: nat)
    requires i < |ts|
    ensures Forest(ts[..i + 1]) == Forest(ts[..i]) + Preorder(ts[i])
  {
    var us := ts[..i + 1];
    ForestSplit(us, i);
    assert us[..i] == ts[..i] && us[i..] == [ts[i]];
    ForestOne(ts[i]);
  }

  lemma Associate<T>(a: seq<T>, b: seq<T>, c: seq<T>)
    ensures a + (b + c) == a + b + c
  {
  }

  lemma ForestPick(ts: seq<Tree>, i: nat)
    requires i < |ts|
    ensures Forest(ts) == Forest(ts[..i]) + Preorder(ts[i]) + Forest(ts[i + 1..])
  {
    ForestSplit(ts, i);
    ForestHead(ts, i);
    Associate(Forest(ts[..i]), Preorder(ts[i]), Forest(ts[i + 1..]));
  }

  lemma Middle<T>(a: seq<T>, b: seq<T>, c: seq<T>, x: nat, y: nat)
    requires x <= y <= |b|
    ensures (a + b + c)[|a| + x..|a| + y] == b[x..y]
  {
  }

  lemma PreorderAround(t: Tree, i: nat)
    requires i < |t.kids|
    ensures Preorder(t) == [t.node] + Forest(t.kids[..i]) + Preorder(t.kids[i]) + Forest(t.kids[i + 1..])
  {
    ForestPick(t.kids, i);
  }

  /** A subtree occupies a consecutive stretch of source order. */
  lemma {:induction false} SubtreeStretch(t: Tree, p: Path)
    requires ValidPath(t, p)
    ensures End(t, p) <= |Preorder(t)|
    ensures Preorder(t)[Start(t, p)..End(t, p)] == Preorder(At(t, p))
    decreases |p|
  {
    if p != [] {
      var i := p[0];
      SubtreeStretch(t.kids[i], p[1..]);
      PreorderAround(t, i);
      var ahead, kid, behind := [t.node] + Forest(t.kids[..i]), Preorder(t.kids[i]), Forest(t.kids[i + 1..]);
      hide Forest, Preorder;
      Middle(ahead, kid, behind, Start(t.kids[i], p[1..]), End(t.kids[i], p[1..]));
    }
  }

  lemma NodeAtStart(t: Tree, p: Path)
    requires ValidPath(t, p)
    ensures Start(t, p) < |Preorder(t)| && Preorder(t)[Start(t, p)] == At(t, p).node
  {
    SubtreeStretch(t, p);
    assert Preorder(t)[Start(t, p)..End(t, p)][0] == At(t, p).node;
  }

  /** Every place in source order is the start of exactly the subtree some path leads to. */
  lemma {:induction false} PathTo(t: Tree, k: nat) returns (p: Path)
    requires k < |Preorder(t)|
    ensures ValidPath(t, p) && Start(t, p) == k
    decreases t, 1
  {
    if k == 0 {
      p := [];
    } else {
      var i, q := PathInForest(t.kids, k - 1);
      p := [i] + q;
      assert p[1..] == q;
    }
  }

  lemma {:induction false} PathInForest(ts: seq<Tree>, k: nat) returns (i: nat, q: Path)
    requires k < |Forest(ts)|
    ensures i < |ts| && ValidPath(ts[i], q) && |Forest(ts[..i])| + Start(ts[i], q) == k
    decreases ts, 0
  {
    if k < |Preorder(ts[0])| {
      q := PathTo(ts[0], k);
      i := 0;
    } else {
      var j;
      j, q := PathInForest(ts[1..], k - |Preorder(ts[0])|);
      i := j + 1;
      assert ts[..i][0] == ts[0] && ts[..i][1..] == ts[1..][..j];
    }
  }

  // ----- moving along paths -----

  lemma {:induction false} PathAppend(t: Tree, p: Path, i: nat)
    requires ValidPath(t, p)
    ensures ValidPath(t, p + [i]) <==> i < |At(t, p).kids|
    ensures ValidPath(t, p + [i]) ==>
      At(t, p + [i]) == At(t, p).kids[i] && Start(t, p + [i]) == Start(t, p) + 1 + |Forest(At(t, p).kids[..i])|
    decreases |p|
  {
    if p == [] {
      assert p + [i] == [i] && [i][1..] == [];
    } else {
      PathAppend(t.kids[p[0]], p[1..], i);
      assert (p + [i])[1..] == p[1..] + [i];
    }
  }

  lemma {:induction false} PathFront(t: Tree, p: Path)
    requires p != [] && ValidPath(t, p)
    ensures ValidPath(t, p[..|p| - 1])
    decreases |p|
  {
    if |p| > 1 {
      PathFront(t.kids[p[0]], p[1..]);
      assert p[..|p| - 1][1..] == p[1..][..|p| - 2];
    }
  }

  /** Splits a nonempty path into its front and last index. */
  lemma Parent(t: Tree, p: Path) returns (f: Path, i: nat)
    requires p != [] && ValidPath(t, p)
    ensures p == f + [i] && ValidPath(t, f) && i < |At(t, f).kids|
    ensures At(t, p) == At(t, f).kids[i] && Start(t, p) == Start(t, f) + 1 + |Forest(At(t, f).kids[..i])|
  {
    f, i := p[..|p| - 1], p[|p| - 1];
    PathFront(t, p);
    assert p == f + [i];
    PathAppend(t, f, i);
  }

  lemma ForestLinkedAt(ts: seq<Tree>, w: Wiring, parent: Node, prev: Node?, i: nat)
    requires ForestLinked(ts, w, parent, prev) && i < |ts|
    ensures Linked(ts[i], w, parent, if i == 0 then prev else ts[i - 1].node, NodeAt(ts, i + 1))
  {
    if i > 0 { ForestLinkedAt(ts[1..], w, parent, ts[0].node, i - 1); }
  }

  /** In a document, every node's pointers are its relatives'. */
  lemma {:induction false} LinkedAt(t: Tree, w: Wiring, p: Path)
    requires IsDocument(t, w) && ValidPath(t, p)
    ensures p == [] ==> Linked(t, w, null, null, null)
    ensures p != [] ==>
      ValidPath(t, p[..|p| - 1]) &&
      var up, i := At(t, p[..|p| - 1]), p[|p| - 1];
      i < |up.kids| && Linked(At(t, p), w, up.node, NodeAt(up.kids, i - 1), NodeAt(up.kids, i + 1))
    decreases |p|
  {
    if p != [] {
      var f, i := Parent(t, p);
      LinkedAt(t, w, f);
      ForestLinkedAt(At(t, f).kids, w, At(t, f).node, null, i);
      assert f == p[..|p| - 1];
    }
  }

  ghost function LinksAt(t: Tree, w: Wiring, p: Path): (l: Links)
    requires IsDocument(t, w) && ValidPath(t, p)
    ensures At(t, p).node in w && l == w[At(t, p).node]
  {
    LinkedAt(t, w, p);
    w[At(t, p).node]
  }

  // ----- getNextNode and getPreviousNode -----

  /** From p: to the next sibling, which starts where p ends, or to the parent, which ends where p ends. */
  lemma NextOrUp(t: Tree, w: Wiring, p: Path) returns (q: Path)
    requires IsDocument(t, w) && ValidPath(t, p)
    ensures ValidPath(t, q)
    ensures
      var n := LinksAt(t, w, p);
      if n.nextSibling != null then At(t, q).node == n.nextSibling && Start(t, q) == End(t, p)
      else if n.parentNode != null then At(t, q).node == n.parentNode && End(t, q) == End(t, p) && |q| < |p|
      else End(t, p) == |Preorder(t)|
  {
    LinkedAt(t, w, p);
    q := p;
    if p != [] {
      var f, i := Parent(t, p);
      assert f == p[..|p| - 1];
      var kids := At(t, f).kids;
      ForestGrow(kids, i);
      if i + 1 < |kids| {
        q := f + [i + 1];
        PathAppend(t, f, i + 1);
      } else {
        q := f;
        assert kids[..i + 1] == kids;
      }
    }
  }

  lemma Leaf(t: Tree)
    requires NodeAt(t.kids, 0) == null || NodeAt(t.kids, |t.kids| - 1) == null
    ensures |Preorder(t)| == 1
  {
    assert t.kids == [];
    assert Forest(t.kids) == [];
  }

  method GetNextNode(node: Node?, ghost t: Tree, ghost w: Wiring, ghost k: nat) returns (next: Node?)
    requires node != null ==> Wired(w) && IsDocument(t, w) && k < |Preorder(t)| && Preorder(t)[k] == node
    ensures node == null ==> next == null
    ensures node != null ==> next == if k + 1 < |Preorder(t)| then Preorder(t)[k + 1] else null
  {
    if node == null {
      return null;
    }
    ghost var p := PathTo(t, k);
    NodeAtStart(t, p);
    LinkedAt(t, w, p);
    if node.firstChild != null {
      PathAppend(t, p, 0);
      NodeAtStart(t, p + [0]);
      return node.firstChild;
    }
    assert NodeAt(At(t, p).kids, 0) == null;
    Leaf(At(t, p));
    assert End(t, p) == k + 1;
    SubtreeStretch(t, p);
    var n: Node? := node;
    while n != null && n.nextSibling == null
      invariant n == null ==> k + 1 == |Preorder(t)|
      invariant n != null ==> ValidPath(t, p) && At(t, p).node == n && End(t, p) == k + 1
      decreases if n == null then -1 else |p|
    {
      p := NextOrUp(t, w, p);
      n := n.parentNode;
    }
    if n != null {
      ghost var q := NextOrUp(t, w, p);
      NodeAtStart(t, q);
      return n.nextSibling;
    }
    return null;
  }

  /** From p: to the previous sibling, which ends where p starts. */
  lemma PreviousSibling(t: Tree, w: Wiring, p: Path) returns (q: Path)
    requires IsDocument(t, w) && ValidPath(t, p) && LinksAt(t, w, p).previousSibling != null
    ensures ValidPath(t, q) && At(t, q).node == LinksAt(t, w, p).previousSibling && End(t, q) == Start(t, p)
  {
    LinkedAt(t, w, p);
    var f, i := Parent(t, p);
    assert f == p[..|p| - 1];
    q := f + [i - 1];
    PathAppend(t, f, i - 1);
    ForestGrow(At(t, f).kids, i - 1);
  }

  /** A last child ends where its parent ends. */
  lemma LastChild(t: Tree, w: Wiring, p: Path) returns (q: Path)
    requires IsDocument(t, w) && ValidPath(t, p) && LinksAt(t, w, p).lastChild != null
    ensures ValidPath(t, q) && At(t, q).node == LinksAt(t, w, p).lastChild && End(t, q) == End(t, p) && Start(t, p) < Start(t, q)
  {
    LinkedAt(t, w, p);
    var kids := At(t, p).kids;
    var i := |kids| - 1;
    q := p + [i];
    PathAppend(t, p, i);
    ForestGrow(kids, i);
    assert kids[..i + 1] == kids;
  }

  method GetPreviousNode(node: Node?, ghost t: Tree, ghost w: Wiring, ghost k: nat) returns (prev: Node?)
    requires node != null ==> Wired(w) && IsDocument(t, w) && k < |Preorder(t)| && Preorder(t)[k] == node
    ensures node == null ==> prev == null
    ensures node != null ==> prev == if k > 0 then Preorder(t)[k - 1] else null
  {
    if node == null {
      return null;
    }
    ghost var p := PathTo(t, k);
    NodeAtStart(t, p);
    LinkedAt(t, w, p);
    if node.previousSibling == null {
      if p != [] {
        ghost var f, i := Parent(t, p);
        assert f == p[..|p| - 1];
        assert i == 0;
        NodeAtStart(t, f);
      }
      return node.parentNode;
    }
    p := PreviousSibling(t, w, p);
    var n := node.previousSibling;
    while n.lastChild != null
      invariant ValidPath(t, p) && At(t, p).node == n && End(t, p) == k
      decreases |Preorder(t)| - Start(t, p)
    {
      ghost var q := LastChild(t, w, p);
      NodeAtStart(t, q);
      n := n.lastChild;
      p := q;
    }
    LinkedAt(t, w, p);
    NodeAtStart(t, p);
    assert NodeAt(At(t, p).kids, |At(t, p).kids| - 1) == null;
    Leaf(At(t, p));
    return n;
  }

  // ----- every node has one place -----

  lemma {:induction false} SiblingsDiffer(ts: seq<Tree>, w: Wiring, parent: Node, i: nat, j: nat)
    requires ForestLinked(ts, w, parent, null) && i < j < |ts|
    ensures ts[i].node != ts[j].node
  {
    ForestLinkedAt(ts, w, parent, null, i);
    ForestLinkedAt(ts, w, parent, null, j);
    if i > 0 { SiblingsDiffer(ts, w, parent, i - 1, j - 1); }
  }

  /** The pointers alone make the nodes of a document distinct: one node is reached by one path. */
  lemma {:induction false} SameNodeSamePath(t: Tree, w: Wiring, p: Path, q: Path)
    requires IsDocument(t, w) && ValidPath(t, p) && ValidPath(t, q)
    requires At(t, p).node == At(t, q).node
    ensures p == q
    decreases |p|
  {
    LinkedAt(t, w, p);
    LinkedAt(t, w, q);
    if p != [] {
      var f, i := Parent(t, p);
      var g, j := Parent(t, q);
      assert f == p[..|p| - 1] && g == q[..|q| - 1];
      SameNodeSamePath(t, w, f, g);
      LinkedAt(t, w, f);
      if i < j {
        SiblingsDiffer(At(t, f).kids, w, At(t, f).node, i, j);
      } else if j < i {
        SiblingsDiffer(At(t, f).kids, w, At(t, f).node, j, i);
      }
    }
  }

  lemma NodesAreDistinct(t: Tree, w: Wiring, k: nat, l: nat)
    requires IsDocument(t, w) && k < |Preorder(t)| && l < |Preorder(t)|
    requires Preorder(t)[k] == Preorder(t)[l]
    ensures k == l
  {
    var p := PathTo(t, k);
    var q := PathTo(t, l);
    NodeAtStart(t, p);
    NodeAtStart(t, q);
    SameNodeSamePath(t, w, p, q);
  }

  /** Iterating getNextNode from the root visits every node of the document exactly once, in source order. */
  method VisitAll(ghost t: Tree, ghost w: Wiring, root: Node) returns (visited: seq<Node>)
    requires Wired(w) && IsDocument(t, w) && root == t.node
    ensures visited == Preorder(t)
    ensures forall n :: n in Nodes(t) ==> multiset(visited)[n] == 1
  {
    visited := [];
    var n: Node? := root;
    while n != null
      invariant |visited| <= |Preorder(t)| && visited == Preorder(t)[..|visited|]
      invariant n == if |visited| < |Preorder(t)| then Preorder(t)[|visited|] else null
      decreases |Preorder(t)| - |visited|
    {
      var next := GetNextNode(n, t, w, |visited|);
      visited := visited + [n];
      n := next;
    }
    forall m | m in Nodes(t) ensures multiset(visited)[m] == 1 {
      NodeHasPlace(t, m);
      var k :| 0 <= k < |visited| && visited[k] == m;
      CountOne(t, w, visited, k);
    }
  }

  lemma {:induction false} NodeHasPlace(t: Tree, m: Node)
    requires m in Nodes(t)
    ensures m in Preorder(t)
    decreases t, 1
  {
    if m != t.node { NodeHasPlaceInForest(t.kids, m); }
  }

  lemma {:induction false} NodeHasPlaceInForest(ts: seq<Tree>, m: Node)
    requires m in ForestNodes(ts)
    ensures m in Forest(ts)
    decreases ts, 0
  {
    if m in Nodes(ts[0]) { NodeHasPlace(ts[0], m); } else { NodeHasPlaceInForest(ts[1..], m); }
  }

  lemma CountOne(t: Tree, w: Wiring, s: seq<Node>, k: nat)
    requires IsDocument(t, w) && s == Preorder(t) && k < |s|
    ensures multiset(s)[s[k]] == 1
  {
    assert s == s[..k] + [s[k]] + s[k + 1..];
    forall l | 0 <= l < |s| && l != k ensures s[l] != s[k] {
      if s[l] == s[k] { NodesAreDistinct(t, w, k, l); }
    }
    assert s[k] !in s[..k] && s[k] !in s[k + 1..];
  }

  // ----- findNodes_ -----

  function Matching(s: seq<Node>, p: Node -> bool): seq<Node> {
    if s == [] then [] else (if p(s[0]) then [s[0]] else []) + Matching(s[1..], p)
  }

  lemma {:induction false} MatchingConcat(a: seq<Node>, b: seq<Node>, p: Node -> bool)
    ensures Matching(a + b, p) == Matching(a, p) + Matching(b, p)
  {
    if a == [] {
      assert a + b == b;
    } else {
      MatchingConcat(a[1..], b, p);
      assert (a + b)[1..] == a[1..] + b && (a + b)[0] == a[0];
      Associate(if p(a[0]) then [a[0]] else [], Matching(a[1..], p), Matching(b, p));
    }
  }

  /** What findNodes_ adds to rv when the matches still to come are ms. */
  function Found(ms: seq<Node>, findOne: bool): seq<Node> {
    if findOne && ms != [] then [ms[0]] else ms
  }

  ghost function Later(kids: seq<Tree>, i: nat, p: Node -> bool): seq<Node>
    requires i <= |kids|
  {
    Matching(Forest(kids[i..]), p)
  }

  /** What has been collected and what the children from i on still hold. */
  ghost function Pending(kids: seq<Tree>, i: nat, p: Node -> bool, collected: seq<Node>): seq<Node>
    requires i <= |kids|
  {
    collected + Later(kids, i, p)
  }

  lemma PendingBegins(kids: seq<Tree>, p: Node -> bool)
    ensures Pending(kids, 0, p, []) == Matching(Forest(kids), p)
  {
    assert kids[0..] == kids;
  }

  lemma PendingTurn(kids: seq<Tree>, i: nat, p: Node -> bool, collected: seq<Node>)
    requires i < |kids|
    ensures
      var here := Matching(Preorder(kids[i]), p);
      && Pending(kids, i, p, collected) == Pending(kids, i + 1, p, collected + here)
      && collected + here <= Pending(kids, i, p, collected)
  {
    var here := Matching(Preorder(kids[i]), p);
    ForestHead(kids, i);
    MatchingConcat(Preorder(kids[i]), Forest(kids[i + 1..]), p);
    Associate(collected, here, Later(kids, i + 1, p));
  }

  lemma PendingEnds(kids: seq<Tree>, p: Node -> bool, collected: seq<Node>)
    ensures Pending(kids, |kids|, p, collected) == collected
  {
    assert kids[|kids|..] == [];
    assert Later(kids, |kids|, p) == [];
  }

  lemma FirstLinks(t: Tree, w: Wiring, parent: Node?, prev: Node?, next: Node?)
    requires Wired(w) && Linked(t, w, parent, prev, next)
    ensures t.node.firstChild == NodeAt(t.kids, 0)
  {
  }

  lemma KidLinks(t: Tree, w: Wiring, parent: Node?, prev: Node?, next: Node?, i: nat)
    requires Wired(w) && Linked(t, w, parent, prev, next) && i < |t.kids|
    ensures Linked(t.kids[i], w, t.node, NodeAt(t.kids, i - 1), NodeAt(t.kids, i + 1))
    ensures t.kids[i].node.nextSibling == NodeAt(t.kids, i + 1)
  {
    ForestLinkedAt(t.kids, w, t.node, null, i);
  }

  lemma MatchingRoot(t: Tree, p: Node -> bool)
    ensures Matching(Preorder(t), p) == (if p(t.node) then [t.node] else []) + Matching(Forest(t.kids), p)
  {
    assert Preorder(t)[1..] == Forest(t.kids);
  }

  /** One turn of the loop: a child, then everything below it. */
  method VisitChild(child: Node, ghost t: Tree, ghost w: Wiring, p: Node -> bool,
                    rv: JsArray<Node>, findOne: bool, ghost parent: Node?, ghost prev: Node?, ghost next: Node?)
    returns (done: bool)
    requires Wired(w) && t.node == child && Linked(t, w, parent, prev, next)
    modifies rv
    ensures
      var ms := Matching(Preorder(t), p);
      rv.items == old(rv.items) + Found(ms, findOne) && done == (findOne && ms != [])
    decreases t, 1
  {
    MatchingRoot(t, p);
    if p(child) {
      rv.Push(child);
      if findOne {
        return true;
      }
    }
    done := FindNodes(child, t, w, p, rv, findOne, parent, prev, next);
  }

  method FindNodes(root: Node?, ghost t: Tree, ghost w: Wiring, p: Node -> bool,
                   rv: JsArray<Node>, findOne: bool, ghost parent: Node?, ghost prev: Node?, ghost next: Node?)
    returns (done: bool)
    requires root != null ==> Wired(w) && t.node == root && Linked(t, w, parent, prev, next)
    modifies rv
    ensures root == null ==> !done && rv.items == old(rv.items)
    ensures root != null ==>
      var ms := Matching(Forest(t.kids), p);
      rv.items == old(rv.items) + Found(ms, findOne) && done == (findOne && ms != [])
    decreases t, 0
  {
    hide Matching, Preorder, Forest, Linked, ForestLinked, Pending, Wired;
    if root != null {
      FirstLinks(t, w, parent, prev, next);
      PendingBegins(t.kids, p);
      var child := root.firstChild;
      ghost var i, kids := 0, t.kids;
      ghost var collected: seq<Node> := [];
      while child != null
        invariant Wired(w) && 0 <= i <= |kids|
        invariant child == NodeAt(kids, i)
        invariant rv.items == old(rv.items) + collected && (findOne ==> collected == [])
        invariant Matching(Forest(kids), p) == Pending(kids, i, p, collected)
        decreases |kids| - i
      {
        KidLinks(t, w, parent, prev, next, i);
        var stop := VisitChild(child, kids[i], w, p, rv, findOne, root, NodeAt(kids, i - 1), NodeAt(kids, i + 1));
        ghost var here := Matching(Preorder(kids[i]), p);
        PendingTurn(kids, i, p, collected);
        if stop {
          return true;
        }
        Associate(old(rv.items), collected, here);
        collected := collected + here;
        child := child.nextSibling;
        i := i + 1;
      }
      PendingEnds(kids, p, collected);
    }
    return false;
  }
}
