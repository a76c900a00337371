/**
 * The sorted-array operations of javascript/phonenumbernormalizer/js/array.js:
 * binary search over a comparison function or an evaluator, and the set
 * operations binaryInsert and binaryRemove that rest on it.
 */
module SortedArrays {
  import opened JsArrays

  /** Always true; naming a triple lets the transitivity of an order be used on just that triple. */
  ghost predicate Triple<T>(a: T, b: T, c: T) { true }

  /** A comparison function in the sense of array.js: consistent and transitive. */
  ghost predicate WeakOrder<T(!new)>(cmp: (T, T) -> int) {
    && (forall a, b :: cmp(a, b) < 0 <==> cmp(b, a) > 0)
    && (forall a, b, c :: Triple(a, b, c) ==> cmp(a, b) <= 0 && cmp(b, c) <= 0 ==> cmp(a, c) <= 0)
  }

  lemma Transitive<T(!new)>(cmp: (T, T) -> int, a: T, b: T, c: T)
    requires WeakOrder(cmp)
    ensures cmp(a, b) <= 0 && cmp(b, c) <= 0 ==> cmp(a, c) <= 0
    ensures cmp(a, b) < 0 && cmp(b, c) <= 0 ==> cmp(a, c) < 0
    ensures cmp(a, b) <= 0 && cmp(b, c) < 0 ==> cmp(a, c) < 0
  {
    assert Triple(a, b, c) && Triple(b, c, a) && Triple(c, a, b);
  }

  ghost predicate Sorted<T(!new)>(s: seq<T>, cmp: (T, T) -> int) {
    forall i, j :: 0 <= i < j < |s| ==> cmp(s[i], s[j]) <= 0
  }

  ghost predicate StrictlySorted<T(!new)>(s: seq<T>, cmp: (T, T) -> int) {
    forall i, j :: 0 <= i < j < |s| ==> cmp(s[i], s[j]) < 0
  }

  /** Some element of s compares equal to x. */
  ghost predicate Present<T(!new)>(s: seq<T>, x: T, cmp: (T, T) -> int) {
    exists i :: 0 <= i < |s| && cmp(x, s[i]) == 0
  }

  /** The two ways binarySearch_ can be driven. */
  datatype Probe<!T> =
    | Evaluator(f: (T, nat, seq<T>) -> int)
    | Compare(cmp: (T, T) -> int, target: T)
  {
    function At(arr: seq<T>, i: nat): int
      requires i < |arr|
    {
      match this
      case Evaluator(f) => f(arr[i], i, arr)
      case Compare(cmp, target) => cmp(target, arr[i])
    }
  }

  /** The signs along the array never rise: after, then at, then before. */
  ghost predicate Monotone<T>(arr: seq<T>, p: Probe<T>) {
    forall i, j :: 0 <= i < j < |arr| ==>
      (p.At(arr, j) > 0 ==> p.At(arr, i) > 0) && (p.At(arr, i) < 0 ==> p.At(arr, j) < 0)
  }

  function ToInt32(x: int): int {
    var m := x % 0x1_0000_0000;
    if m < 0x8000_0000 then m else m - 0x1_0000_0000
  }

  /** JavaScript x >> 1: wrap to a signed 32-bit integer, then halve towards minus infinity. */
  function ShiftRight1(x: int): int {
    ToInt32(x) / 2
  }

  /** JavaScript ~x. */
  function BitNot(x: int): int {
    -ToInt32(x) - 1
  }

  const MAX_SEARCHABLE: nat := 0x4000_0000

  ghost predicate MidpointOk(l: nat, r: nat) {
    ShiftRight1(l + r) == (l + r) / 2
  }

  /** MAX_SEARCHABLE is exactly the largest length for which no midpoint of a search can wrap. */
  lemma ShiftIsMidpointExactlyUpToLimit(n: nat)
    ensures (forall l: nat, r: nat | l < r <= n :: MidpointOk(l, r)) <==> n <= MAX_SEARCHABLE
  {
    assert !MidpointOk(MAX_SEARCHABLE, MAX_SEARCHABLE + 1);
  }

  lemma SearchableMidpoint(l: nat, r: nat)
    requires l < r <= MAX_SEARCHABLE
    ensures l <= ShiftRight1(l + r) < r
  {
    assert (l + r) % 0x1_0000_0000 == l + r;
  }

  lemma ComplementWithin(l: int)
    requires 0 - MAX_SEARCHABLE <= l <= MAX_SEARCHABLE
    ensures BitNot(l) == -1 - l
  {
    if l < 0 { assert l % 0x1_0000_0000 == l + 0x1_0000_0000; }
  }

  /** binarySearch_: the lowest match, or the complement of the insertion point. */
  method Search<T>(arr: seq<T>, p: Probe<T>) returns (r: int)
    requires Monotone(arr, p)
    requires |arr| <= MAX_SEARCHABLE
    ensures r >= 0 ==> r < |arr| && p.At(arr, r) == 0 && forall i :: 0 <= i < r ==> p.At(arr, i) > 0
    ensures r < 0 ==>
      -r - 1 <= |arr|
      && (forall i :: 0 <= i < -r - 1 ==> p.At(arr, i) > 0)
      && (forall i :: -r - 1 <= i < |arr| ==> p.At(arr, i) < 0)
  {
    hide ShiftRight1, BitNot;
    var left, right := 0, |arr|;
    var found := false;
    while left < right
      invariant 0 <= left <= right <= |arr|
      invariant forall i :: 0 <= i < left ==> p.At(arr, i) > 0
      invariant forall i :: right <= i < |arr| ==> p.At(arr, i) <= 0
      invariant found == (right < |arr| && p.At(arr, right) == 0)
    {
      SearchableMidpoint(left, right);
      var middle := ShiftRight1(left + right);
      var compareResult := p.At(arr, middle);
      if compareResult > 0 {
        left := middle + 1;
      } else {
        right := middle;
        found := compareResult == 0;
      }
    }
    ComplementWithin(left);
    r := if found then left else BitNot(left);
  }

  // ----- arrays that are too long -----

  /** The variables of the loop in binarySearch_. */
  datatype Cursor = Cursor(left: int, right: int, found: bool)

  /** One turn; sign is what comparing with the element at an index gives, also where there is no element. */
  function Turn(c: Cursor, sign: int -> int): Cursor {
    var middle := ShiftRight1(c.left + c.right);
    if sign(middle) > 0 then c.(left := middle + 1) else c.(right := middle, found := sign(middle) == 0)
  }

  function Turns(c: Cursor, sign: int -> int, k: nat): Cursor
    decreases k
  {
    if k == 0 || c.left >= c.right then c else Turns(Turn(c, sign), sign, k - 1)
  }

  function Answer(c: Cursor): int {
    if c.found then c.left else BitNot(c.left)
  }

  /** The signs along the array never rise, as in Monotone. */
  ghost predicate Falling(n: nat, sign: int -> int) {
    forall i, j :: 0 <= i < j < n ==> (sign(j) > 0 ==> sign(i) > 0) && (sign(i) < 0 ==> sign(j) < 0)
  }

  /** What Search promises of its result. */
  ghost predicate RightAnswer(n: nat, sign: int -> int, r: int) {
    && (r >= 0 ==> r < n && sign(r) == 0 && forall i :: 0 <= i < r ==> sign(i) > 0)
    && (r < 0 ==> -r - 1 <= n && (forall i :: 0 <= i < -r - 1 ==> sign(i) > 0) && forall i :: -r - 1 <= i < n ==> sign(i) < 0)
  }

  /** The search comes to its end, with the right answer. */
  ghost predicate Succeeds(n: nat, sign: int -> int) {
    exists k: nat ::
      var c := Turns(Cursor(0, n, false), sign, k);
      c.left >= c.right && RightAnswer(n, sign, Answer(c))
  }

  /** What the loop keeps on an array that is not too long. */
  ghost predicate Narrowed(n: nat, sign: int -> int, c: Cursor) {
    && 0 <= c.left <= c.right <= n
    && (forall i :: 0 <= i < c.left ==> sign(i) > 0)
    && (forall i :: c.right <= i < n ==> sign(i) <= 0)
    && c.found == (c.right < n && sign(c.right) == 0)
  }

  lemma TurnNarrows(n: nat, sign: int -> int, c: Cursor)
    requires n <= MAX_SEARCHABLE && Falling(n, sign) && Narrowed(n, sign, c) && c.left < c.right
    ensures Narrowed(n, sign, Turn(c, sign)) && Turn(c, sign).right - Turn(c, sign).left < c.right - c.left
  {
    hide ShiftRight1;
    SearchableMidpoint(c.left, c.right);
  }

  lemma {:induction false} NarrowingEnds(n: nat, sign: int -> int, c: Cursor) returns (k: nat)
    requires n <= MAX_SEARCHABLE && Falling(n, sign) && Narrowed(n, sign, c)
    ensures Turns(c, sign, k).left >= Turns(c, sign, k).right && Narrowed(n, sign, Turns(c, sign, k))
    decreases c.right - c.left
  {
    hide Falling, Narrowed, Turn;
    if c.left >= c.right {
      k := 0;
    } else {
      TurnNarrows(n, sign, c);
      k := NarrowingEnds(n, sign, Turn(c, sign));
      k := k + 1;
    }
  }

  lemma NarrowedAnswers(n: nat, sign: int -> int, c: Cursor)
    requires n <= MAX_SEARCHABLE && Falling(n, sign) && Narrowed(n, sign, c) && c.left >= c.right
    ensures RightAnswer(n, sign, Answer(c))
  {
    ComplementWithin(c.left);
    hide BitNot;
  }

  /** No midpoint is beyond the limit, so the search never gets there. */
  lemma {:induction false} NeverBeyondLimit(c: Cursor, sign: int -> int, k: nat)
    requires 0 - MAX_SEARCHABLE <= c.left <= MAX_SEARCHABLE
    ensures 0 - MAX_SEARCHABLE <= Turns(c, sign, k).left <= MAX_SEARCHABLE
    decreases k
  {
    if k > 0 && c.left < c.right { NeverBeyondLimit(Turn(c, sign), sign, k - 1); }
  }

  lemma ShortAnswerIsWrong(n: nat, sign: int -> int, c: Cursor)
    requires n > MAX_SEARCHABLE && forall i :: 0 <= i < n ==> sign(i) > 0
    requires 0 - MAX_SEARCHABLE <= c.left <= MAX_SEARCHABLE
    ensures !RightAnswer(n, sign, Answer(c))
  {
    hide BitNot;
    ComplementWithin(c.left);
    var r := Answer(c);
    if 0 <= r < n {
      assert sign(r) > 0;
    } else if 0 <= -r - 1 < n {
      assert sign(n - 1) > 0;
    }
  }

  /** Looking for what comes after all elements fails on every longer array, whatever comparing with undefined gives. */
  lemma TooLongFails(n: nat, sign: int -> int)
    requires n > MAX_SEARCHABLE && forall i :: 0 <= i < n ==> sign(i) > 0
    ensures Falling(n, sign) && !Succeeds(n, sign)
  {
    hide Turns, RightAnswer, Answer;
    forall k: nat ensures !RightAnswer(n, sign, Answer(Turns(Cursor(0, n, false), sign, k))) {
      NeverBeyondLimit(Cursor(0, n, false), sign, k);
      ShortAnswerIsWrong(n, sign, Turns(Cursor(0, n, false), sign, k));
    }
  }

  /** binarySearch_ ends with the right answer on every array of a length exactly up to the limit. */
  lemma SearchIsRightExactlyUpToLimit(n: nat)
    ensures (forall sign | Falling(n, sign) :: Succeeds(n, sign)) <==> n <= MAX_SEARCHABLE
  {
    if n <= MAX_SEARCHABLE {
      forall sign | Falling(n, sign) ensures Succeeds(n, sign) {
        var k := NarrowingEnds(n, sign, Cursor(0, n, false));
        NarrowedAnswers(n, sign, Turns(Cursor(0, n, false), sign, k));
      }
    } else {
      TooLongFails(n, _ => 1);
    }
  }

  // ----- on sorted arrays -----

  lemma SortedIsMonotone<T(!new)>(arr: seq<T>, cmp: (T, T) -> int, target: T)
    requires WeakOrder(cmp) && Sorted(arr, cmp)
    ensures Monotone(arr, Compare(cmp, target))
  {
    forall i, j | 0 <= i < j < |arr|
      ensures cmp(target, arr[j]) > 0 ==> cmp(target, arr[i]) > 0
      ensures cmp(target, arr[i]) < 0 ==> cmp(target, arr[j]) < 0
    {
      Transitive(cmp, arr[i], arr[j], target);
      Transitive(cmp, target, arr[i], arr[j]);
    }
  }

  method BinarySearch<T(!new)>(arr: seq<T>, target: T, cmp: (T, T) -> int) returns (r: int)
    requires WeakOrder(cmp) && Sorted(arr, cmp)
    requires |arr| <= MAX_SEARCHABLE
    ensures r >= 0 <==> Present(arr, target, cmp)
    ensures r >= 0 ==> r < |arr| && cmp(target, arr[r]) == 0 && forall i :: 0 <= i < r ==> cmp(target, arr[i]) > 0
    ensures r < 0 ==>
      -r - 1 <= |arr|
      && (forall i :: 0 <= i < -r - 1 ==> cmp(target, arr[i]) > 0)
      && (forall i :: -r - 1 <= i < |arr| ==> cmp(target, arr[i]) < 0)
  {
    SortedIsMonotone(arr, cmp, target);
    var p := Compare(cmp, target);
    r := Search(arr, p);
    assert forall i :: 0 <= i < |arr| ==> p.At(arr, i) == cmp(target, arr[i]);
  }

  /** How many elements come before x: the insertion point. */
  function LowerBound<T>(s: seq<T>, x: T, cmp: (T, T) -> int): (p: nat)
    ensures p <= |s|
    ensures forall i :: 0 <= i < p ==> cmp(x, s[i]) > 0
    ensures p < |s| ==> cmp(x, s[p]) <= 0
  {
    if s == [] || cmp(x, s[0]) <= 0 then 0 else 1 + LowerBound(s[1..], x, cmp)
  }

  predicate Hit<T>(s: seq<T>, x: T, cmp: (T, T) -> int) {
    var p := LowerBound(s, x, cmp);
    p < |s| && cmp(x, s[p]) == 0
  }

  function Inserted<T>(s: seq<T>, x: T, cmp: (T, T) -> int): seq<T> {
    var p := LowerBound(s, x, cmp);
    if Hit(s, x, cmp) then s else s[..p] + [x] + s[p..]
  }

  function Removed<T>(s: seq<T>, x: T, cmp: (T, T) -> int): seq<T> {
    var p := LowerBound(s, x, cmp);
    if Hit(s, x, cmp) then s[..p] + s[p + 1..] else s
  }

  lemma HitIsPresent<T(!new)>(s: seq<T>, x: T, cmp: (T, T) -> int)
    requires WeakOrder(cmp) && Sorted(s, cmp)
    ensures Hit(s, x, cmp) <==> Present(s, x, cmp)
  {
    var p := LowerBound(s, x, cmp);
    if i :| 0 <= i < |s| && cmp(x, s[i]) == 0 {
      assert p <= i;
      Transitive(cmp, s[p], s[i], x);
    }
  }

  /** binaryInsert on any sorted arr. */
  method BinaryInsert<T(!new)>(arr: JsArray<T>, value: T, cmp: (T, T) -> int) returns (inserted: bool)
    requires WeakOrder(cmp) && Sorted(arr.items, cmp)
    requires |arr.items| <= MAX_SEARCHABLE
    modifies arr
    ensures arr.items == Inserted(old(arr.items), value, cmp)
    ensures inserted == !Present(old(arr.items), value, cmp)
  {
    HitIsPresent(arr.items, value, cmp);
    var index := BinarySearch(arr.items, value, cmp);
    if index < 0 {
      arr.InsertAt(value, -(index + 1));
      return true;
    }
    return false;
  }

  /** binaryRemove on any sorted arr. */
  method BinaryRemove<T(!new)>(arr: JsArray<T>, value: T, cmp: (T, T) -> int) returns (removed: bool)
    requires WeakOrder(cmp) && Sorted(arr.items, cmp)
    requires |arr.items| <= MAX_SEARCHABLE
    modifies arr
    ensures arr.items == Removed(old(arr.items), value, cmp)
    ensures removed == Present(old(arr.items), value, cmp)
  {
    HitIsPresent(arr.items, value, cmp);
    var index := BinarySearch(arr.items, value, cmp);
    if index >= 0 {
      removed := arr.RemoveAt(index);
    } else {
      removed := false;
    }
  }

  /** Where the elements of s are after one insertion or removal at p. */
  function After(p: nat, i: nat): nat { if i < p then i else i + 1 }

  function Before(p: nat, i: nat): int { if i < p then i else i - 1 }

  lemma SameClass<T(!new)>(cmp: (T, T) -> int, y: T, a: T, b: T)
    requires WeakOrder(cmp) && cmp(a, b) == 0
    ensures cmp(y, a) == 0 <==> cmp(y, b) == 0
    ensures cmp(y, a) < 0 <==> cmp(y, b) < 0
  {
    Transitive(cmp, y, a, b);
    Transitive(cmp, y, b, a);
    Transitive(cmp, a, b, y);
    Transitive(cmp, b, a, y);
  }

  /** Insertion keeps the array strictly increasing. */
  lemma InsertedSorted<T(!new)>(s: seq<T>, x: T, cmp: (T, T) -> int)
    requires WeakOrder(cmp) && StrictlySorted(s, cmp)
    ensures StrictlySorted(Inserted(s, x, cmp), cmp)
  {
    var p := LowerBound(s, x, cmp);
    if !Hit(s, x, cmp) {
      forall j | p <= j < |s| ensures cmp(x, s[j]) < 0 {
        Transitive(cmp, x, s[p], s[j]);
      }
    }
  }

  /** Insertion adds exactly the class of x. */
  lemma InsertedIsUnion<T(!new)>(s: seq<T>, x: T, y: T, cmp: (T, T) -> int)
    requires WeakOrder(cmp)
    ensures Present(Inserted(s, x, cmp), y, cmp) <==> Present(s, y, cmp) || cmp(y, x) == 0
  {
    var p := LowerBound(s, x, cmp);
    var t := Inserted(s, x, cmp);
    if Hit(s, x, cmp) {
      SameClass(cmp, y, x, s[p]);
    } else {
      assert t[p] == x;
      if i :| 0 <= i < |s| && cmp(y, s[i]) == 0 {
        assert t[After(p, i)] == s[i];
      }
      if i :| 0 <= i < |t| && i != p && cmp(y, t[i]) == 0 {
        assert t[i] == s[Before(p, i)];
      }
    }
  }

  /** Removal takes away exactly the class of x. */
  lemma RemovedIsDifference<T(!new)>(s: seq<T>, x: T, y: T, cmp: (T, T) -> int)
    requires WeakOrder(cmp) && StrictlySorted(s, cmp)
    ensures Present(Removed(s, x, cmp), y, cmp) <==> Present(s, y, cmp) && cmp(y, x) != 0
  {
    HitIsPresent(s, x, cmp);
    var p := LowerBound(s, x, cmp);
    if Hit(s, x, cmp) {
      SameClass(cmp, y, x, s[p]);
      OnlyMatch(s, p, y, cmp);
      DroppedOne(s, p, y, cmp);
    } else if cmp(y, x) == 0 {
      forall i | 0 <= i < |s| ensures cmp(y, s[i]) != 0 {
        SameClass(cmp, s[i], y, x);
      }
    }
  }

  /** In a strictly increasing array a class has one element. */
  lemma OnlyMatch<T(!new)>(s: seq<T>, p: nat, y: T, cmp: (T, T) -> int)
    requires WeakOrder(cmp) && StrictlySorted(s, cmp) && p < |s|
    ensures cmp(y, s[p]) == 0 ==> forall i :: 0 <= i < |s| && i != p ==> cmp(y, s[i]) != 0
  {
    forall i | 0 <= i < |s| && i != p && cmp(y, s[p]) == 0 ensures cmp(y, s[i]) != 0 {
      if cmp(y, s[i]) == 0 {
        SameClass(cmp, s[p], y, s[i]);
        assert false;
      }
    }
  }

  lemma DroppedOne<T(!new)>(s: seq<T>, p: nat, y: T, cmp: (T, T) -> int)
    requires p < |s|
    ensures Present(s[..p] + s[p + 1..], y, cmp) <==> exists i :: 0 <= i < |s| && i != p && cmp(y, s[i]) == 0
  {
    var t := s[..p] + s[p + 1..];
    if i :| 0 <= i < |s| && i != p && cmp(y, s[i]) == 0 {
      assert t[Before(p, i)] == s[i];
    }
    if i :| 0 <= i < |t| && cmp(y, t[i]) == 0 {
      assert t[i] == s[After(p, i)];
    }
  }

  /** Removal keeps the array strictly increasing. */
  lemma RemovedSorted<T(!new)>(s: seq<T>, x: T, cmp: (T, T) -> int)
    requires StrictlySorted(s, cmp)
    ensures StrictlySorted(Removed(s, x, cmp), cmp)
  {
    var p, t := LowerBound(s, x, cmp), Removed(s, x, cmp);
    if Hit(s, x, cmp) {
      forall i, j | 0 <= i < j < |t| ensures cmp(t[i], t[j]) < 0 {
        assert t[i] == s[After(p, i)] && t[j] == s[After(p, j)];
      }
    }
  }

  datatype Op<T> = Insert(value: T) | Remove(value: T)

  /** The classes present after a run: the last operation on the class of y was an insertion. */
  ghost predicate PresentAfter<T(!new)>(ops: seq<Op<T>>, y: T, cmp: (T, T) -> int) {
    if ops == [] then false
    else
      var last := ops[|ops| - 1];
      if cmp(y, last.value) == 0 then last.Insert? else PresentAfter(ops[..|ops| - 1], y, cmp)
  }

  function Applied<T>(s: seq<T>, op: Op<T>, cmp: (T, T) -> int): seq<T> {
    match op
    case Insert(x) => Inserted(s, x, cmp)
    case Remove(x) => Removed(s, x, cmp)
  }

  /** The array after a run from empty. */
  function Run<T>(ops: seq<Op<T>>, cmp: (T, T) -> int): seq<T> {
    if ops == [] then [] else Applied(Run(ops[..|ops| - 1], cmp), ops[|ops| - 1], cmp)
  }

  lemma {:induction false} RunIsASet<T(!new)>(ops: seq<Op<T>>, cmp: (T, T) -> int)
    requires WeakOrder(cmp)
    ensures StrictlySorted(Run(ops, cmp), cmp)
    ensures forall y :: Present(Run(ops, cmp), y, cmp) <==> PresentAfter(ops, y, cmp)
  {
    if ops != [] {
      var front := ops[..|ops| - 1];
      RunIsASet(front, cmp);
      match ops[|ops| - 1]
      case Insert(x) =>
        InsertedSorted(Run(front, cmp), x, cmp);
        forall y { InsertedIsUnion(Run(front, cmp), x, y, cmp); }
      case Remove(x) =>
        RemovedSorted(Run(front, cmp), x, cmp);
        forall y { RemovedIsDifference(Run(front, cmp), x, y, cmp); }
    }
  }

  /** The mathematical set after the same operations. */
  ghost function SetAfter<T>(ops: seq<Op<T>>): set<T> {
    if ops == [] then {}
    else
      var before := SetAfter(ops[..|ops| - 1]);
      match ops[|ops| - 1]
      case Insert(x) => before + {x}
      case Remove(x) => before - {x}
  }

  /** When only identical elements compare equal, the array lists the mathematical set. */
  lemma {:induction false} RunListsTheSet<T(!new)>(ops: seq<Op<T>>, cmp: (T, T) -> int)
    requires WeakOrder(cmp)
    requires forall a, b :: cmp(a, b) == 0 ==> a == b
    ensures forall y :: y in Run(ops, cmp) <==> y in SetAfter(ops)
  {
    RunIsASet(ops, cmp);
    forall y ensures y in Run(ops, cmp) <==> PresentAfter(ops, y, cmp) {
      assert cmp(y, y) == 0;
    }
    forall y ensures PresentAfter(ops, y, cmp) <==> y in SetAfter(ops) {
      PresentAfterIsSet(ops, y, cmp);
    }
  }

  lemma {:induction false} PresentAfterIsSet<T(!new)>(ops: seq<Op<T>>, y: T, cmp: (T, T) -> int)
    requires WeakOrder(cmp)
    requires forall a, b :: cmp(a, b) == 0 ==> a == b
    ensures PresentAfter(ops, y, cmp) <==> y in SetAfter(ops)
  {
    if ops != [] {
      assert cmp(y, y) == 0;
      PresentAfterIsSet(ops[..|ops| - 1], y, cmp);
    }
  }

  method Apply<T(!new)>(arr: JsArray<T>, op: Op<T>, cmp: (T, T) -> int) returns (changed: bool)
    requires WeakOrder(cmp) && Sorted(arr.items, cmp)
    requires |arr.items| <= MAX_SEARCHABLE
    modifies arr
    ensures arr.items == Applied(old(arr.items), op, cmp)
    ensures changed == (Present(old(arr.items), op.value, cmp) != op.Insert?)
  {
    match op {
      case Insert(x) => changed := BinaryInsert(arr, x, cmp);
      case Remove(x) => changed := BinaryRemove(arr, x, cmp);
    }
  }

  /** Whether the k-th operation of a run changes the set. */
  ghost predicate Changes<T(!new)>(ops: seq<Op<T>>, k: nat, cmp: (T, T) -> int)
    requires k < |ops|
  {
    PresentAfter(ops[..k], ops[k].value, cmp) != ops[k].Insert?
  }

  lemma RunStep<T(!new)>(ops: seq<Op<T>>, k: nat, cmp: (T, T) -> int)
    requires WeakOrder(cmp) && k < |ops|
    ensures Sorted(Run(ops[..k], cmp), cmp)
    ensures Present(Run(ops[..k], cmp), ops[k].value, cmp) <==> PresentAfter(ops[..k], ops[k].value, cmp)
    ensures Run(ops[..k + 1], cmp) == Applied(Run(ops[..k], cmp), ops[k], cmp)
    ensures |Run(ops[..k + 1], cmp)| <= |Run(ops[..k], cmp)| + 1
  {
    RunIsASet(ops[..k], cmp);
    assert ops[..k + 1][..k] == ops[..k];
  }

  method Step<T(!new)>(arr: JsArray<T>, ops: seq<Op<T>>, k: nat, cmp: (T, T) -> int) returns (changed: bool)
    requires WeakOrder(cmp) && k < |ops|
    requires arr.items == Run(ops[..k], cmp) && |arr.items| <= MAX_SEARCHABLE
    modifies arr
    ensures arr.items == Run(ops[..k + 1], cmp) && |arr.items| <= |old(arr.items)| + 1
    ensures changed == Changes(ops, k, cmp)
  {
    RunStep(ops, k, cmp);
    changed := Apply(arr, ops[k], cmp);
  }

  /** A whole run on one array, with the flags it returns. */
  method Execute<T(!new)>(ops: seq<Op<T>>, cmp: (T, T) -> int) returns (arr: JsArray<T>, changed: seq<bool>)
    requires WeakOrder(cmp)
    requires |ops| <= MAX_SEARCHABLE
    ensures arr.items == Run(ops, cmp)
    ensures |changed| == |ops|
    ensures forall k :: 0 <= k < |ops| ==> changed[k] == Changes(ops, k, cmp)
  {
    arr := new JsArray([]);
    changed := [];
    var k := 0;
    assert Run(ops[..0], cmp) == [];
    hide Run, Changes, WeakOrder;
    while k < |ops|
      invariant k <= |ops| && |changed| == k
      invariant fresh(arr)
      invariant arr.items == Run(ops[..k], cmp) && |arr.items| <= k
      invariant forall j :: 0 <= j < k ==> changed[j] == Changes(ops, j, cmp)
    {
      var flag := Step(arr, ops, k, cmp);
      changed := changed + [flag];
      k := k + 1;
    }
    assert ops[..k] == ops;
  }
}
