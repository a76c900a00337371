/**
 * goog.array.stableSort: decorate with indices, sort with the native sort
 * (any sort at all, however it orders equal elements), and undecorate.
 */
module StableSorts {
  import opened JsArrays
  import opened SortedArrays

  datatype Indexed<T> = Indexed(index: nat, value: T)

  /** What a slot of the array holds while stableSort runs. */
  datatype Slot<T> = Plain(plain: T) | Tagged(tag: Indexed<T>)

  /** valueCompareFn(obj1.value, obj2.value) || obj1.index - obj2.index */
  function StableCompare<T>(cmp: (T, T) -> int): (Indexed<T>, Indexed<T>) -> int {
    (a: Indexed<T>, b: Indexed<T>) =>
      if cmp(a.value, b.value) != 0 then cmp(a.value, b.value) else a.index - b.index
  }

  /** All that is known of the native sort: the result is a sorted permutation. */
  ghost predicate IsSort<T(!new)>(sort: seq<Indexed<T>> -> seq<Indexed<T>>, cmp: (Indexed<T>, Indexed<T>) -> int) {
    forall s :: multiset(sort(s)) == multiset(s) && Sorted(sort(s), cmp)
  }

  function Decorated<T>(s: seq<T>): (d: seq<Indexed<T>>)
    ensures |d| == |s| && forall i :: 0 <= i < |s| ==> d[i] == Indexed(i, s[i])
  {
    seq(|s|, i requires 0 <= i < |s| => Indexed(i, s[i]))
  }

  function Values<T>(d: seq<Indexed<T>>): (s: seq<T>)
    ensures |s| == |d| && forall i :: 0 <= i < |d| ==> s[i] == d[i].value
  {
    seq(|d|, i requires 0 <= i < |d| => d[i].value)
  }

  function PlainSlots<T>(s: seq<T>): (r: seq<Slot<T>>)
    ensures |r| == |s| && forall i :: 0 <= i < |s| ==> r[i] == Plain(s[i])
  {
    seq(|s|, i requires 0 <= i < |s| => Plain(s[i]))
  }

  function TaggedSlots<T>(d: seq<Indexed<T>>): (r: seq<Slot<T>>)
    ensures |r| == |d| && forall i :: 0 <= i < |d| ==> r[i] == Tagged(d[i])
  {
    seq(|d|, i requires 0 <= i < |d| => Tagged(d[i]))
  }

  /** The elements that compare equal to x, in the order they stand. */
  function Class<T>(s: seq<T>, x: T, cmp: (T, T) -> int): seq<T> {
    if s == [] then []
    else (if cmp(x, s[0]) == 0 then [s[0]] else []) + Class(s[1..], x, cmp)
  }

  /** Sorted, and every class of equal elements stands in its original order. */
  ghost predicate IsStableSort<T(!new)>(s: seq<T>, r: seq<T>, cmp: (T, T) -> int) {
    Sorted(r, cmp) && forall x :: Class(r, x, cmp) == Class(s, x, cmp)
  }

  lemma {:induction false} ClassNonempty<T(!new)>(s: seq<T>, i: nat, x: T, cmp: (T, T) -> int)
    requires i < |s| && cmp(x, s[i]) == 0
    ensures Class(s, x, cmp) != []
  {
    if i > 0 { ClassNonempty(s[1..], i - 1, x, cmp); }
  }

  lemma FirstHasClass<T(!new)>(s: seq<T>, cmp: (T, T) -> int)
    requires WeakOrder(cmp)
    ensures s != [] ==> Class(s, s[0], cmp) != []
  {
    if s != [] {
      assert cmp(s[0], s[0]) == 0;
      ClassNonempty(s, 0, s[0], cmp);
    }
  }

  lemma {:induction false} ClassMember<T(!new)>(s: seq<T>, x: T, cmp: (T, T) -> int)
    requires Class(s, x, cmp) != []
    ensures exists i :: 0 <= i < |s| && cmp(x, s[i]) == 0
  {
    if cmp(x, s[0]) != 0 {
      ClassMember(s[1..], x, cmp);
      var i :| 0 <= i < |s[1..]| && cmp(x, s[1..][i]) == 0;
      assert cmp(x, s[i + 1]) == 0;
    }
  }

  lemma HeadIsLeast<T(!new)>(r: seq<T>, i: nat, cmp: (T, T) -> int)
    requires WeakOrder(cmp) && Sorted(r, cmp) && i < |r|
    ensures cmp(r[0], r[i]) <= 0
  {
    assert cmp(r[0], r[0]) == 0;
  }

  lemma HeadsAgree<T(!new)>(r: seq<T>, q: seq<T>, cmp: (T, T) -> int)
    requires WeakOrder(cmp) && Sorted(r, cmp) && Sorted(q, cmp) && r != [] && q != []
    requires forall x :: Class(r, x, cmp) == Class(q, x, cmp)
    ensures r[0] == q[0]
  {
    var a, b := r[0], q[0];
    assert cmp(a, a) == 0 && cmp(b, b) == 0;
    ClassNonempty(r, 0, a, cmp);
    ClassMember(q, a, cmp);
    var i :| 0 <= i < |q| && cmp(a, q[i]) == 0;
    ClassNonempty(q, 0, b, cmp);
    ClassMember(r, b, cmp);
    var j :| 0 <= j < |r| && cmp(b, r[j]) == 0;
    HeadIsLeast(r, j, cmp);
    HeadIsLeast(q, i, cmp);
    Transitive(cmp, a, r[j], b);
    Transitive(cmp, b, q[i], a);
    assert cmp(a, b) == 0;
    assert Class(r, a, cmp)[0] == a && Class(q, a, cmp)[0] == b;
  }

  lemma ClassTail<T>(r: seq<T>, x: T, cmp: (T, T) -> int)
    requires r != []
    ensures Class(r[1..], x, cmp) == if cmp(x, r[0]) == 0 then Class(r, x, cmp)[1..] else Class(r, x, cmp)
  {
  }

  lemma TailSorted<T(!new)>(r: seq<T>, cmp: (T, T) -> int)
    requires Sorted(r, cmp) && r != []
    ensures Sorted(r[1..], cmp)
  {
  }

  lemma TailsAgree<T(!new)>(r: seq<T>, q: seq<T>, cmp: (T, T) -> int)
    requires r != [] && q != [] && r[0] == q[0] && forall x :: Class(r, x, cmp) == Class(q, x, cmp)
    ensures forall x :: Class(r[1..], x, cmp) == Class(q[1..], x, cmp)
  {
    forall x ensures Class(r[1..], x, cmp) == Class(q[1..], x, cmp) {
      ClassTail(r, x, cmp);
      ClassTail(q, x, cmp);
    }
  }

  /** There is only one stable sort of an array. */
  lemma {:induction false} StableSortIsUnique<T(!new)>(r: seq<T>, q: seq<T>, cmp: (T, T) -> int)
    requires WeakOrder(cmp) && Sorted(r, cmp) && Sorted(q, cmp)
    requires forall x :: Class(r, x, cmp) == Class(q, x, cmp)
    ensures r == q
  {
    if r == [] {
      FirstHasClass(q, cmp);
    } else {
      FirstHasClass(r, cmp);
      assert q != [];
      HeadsAgree(r, q, cmp);
      TailSorted(r, cmp);
      TailSorted(q, cmp);
      TailsAgree(r, q, cmp);
      hide Sorted, WeakOrder, Class;
      StableSortIsUnique(r[1..], q[1..], cmp);
      assert r == [r[0]] + r[1..] && q == [q[0]] + q[1..];
    }
  }

  /** The decorated elements whose value compares equal to x. */
  ghost function TaggedClass<T>(d: seq<Indexed<T>>, x: T, cmp: (T, T) -> int): seq<Indexed<T>> {
    if d == [] then []
    else (if cmp(x, d[0].value) == 0 then [d[0]] else []) + TaggedClass(d[1..], x, cmp)
  }

  lemma {:induction false} TaggedClassValues<T>(d: seq<Indexed<T>>, x: T, cmp: (T, T) -> int)
    ensures Values(TaggedClass(d, x, cmp)) == Class(Values(d), x, cmp)
  {
    if d != [] {
      TaggedClassValues(d[1..], x, cmp);
      assert Values(d)[1..] == Values(d[1..]);
    }
  }

  /** Taking a class commutes with reordering. */
  lemma {:induction false} TaggedClassCount<T>(d: seq<Indexed<T>>, x: T, e: Indexed<T>, cmp: (T, T) -> int)
    ensures multiset(TaggedClass(d, x, cmp))[e] == if cmp(x, e.value) == 0 then multiset(d)[e] else 0
  {
    if d != [] {
      TaggedClassCount(d[1..], x, e, cmp);
      assert d == [d[0]] + d[1..];
    }
  }

  ghost predicate IndexSorted<T>(d: seq<Indexed<T>>) {
    forall i, j :: 0 <= i < j < |d| ==> d[i].index <= d[j].index
  }

  ghost predicate FromArray<T>(d: seq<Indexed<T>>, s: seq<T>) {
    forall e :: e in d ==> e.index < |s| && e.value == s[e.index]
  }

  lemma {:induction false} TaggedClassMembers<T>(d: seq<Indexed<T>>, x: T, cmp: (T, T) -> int)
    ensures forall e :: e in TaggedClass(d, x, cmp) ==> e in d && cmp(x, e.value) == 0
  {
    if d != [] {
      TaggedClassMembers(d[1..], x, cmp);
    }
  }

  /** Within a class the stable comparison is the comparison of indices. */
  lemma EqualValuesByIndex<T(!new)>(d: seq<Indexed<T>>, j: nat, x: T, cmp: (T, T) -> int)
    requires WeakOrder(cmp) && Sorted(d, StableCompare(cmp)) && 0 < j < |d|
    requires cmp(x, d[0].value) == 0 && cmp(x, d[j].value) == 0
    ensures d[0].index <= d[j].index
  {
    assert StableCompare(cmp)(d[0], d[j]) <= 0;
    SameClass(cmp, d[0].value, x, d[j].value);
  }

  lemma {:induction false} TaggedClassSorted<T(!new)>(d: seq<Indexed<T>>, x: T, cmp: (T, T) -> int)
    requires WeakOrder(cmp) && Sorted(d, StableCompare(cmp))
    ensures IndexSorted(TaggedClass(d, x, cmp))
  {
    if d != [] {
      TaggedClassSorted(d[1..], x, cmp);
      if cmp(x, d[0].value) == 0 {
        TaggedClassMembers(d[1..], x, cmp);
        forall e | e in TaggedClass(d[1..], x, cmp) ensures d[0].index <= e.index {
          var j :| 0 < j < |d| && d[j] == e;
          EqualValuesByIndex(d, j, x, cmp);
        }
      }
    }
  }

  lemma FirstAgrees<T>(a: seq<Indexed<T>>, b: seq<Indexed<T>>, s: seq<T>)
    requires multiset(a) == multiset(b) && a != [] && b != []
    requires IndexSorted(a) && IndexSorted(b) && FromArray(a, s)
    ensures a[0] == b[0]
  {
    assert a[0] in multiset(b) && b[0] in multiset(a);
    var i :| 0 <= i < |b| && b[i] == a[0];
    var j :| 0 <= j < |a| && a[j] == b[0];
  }

  lemma SameTail<T>(a: seq<T>, b: seq<T>)
    requires multiset(a) == multiset(b) && a != [] && b != [] && a[0] == b[0]
    ensures multiset(a[1..]) == multiset(b[1..])
  {
    assert a == [a[0]] + a[1..] && b == [b[0]] + b[1..];
    assert multiset(a[1..]) == multiset(a) - multiset{a[0]};
  }

  /** A multiset of array slots has one listing in index order. */
  lemma {:induction false} IndexOrderIsUnique<T>(a: seq<Indexed<T>>, b: seq<Indexed<T>>, s: seq<T>)
    requires multiset(a) == multiset(b)
    requires IndexSorted(a) && IndexSorted(b) && FromArray(a, s)
    ensures a == b
  {
    assert |multiset(a)| == |a| && |multiset(b)| == |b|;
    if a != [] {
      FirstAgrees(a, b, s);
      SameTail(a, b);
      IndexOrderIsUnique(a[1..], b[1..], s);
      assert a == [a[0]] + a[1..] && b == [b[0]] + b[1..];
    }
  }

  lemma DecoratedSorted<T(!new)>(s: seq<T>, x: T, cmp: (T, T) -> int)
    requires WeakOrder(cmp)
    ensures IndexSorted(TaggedClass(Decorated(s), x, cmp))
  {
    TaggedClassIndexSorted(Decorated(s), x, cmp);
  }

  lemma {:induction false} TaggedClassIndexSorted<T>(d: seq<Indexed<T>>, x: T, cmp: (T, T) -> int)
    requires IndexSorted(d)
    ensures IndexSorted(TaggedClass(d, x, cmp))
    ensures forall e :: e in TaggedClass(d, x, cmp) ==> e in d
  {
    if d != [] {
      TaggedClassIndexSorted(d[1..], x, cmp);
      forall e | e in TaggedClass(d[1..], x, cmp) ensures d[0].index <= e.index {
        var j :| 1 <= j < |d| && d[j] == e;
      }
    }
  }

  /** Sorting the decorated array in any way at all gives, undecorated, the stable sort. */
  lemma DecorationIsStable<T(!new)>(s: seq<T>, d: seq<Indexed<T>>, cmp: (T, T) -> int)
    requires WeakOrder(cmp)
    requires multiset(d) == multiset(Decorated(s)) && Sorted(d, StableCompare(cmp))
    ensures IsStableSort(s, Values(d), cmp)
  {
    forall e | e in d ensures e.index < |s| && e.value == s[e.index] {
      assert e in multiset(Decorated(s));
    }
    forall i, j | 0 <= i < j < |d| ensures cmp(Values(d)[i], Values(d)[j]) <= 0 {
      assert StableCompare(cmp)(d[i], d[j]) <= 0;
    }
    forall x ensures Class(Values(d), x, cmp) == Class(s, x, cmp) {
      var a, b := TaggedClass(d, x, cmp), TaggedClass(Decorated(s), x, cmp);
      forall e ensures multiset(a)[e] == multiset(b)[e] {
        TaggedClassCount(d, x, e, cmp);
        TaggedClassCount(Decorated(s), x, e, cmp);
      }
      TaggedClassSorted(d, x, cmp);
      TaggedClassMembers(d, x, cmp);
      DecoratedSorted(s, x, cmp);
      IndexOrderIsUnique(a, b, s);
      TaggedClassValues(d, x, cmp);
      TaggedClassValues(Decorated(s), x, cmp);
      assert Values(Decorated(s)) == s;
    }
  }

  // ----- the native sort has no choice -----

  lemma StableCompareIsTotal<T(!new)>(cmp: (T, T) -> int)
    requires WeakOrder(cmp)
    ensures WeakOrder(StableCompare(cmp))
  {
    var sc := StableCompare(cmp);
    forall a: Indexed<T>, b: Indexed<T> ensures sc(a, b) < 0 <==> sc(b, a) > 0 {
      assert cmp(a.value, b.value) < 0 <==> cmp(b.value, a.value) > 0;
      assert cmp(b.value, a.value) < 0 <==> cmp(a.value, b.value) > 0;
    }
    forall a: Indexed<T>, b: Indexed<T>, c: Indexed<T> | Triple(a, b, c) && sc(a, b) <= 0 && sc(b, c) <= 0
      ensures sc(a, c) <= 0
    {
      Transitive(cmp, a.value, b.value, c.value);
      Transitive(cmp, c.value, a.value, b.value);
      Transitive(cmp, b.value, c.value, a.value);
    }
  }

  /** Taking the elements that compare equal commutes with reordering. */
  lemma {:induction false} ClassCount<T>(s: seq<T>, x: T, e: T, cmp: (T, T) -> int)
    ensures multiset(Class(s, x, cmp))[e] == if cmp(x, e) == 0 then multiset(s)[e] else 0
  {
    if s != [] {
      ClassCount(s[1..], x, e, cmp);
      assert s == [s[0]] + s[1..];
    }
  }

  lemma {:induction false} AllAlike<T>(a: seq<T>, b: seq<T>, e: T)
    requires multiset(a) == multiset(b) && forall x :: x in a ==> x == e
    ensures a == b
  {
    assert |multiset(a)| == |a| && |multiset(b)| == |b|;
    forall i | 0 <= i < |b| ensures b[i] == e == a[i] {
      assert b[i] in multiset(b);
      assert b[i] in a && a[i] in a;
    }
  }

  /** Indexed elements of one array that the stable comparison takes for equal are the same. */
  lemma EqualIsSame<T>(s: seq<T>, a: Indexed<T>, b: Indexed<T>, cmp: (T, T) -> int)
    requires a in Decorated(s) && b in Decorated(s) && StableCompare(cmp)(a, b) == 0
    ensures a == b
  {
  }

  /**
   * The stable comparison is a strict total order on the decorated elements, so every native sort
   * brings them into one and the same order.
   */
  lemma NativeSortsAgree<T(!new)>(s: seq<T>, d: seq<Indexed<T>>, e: seq<Indexed<T>>, cmp: (T, T) -> int)
    requires WeakOrder(cmp)
    requires multiset(d) == multiset(e) == multiset(Decorated(s))
    requires Sorted(d, StableCompare(cmp)) && Sorted(e, StableCompare(cmp))
    ensures d == e
  {
    var sc := StableCompare(cmp);
    StableCompareIsTotal(cmp);
    forall x ensures Class(d, x, sc) == Class(e, x, sc) {
      SameClasses(s, d, e, x, cmp);
    }
    StableSortIsUnique(d, e, sc);
  }

  lemma SameClasses<T(!new)>(s: seq<T>, d: seq<Indexed<T>>, e: seq<Indexed<T>>, x: Indexed<T>, cmp: (T, T) -> int)
    requires WeakOrder(StableCompare(cmp)) && multiset(d) == multiset(e) == multiset(Decorated(s))
    ensures Class(d, x, StableCompare(cmp)) == Class(e, x, StableCompare(cmp))
  {
    var sc := StableCompare(cmp);
    var a, b := Class(d, x, sc), Class(e, x, sc);
    forall y ensures multiset(a)[y] == multiset(b)[y] {
      ClassCount(d, x, y, sc);
      ClassCount(e, x, y, sc);
    }
    if a == [] {
      assert |multiset(b)| == 0;
    } else {
      forall y | y in a ensures y == a[0] {
        assert y in multiset(a) && a[0] in multiset(a);
        ClassCount(d, x, y, sc);
        ClassCount(d, x, a[0], sc);
        assert y in multiset(Decorated(s)) && a[0] in multiset(Decorated(s));
        SameClass(sc, y, x, a[0]);
        EqualIsSame(s, y, a[0], cmp);
      }
      AllAlike(a, b, a[0]);
    }
  }

  method StableSort<T(!new)>(arr: JsArray<Slot<T>>, nativeSort: seq<Indexed<T>> -> seq<Indexed<T>>,
                             cmp: (T, T) -> int, ghost input: seq<T>)
    returns (ghost result: seq<T>)
    requires WeakOrder(cmp)
    requires IsSort(nativeSort, StableCompare(cmp))
    requires arr.items == PlainSlots(input)
    modifies arr
    ensures arr.items == PlainSlots(result) && IsStableSort(input, result, cmp)
  {
    for i := 0 to |arr.items|
      invariant |arr.items| == |input|
      invariant forall k :: 0 <= k < i ==> arr.items[k] == Tagged(Indexed(k, input[k]))
      invariant forall k :: i <= k < |input| ==> arr.items[k] == Plain(input[k])
    {
      arr.items := arr.items[i := Tagged(Indexed(i, arr.items[i].plain))];
    }
    assert arr.items == TaggedSlots(Decorated(input));
    var decorated := seq(|arr.items|, i requires 0 <= i < |arr.items| && arr.items[i].Tagged? reads arr => arr.items[i].tag);
    assert decorated == Decorated(input);
    var sorted := nativeSort(decorated);
    arr.items := TaggedSlots(sorted);
    DecorationIsStable(input, sorted, cmp);
    result := Values(sorted);
    for i := 0 to |arr.items|
      invariant |arr.items| == |sorted|
      invariant forall k :: 0 <= k < i ==> arr.items[k] == Plain(result[k])
      invariant forall k :: i <= k < |sorted| ==> arr.items[k] == Tagged(sorted[k])
    {
      arr.items := arr.items[i := Plain(arr.items[i].tag.value)];
    }
  }
}
