/**
 * goog.array.shuffle: the in-place Fisher-Yates shuffle. The random source is
 * the sequence of numbers it returns; what it decides is one index choice per step.
 */
module Shuffles {

  /** One index in [0, i] for each i from n - 1 down to 1. */
  ghost predicate Choices(n: nat, c: seq<nat>) {
    if n <= 1 then c == [] else c != [] && c[0] < n && Choices(n - 1, c[1..])
  }

  ghost predicate Distinct<T>(s: seq<T>) {
    forall i, j :: 0 <= i < j < |s| ==> s[i] != s[j]
  }

  function Swapped<T>(s: seq<T>, i: nat, j: nat): (t: seq<T>)
    requires i < |s| && j < |s|
    ensures |t| == |s|
  {
    s[i := s[j]][j := s[i]]
  }

  /** The array after a shuffle that made the choices c. */
  ghost function Shuffled<T>(s: seq<T>, c: seq<nat>): (t: seq<T>)
    requires Choices(|s|, c)
    ensures |t| == |s|
    decreases |s|
  {
    if |s| <= 1 then s
    else
      var i := |s| - 1;
      var t := Swapped(s, i, c[0]);
      Shuffled(t[..i], c[1..]) + [t[i]]
  }

  /** What the random source returns: one number in [0, 1) for each step of a shuffle of n elements. */
  ghost predicate Randoms(n: nat, r: seq<real>) {
    |r| == (if n == 0 then 0 else n - 1) && forall k :: 0 <= k < |r| ==> 0.0 <= r[k] < 1.0
  }

  /** Math.floor(r * (i + 1)). */
  function Pick(r: real, i: nat): (j: nat)
    requires 0.0 <= r < 1.0
    ensures j <= i
  {
    ScaledInRange(r, (i + 1) as real);
    (r * (i + 1) as real).Floor
  }

  lemma ScaledInRange(r: real, m: real)
    requires 0.0 <= r < 1.0 && m > 0.0
    ensures 0.0 <= r * m < m
  {
  }

  /** The choices a random source makes in an array of n elements. */
  ghost function Chosen(n: nat, randoms: seq<real>): (c: seq<nat>)
    requires Randoms(n, randoms)
    ensures Choices(n, c)
  {
    if n <= 1 then [] else [Pick(randoms[0], n - 1)] + Chosen(n - 1, randoms[1..])
  }

  /** What the loop has yet to do on the first i + 1 elements of s. */
  ghost function Remaining<T>(s: seq<T>, i: nat, left: seq<nat>): (t: seq<T>)
    requires i < |s| && Choices(i + 1, left)
  {
    Shuffled(s[..i + 1], left) + s[i + 1..]
  }

  lemma OneStep<T>(s: seq<T>, i: nat, left: seq<nat>)
    requires 0 < i < |s| && Choices(i + 1, left)
    ensures Remaining(Swapped(s, i, left[0]), i - 1, left[1..]) == Remaining(s, i, left)
  {
    var t := Swapped(s, i, left[0]);
    var u := Swapped(s[..i + 1], i, left[0]);
    assert u[..i] == t[..i] && u[i] == t[i];
    assert t[i..] == [t[i]] + s[i + 1..];
  }

  method SwapAt<T>(arr: array<T>, i: nat, j: nat)
    requires i < arr.Length && j < arr.Length
    modifies arr
    ensures arr[..] == Swapped(old(arr[..]), i, j)
  {
    var tmp := arr[i];
    arr[i] := arr[j];
    arr[j] := tmp;
  }

  method Shuffle<T>(arr: array<T>, randoms: seq<real>)
    requires Randoms(arr.Length, randoms)
    modifies arr
    ensures arr[..] == Shuffled(old(arr[..]), Chosen(arr.Length, randoms))
  {
    var n := arr.Length;
    if n == 0 {
      return;
    }
    ghost var goal := Shuffled(arr[..], Chosen(n, randoms));
    AllRemains(arr[..], Chosen(n, randoms));
    var rest := randoms;
    var i := n - 1;
    while i > 0
      invariant 0 <= i < n && Randoms(i + 1, rest)
      invariant goal == Remaining(arr[..], i, Chosen(i + 1, rest))
    {
      var j := Pick(rest[0], i);
      OneStep(arr[..], i, Chosen(i + 1, rest));
      SwapAt(arr, i, j);
      rest := rest[1..];
      i := i - 1;
    }
    NothingRemains(arr[..]);
  }

  lemma AllRemains<T>(s: seq<T>, c: seq<nat>)
    requires s != [] && Choices(|s|, c)
    ensures Remaining(s, |s| - 1, c) == Shuffled(s, c)
  {
    assert s[..|s|] == s && s[|s|..] == [];
  }

  lemma NothingRemains<T>(s: seq<T>)
    requires s != []
    ensures Remaining(s, 0, []) == s
  {
    assert s[..1] + s[1..] == s;
  }

  lemma Appended<T>(s: seq<T>, x: T)
    ensures multiset(s + [x]) == multiset(s) + multiset{x}
  {
  }

  /** A swap keeps the elements. */
  lemma SwappedIsPermutation<T>(s: seq<T>, i: nat, j: nat)
    requires i < |s| && j < |s|
    ensures multiset(Swapped(s, i, j)) == multiset(s)
  {
    assert multiset(s[i := s[j]]) == multiset(s) - multiset{s[i]} + multiset{s[j]};
  }

  lemma {:induction false} ShuffledIsPermutation<T>(s: seq<T>, c: seq<nat>)
    requires Choices(|s|, c)
    ensures multiset(Shuffled(s, c)) == multiset(s)
    decreases |s|
  {
    if |s| > 1 {
      var i := |s| - 1;
      var t := Swapped(s, i, c[0]);
      SwappedIsPermutation(s, i, c[0]);
      ShuffledIsPermutation(t[..i], c[1..]);
      Appended(Shuffled(t[..i], c[1..]), t[i]);
      Appended(t[..i], t[i]);
      assert t == t[..i] + [t[i]];
    }
  }

  lemma DistinctSwapped<T>(s: seq<T>, j: nat)
    requires Distinct(s) && j < |s|
    ensures Distinct(Swapped(s, |s| - 1, j)[..|s| - 1])
  {
  }

  /** Different choices give different arrays: no permutation comes from two choice sequences. */
  lemma {:induction false} ShuffledIsInjective<T>(s: seq<T>, c: seq<nat>, d: seq<nat>)
    requires Distinct(s) && Choices(|s|, c) && Choices(|s|, d)
    requires Shuffled(s, c) == Shuffled(s, d)
    ensures c == d
    decreases |s|
  {
    if |s| > 1 {
      var i := |s| - 1;
      var t, u := Swapped(s, i, c[0]), Swapped(s, i, d[0]);
      assert Shuffled(s, c)[i] == s[c[0]] && Shuffled(s, d)[i] == s[d[0]];
      assert c[0] == d[0];
      assert Shuffled(t[..i], c[1..]) == Shuffled(s, c)[..i];
      assert Shuffled(u[..i], d[1..]) == Shuffled(s, d)[..i];
      DistinctSwapped(s, c[0]);
      ShuffledIsInjective(t[..i], c[1..], d[1..]);
      assert c == [c[0]] + c[1..] && d == [d[0]] + d[1..];
    }
  }

  lemma IndexOf<T>(s: seq<T>, t: seq<T>, i: nat) returns (j: nat)
    requires multiset(s) == multiset(t) && i < |t|
    ensures j < |s| && s[j] == t[i]
  {
    assert t[i] in multiset(s);
    j :| j < |s| && s[j] == t[i];
  }

  /** Every permutation comes from some choice sequence. */
  lemma {:induction false} ShuffledIsOnto<T>(s: seq<T>, t: seq<T>) returns (c: seq<nat>)
    requires multiset(s) == multiset(t)
    ensures Choices(|s|, c) && Shuffled(s, c) == t
    decreases |s|
  {
    SameLength(s, t);
    if |s| == 0 {
      c := [];
    } else if |s| == 1 {
      c := [];
      var j := IndexOf(s, t, 0);
    } else {
      var i := |s| - 1;
      var j := IndexOf(s, t, i);
      var u := Swapped(s, i, j);
      SwappedIsPermutation(s, i, j);
      SameFront(u, t);
      var rest := ShuffledIsOnto(u[..i], t[..i]);
      FirstChoice(s, t, j, rest);
      c := [j] + rest;
    }
  }

  lemma FirstChoice<T>(s: seq<T>, t: seq<T>, j: nat, rest: seq<nat>)
    requires |s| == |t| > 1 && j < |s| && s[j] == t[|t| - 1] && Choices(|s| - 1, rest)
    requires Shuffled(Swapped(s, |s| - 1, j)[..|s| - 1], rest) == t[..|t| - 1]
    ensures Choices(|s|, [j] + rest) && Shuffled(s, [j] + rest) == t
  {
    var c, i := [j] + rest, |s| - 1;
    assert c[1..] == rest;
    var u := Swapped(s, i, c[0]);
    assert Shuffled(s, c) == Shuffled(u[..i], c[1..]) + [u[i]];
    assert t == t[..i] + [t[i]];
  }

  lemma SameLength<T>(s: seq<T>, t: seq<T>)
    requires multiset(s) == multiset(t)
    ensures |s| == |t|
  {
    assert |multiset(s)| == |s| && |multiset(t)| == |t|;
  }

  lemma SameFront<T>(u: seq<T>, t: seq<T>)
    requires |u| == |t| > 0 && multiset(u) == multiset(t) && u[|u| - 1] == t[|t| - 1]
    ensures multiset(u[..|u| - 1]) == multiset(t[..|t| - 1])
  {
    var i, x := |u| - 1, u[|u| - 1];
    Appended(u[..i], x);
    Appended(t[..i], x);
    assert u == u[..i] + [x] && t == t[..i] + [x];
    assert multiset(u[..i]) == multiset(u) - multiset{x};
  }

  /** On distinct elements: the permutations of s are exactly the shuffles, each from exactly one choice sequence. */
  lemma EachPermutationOnce<T>(s: seq<T>, t: seq<T>)
    requires Distinct(s)
    ensures multiset(s) == multiset(t) <==> exists c :: Choices(|s|, c) && Shuffled(s, c) == t
    ensures forall c, d :: Choices(|s|, c) && Choices(|s|, d) && Shuffled(s, c) == t && Shuffled(s, d) == t ==> c == d
  {
    if multiset(s) == multiset(t) {
      var c := ShuffledIsOnto(s, t);
    }
    forall c | Choices(|s|, c) { ShuffledIsPermutation(s, c); }
    forall c, d | Choices(|s|, c) && Choices(|s|, d) && Shuffled(s, c) == t && Shuffled(s, d) == t ensures c == d {
      ShuffledIsInjective(s, c, d);
    }
  }

  function Renamed<A, B>(s: seq<A>, f: A -> B): (t: seq<B>)
    ensures |t| == |s| && forall i :: 0 <= i < |s| ==> t[i] == f(s[i])
  {
    seq(|s|, i requires 0 <= i < |s| => f(s[i]))
  }

  /** A shuffle moves positions and never looks at elements: shuffling commutes with renaming them. */
  lemma {:induction false} ShuffledIsBlind<A, B>(s: seq<A>, f: A -> B, c: seq<nat>)
    requires Choices(|s|, c)
    ensures Shuffled(Renamed(s, f), c) == Renamed(Shuffled(s, c), f)
    decreases |s|
  {
    if |s| > 1 {
      var i := |s| - 1;
      var t := Swapped(s, i, c[0]);
      assert Swapped(Renamed(s, f), i, c[0]) == Renamed(t, f);
      assert Renamed(t, f)[..i] == Renamed(t[..i], f);
      ShuffledIsBlind(t[..i], f, c[1..]);
      assert Shuffled(Renamed(s, f), c) == Renamed(Shuffled(t[..i], c[1..]), f) + [f(t[i])];
    }
  }

  /** Index j is picked from exactly one of i + 1 equal slices of [0, 1). */
  lemma PickIsUniform(r: real, i: nat, j: nat)
    requires 0.0 <= r < 1.0 && j <= i
    ensures Pick(r, i) == j <==> j as real / (i + 1) as real <= r < (j + 1) as real / (i + 1) as real
  {
    var m := (i + 1) as real;
    Slices(r, m, j as real);
    Slices(r, m, (j + 1) as real);
  }

  lemma Slices(r: real, m: real, x: real)
    requires m > 0.0
    ensures x / m <= r <==> x <= r * m
  {
    var q := x / m;
    assert q * m == x;
    if q <= r {
      assert (r - q) * m >= 0.0;
    } else {
      assert (q - r) * m > 0.0;
    }
  }
}
