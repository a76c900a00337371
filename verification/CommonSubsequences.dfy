/**
 * goog.math.longestCommonSubsequence: dynamic programming table and backtracking.
 * Relations are arbitrary: nothing is assumed of the comparison function.
 */
module CommonSubsequences {

  datatype Option<T> = None | Some(value: T)

  /** What a table entry holds: an unset array element, a number, or the NaN that arithmetic on an unset one gives. */
  datatype Cell = Undefined | NaN | Num(n: int)

  function PlusOne(c: Cell): Cell {
    if c.Num? then Num(c.n + 1) else NaN
  }

  /** Math.max. */
  function MaxCell(a: Cell, b: Cell): Cell {
    if a.Num? && b.Num? then (if a.n >= b.n then a else b) else NaN
  }

  /** The > operator: false as soon as an operand is not a number. */
  predicate Greater(a: Cell, b: Cell) {
    a.Num? && b.Num? && a.n > b.n
  }

  /** Which positions of the two arrays match. */
  type Match = (nat, nat) -> bool

  function Max(a: nat, b: nat): nat {
    if a >= b then a else b
  }

  /** The length of the longest common subsequence of the first i and the first j elements. */
  function Lcs(eq: Match, i: nat, j: nat): nat
    decreases i + j
  {
    if i == 0 || j == 0 then 0
    else if eq(i - 1, j - 1) then Lcs(eq, i - 1, j - 1) + 1
    else Max(Lcs(eq, i - 1, j), Lcs(eq, i, j - 1))
  }

  /** Matching positions, strictly increasing in both arrays, among the first i and the first j elements. */
  ghost predicate Common(eq: Match, pairs: seq<(nat, nat)>, i: nat, j: nat) {
    && (forall k :: 0 <= k < |pairs| ==> pairs[k].0 < i && pairs[k].1 < j && eq(pairs[k].0, pairs[k].1))
    && (forall k, l :: 0 <= k < l < |pairs| ==> pairs[k].0 < pairs[l].0 && pairs[k].1 < pairs[l].1)
  }

  /** No common subsequence is longer than Lcs. */
  lemma {:induction false} LcsIsUpperBound(eq: Match, pairs: seq<(nat, nat)>, i: nat, j: nat)
    requires Common(eq, pairs, i, j)
    ensures |pairs| <= Lcs(eq, i, j)
    decreases i + j
  {
    if pairs != [] {
      var (a, b) := pairs[|pairs| - 1];
      var front := pairs[..|pairs| - 1];
      if eq(i - 1, j - 1) {
        LcsIsUpperBound(eq, front, i - 1, j - 1);
      } else if a < i - 1 {
        LcsIsUpperBound(eq, pairs, i - 1, j);
      } else {
        LcsIsUpperBound(eq, pairs, i, j - 1);
      }
    }
  }

  /** The table entry at (i, j) for j <= length2: the fill stops at column length1 in every row but the first. */
  function Entry(eq: Match, n1: nat, i: nat, j: nat): Cell {
    if i == 0 || j == 0 then Num(0) else if j <= n1 then Num(Lcs(eq, i, j)) else Undefined
  }

  /** The pairs that backtracking collects from (i, j). */
  function Walk(eq: Match, n1: nat, i: nat, j: nat): seq<(nat, nat)>
    decreases i + j
  {
    if i == 0 || j == 0 then []
    else if eq(i - 1, j - 1) then Walk(eq, n1, i - 1, j - 1) + [(i - 1, j - 1)]
    else if Greater(Entry(eq, n1, i - 1, j), Entry(eq, n1, i, j - 1)) then Walk(eq, n1, i - 1, j)
    else Walk(eq, n1, i, j - 1)
  }

  lemma CommonMore(eq: Match, pairs: seq<(nat, nat)>, i: nat, j: nat)
    requires i > 0 && j > 0 && Common(eq, pairs, i - 1, j - 1) && eq(i - 1, j - 1)
    ensures Common(eq, pairs + [(i - 1, j - 1)], i, j)
  {
  }

  /** Whatever the lengths, the result is a common subsequence. */
  lemma {:induction false} WalkIsCommon(eq: Match, n1: nat, i: nat, j: nat)
    ensures Common(eq, Walk(eq, n1, i, j), i, j)
    decreases i + j
  {
    if i > 0 && j > 0 {
      if eq(i - 1, j - 1) {
        WalkIsCommon(eq, n1, i - 1, j - 1);
        CommonMore(eq, Walk(eq, n1, i - 1, j - 1), i, j);
      } else {
        WalkIsCommon(eq, n1, i - 1, j);
        WalkIsCommon(eq, n1, i, j - 1);
      }
    }
  }

  lemma {:induction false} WalkIsLongest(eq: Match, n1: nat, i: nat, j: nat)
    requires i <= n1 && (j <= n1 || n1 <= 1)
    ensures |Walk(eq, n1, i, j)| == Lcs(eq, i, j)
    decreases i + j
  {
    if i > 0 && j > 0 {
      if eq(i - 1, j - 1) {
        WalkIsLongest(eq, n1, i - 1, j - 1);
      } else {
        WalkIsLongest(eq, n1, i - 1, j);
        WalkIsLongest(eq, n1, i, j - 1);
      }
    }
  }

  function OnlyCorner(n2: nat): Match {
    (i: nat, j: nat) => i == 0 && j + 1 == n2
  }

  /** Among the first n1 and the first n2 elements only the first and the last one match. */
  ghost predicate OnlyCornerMatches(eq: Match, n1: nat, n2: nat) {
    forall i: nat, j: nat :: i < n1 && j < n2 ==> (eq(i, j) <==> i == 0 && j + 1 == n2)
  }

  lemma {:induction false} CornerLost(eq: Match, n1: nat, n2: nat, i: nat, j: nat)
    requires i <= n1 < n2 && j <= n2 && (j < n2 || 2 <= i) && OnlyCornerMatches(eq, n1, n2)
    ensures Walk(eq, n1, i, j) == []
    decreases i + j
  {
    if i > 0 && j > 0 {
      if j < n2 { CornerLost(eq, n1, n2, i - 1, j); }
      CornerLost(eq, n1, n2, i, j - 1);
    }
  }

  lemma {:induction false} CornerExists(n2: nat, i: nat)
    requires n2 > 0 && i > 0
    ensures Lcs(OnlyCorner(n2), i, n2) >= 1
  {
    LcsIsUpperBound(OnlyCorner(n2), [(0, n2 - 1)], i, n2);
  }

  /**
   * The promise of the documentation, that no common subsequence is longer than the
   * result, holds for every comparison function exactly when the first array is at
   * least as long as the second or has at most one element.
   */
  lemma LongestExactlyWhen(n1: nat, n2: nat)
    ensures (forall eq: Match :: |Walk(eq, n1, n1, n2)| == Lcs(eq, n1, n2)) <==> n1 >= n2 || n1 <= 1
  {
    if n1 >= n2 || n1 <= 1 {
      forall eq: Match ensures |Walk(eq, n1, n1, n2)| == Lcs(eq, n1, n2) {
        WalkIsLongest(eq, n1, n1, n2);
      }
    } else {
      CornerLost(OnlyCorner(n2), n1, n2, n1, n2);
      CornerExists(n2, n1);
      assert |Walk(OnlyCorner(n2), n1, n1, n2)| != Lcs(OnlyCorner(n2), n1, n2);
    }
  }

  function Collected<R>(pairs: seq<(nat, nat)>, collect: (nat, nat) -> R): seq<R> {
    seq(|pairs|, k requires 0 <= k < |pairs| => collect(pairs[k].0, pairs[k].1))
  }

  /** An array element; beyond its end an array reads undefined. */
  function At<T>(arr: seq<T>, i: nat): Option<T> {
    if i < |arr| then Some(arr[i]) else None
  }

  function Matches<T>(first: seq<T>, second: seq<T>, compare: (Option<T>, Option<T>) -> bool): Match {
    (i: nat, j: nat) => compare(At(first, i), At(second, j))
  }

  // ----- in terms of the arrays -----

  /** Positions in both arrays, strictly increasing, at which the elements match. */
  ghost predicate CommonIn<T>(first: seq<T>, second: seq<T>, compare: (Option<T>, Option<T>) -> bool, pairs: seq<(nat, nat)>) {
    && (forall k :: 0 <= k < |pairs| ==>
          && pairs[k].0 < |first| && pairs[k].1 < |second|
          && compare(Some(first[pairs[k].0]), Some(second[pairs[k].1])))
    && (forall k, l :: 0 <= k < l < |pairs| ==> pairs[k].0 < pairs[l].0 && pairs[k].1 < pairs[l].1)
  }

  lemma CommonIsCommonIn<T>(first: seq<T>, second: seq<T>, compare: (Option<T>, Option<T>) -> bool, pairs: seq<(nat, nat)>)
    ensures Common(Matches(first, second, compare), pairs, |first|, |second|) <==> CommonIn(first, second, compare, pairs)
  {
    forall k | 0 <= k < |pairs| && pairs[k].0 < |first| && pairs[k].1 < |second|
      ensures Matches(first, second, compare)(pairs[k].0, pairs[k].1) == compare(Some(first[pairs[k].0]), Some(second[pairs[k].1]))
    {
      MatchesAt(first, second, compare, pairs[k].0, pairs[k].1);
    }
  }

  lemma MatchesAt<T>(first: seq<T>, second: seq<T>, compare: (Option<T>, Option<T>) -> bool, i: nat, j: nat)
    requires i < |first| && j < |second|
    ensures Matches(first, second, compare)(i, j) == compare(Some(first[i]), Some(second[j]))
  {
    var eq := Matches(first, second, compare);
    assert At(first, i) == Some(first[i]) && At(second, j) == Some(second[j]);
    assert eq(i, j) == compare(At(first, i), At(second, j));
  }

  ghost predicate NoneLonger<T>(first: seq<T>, second: seq<T>, compare: (Option<T>, Option<T>) -> bool, length: nat) {
    forall pairs :: CommonIn(first, second, compare, pairs) ==> |pairs| <= length
  }

  /** What the method gives: a common subsequence, as collect shows it, and one of the longest when the lengths allow it. */
  ghost predicate IsResult<T, R(!new)>(first: seq<T>, second: seq<T>, compare: (Option<T>, Option<T>) -> bool,
                                       collect: (nat, nat) -> R, result: seq<R>) {
    exists pairs: seq<(nat, nat)> ::
      && CommonIn(first, second, compare, pairs)
      && |result| == |pairs| && (forall k :: 0 <= k < |pairs| ==> result[k] == collect(pairs[k].0, pairs[k].1))
      && (|first| >= |second| || |first| <= 1 ==> NoneLonger(first, second, compare, |pairs|))
  }

  lemma WalkIsResult<T, R(!new)>(first: seq<T>, second: seq<T>, compare: (Option<T>, Option<T>) -> bool, collect: (nat, nat) -> R)
    ensures IsResult(first, second, compare, collect, Collected(Walk(Matches(first, second, compare), |first|, |first|, |second|), collect))
  {
    var eq := Matches(first, second, compare);
    var pairs := Walk(eq, |first|, |first|, |second|);
    WalkIsCommon(eq, |first|, |first|, |second|);
    CommonIsCommonIn(first, second, compare, pairs);
    hide Walk, Lcs, Matches;
    if |first| >= |second| || |first| <= 1 {
      WalkIsLongest(eq, |first|, |first|, |second|);
      forall others | CommonIn(first, second, compare, others) ensures |others| <= |pairs| {
        CommonIsCommonIn(first, second, compare, others);
        LcsIsUpperBound(eq, others, |first|, |second|);
      }
    }
  }

  function Equal(a: Option<int>, b: Option<int>): bool {
    a == b
  }

  ghost predicate LongestForEqual(n1: nat, n2: nat) {
    forall first: seq<int>, second: seq<int> | |first| == n1 && |second| == n2 ::
      NoneLonger(first, second, Equal, |Walk(Matches(first, second, Equal), n1, n1, n2)|)
  }

  /** Already for the default comparison the promise holds exactly for those lengths. */
  lemma LongestForEqualExactlyWhen(n1: nat, n2: nat)
    ensures LongestForEqual(n1, n2) <==> n1 >= n2 || n1 <= 1
  {
    if n1 >= n2 || n1 <= 1 {
      forall first: seq<int>, second: seq<int> | |first| == n1 && |second| == n2
        ensures NoneLonger(first, second, Equal, |Walk(Matches(first, second, Equal), n1, n1, n2)|)
      {
        EqualIsLongest(first, second);
      }
    } else {
      EqualIsNotLongest(n1, n2);
    }
  }

  lemma EqualIsLongest(first: seq<int>, second: seq<int>)
    requires |first| >= |second| || |first| <= 1
    ensures NoneLonger(first, second, Equal, |Walk(Matches(first, second, Equal), |first|, |first|, |second|)|)
  {
    var eq := Matches(first, second, Equal);
    WalkIsLongest(eq, |first|, |first|, |second|);
    forall others | CommonIn(first, second, Equal, others) ensures |others| <= Lcs(eq, |first|, |second|) {
      CommonIsCommonIn(first, second, Equal, others);
      LcsIsUpperBound(eq, others, |first|, |second|);
    }
  }

  lemma EqualIsNotLongest(n1: nat, n2: nat)
    requires 1 < n1 < n2
    ensures !LongestForEqual(n1, n2)
  {
    var first := seq(n1, i => if i == 0 then 1 else 0);
    var second := seq(n2, j => if j + 1 == n2 then 1 else 2);
    var eq := Matches(first, second, Equal);
    forall i: nat, j: nat | i < n1 && j < n2 ensures eq(i, j) <==> i == 0 && j + 1 == n2 {
      MatchesAt(first, second, Equal, i, j);
    }
    CornerLost(eq, n1, n2, n1, n2);
    assert CommonIn(first, second, Equal, [(0, n2 - 1)]);
    assert !NoneLonger(first, second, Equal, 0);
  }

  // ----- the table -----

  /** The table is as filled for rows below i, and in row i for columns below j. */
  ghost predicate Filled(eq: Match, n1: nat, n2: nat, table: array2<Cell>, i: nat, j: nat)
    reads table
  {
    && table.Length0 == n1 + 1 && table.Length1 == Max(n1, n2) + 1
    && (forall c :: 0 <= c <= n2 ==> table[0, c] == Num(0))
    && (forall r :: 0 <= r <= n1 ==> table[r, 0] == Num(0))
    && (forall r, c :: 1 <= r <= n1 && 1 <= c <= n2 && c <= n1 && (r < i || (r == i && c < j)) ==> table[r, c] == Num(Lcs(eq, r, c)))
    && (forall r, c :: 1 <= r <= n1 && n1 < c <= n2 ==> table[r, c] == Undefined)
  }

  /** arr[i][0] = 0 for every row, then arr[0][j] = 0 for every column. */
  method InitTable(n1: nat, n2: nat, ghost eq: Match) returns (table: array2<Cell>)
    ensures fresh(table)
    ensures Filled(eq, n1, n2, table, 1, 0)
  {
    table := new Cell[n1 + 1, Max(n1, n2) + 1]((_, _) => Undefined);
    for i := 0 to n1 + 1
      invariant forall r, c :: 0 <= r <= n1 && 0 <= c <= Max(n1, n2) ==>
        table[r, c] == if r < i && c == 0 then Num(0) else Undefined
    {
      table[i, 0] := Num(0);
    }
    for j := 0 to n2 + 1
      invariant forall r, c :: 0 <= r <= n1 && 0 <= c <= Max(n1, n2) ==>
        table[r, c] == if c == 0 || (r == 0 && c < j) then Num(0) else Undefined
    {
      table[0, j] := Num(0);
    }
  }

  method FillCell<T>(table: array2<Cell>, first: seq<T>, second: seq<T>, compare: (Option<T>, Option<T>) -> bool,
                     i: nat, j: nat)
    requires 1 <= i <= |first| && 1 <= j <= |first|
    requires Filled(Matches(first, second, compare), |first|, |second|, table, i, j)
    modifies table
    ensures Filled(Matches(first, second, compare), |first|, |second|, table, i, j + 1)
  {
    ghost var eq := Matches(first, second, compare);
    assert j <= |second| ==> Lcs(eq, i - 1, j - 1) >= 0 && Lcs(eq, i - 1, j) >= 0 && Lcs(eq, i, j - 1) >= 0;
    if compare(At(first, i - 1), At(second, j - 1)) {
      table[i, j] := PlusOne(table[i - 1, j - 1]);
    } else {
      table[i, j] := MaxCell(table[i - 1, j], table[i, j - 1]);
    }
  }

  method FillTable<T>(first: seq<T>, second: seq<T>, compare: (Option<T>, Option<T>) -> bool)
    returns (table: array2<Cell>)
    ensures fresh(table)
    ensures Filled(Matches(first, second, compare), |first|, |second|, table, |first| + 1, 0)
  {
    ghost var eq := Matches(first, second, compare);
    table := InitTable(|first|, |second|, eq);
    for i := 1 to |first| + 1
      invariant Filled(eq, |first|, |second|, table, i, 0)
    {
      NextColumn(eq, |first|, |second|, table, i);
      for j := 1 to |first| + 1
        invariant Filled(eq, |first|, |second|, table, i, j)
      {
        FillCell(table, first, second, compare, i, j);
      }
      NextRow(eq, |first|, |second|, table, i);
    }
  }

  lemma NextColumn(eq: Match, n1: nat, n2: nat, table: array2<Cell>, i: nat)
    requires Filled(eq, n1, n2, table, i, 0)
    ensures Filled(eq, n1, n2, table, i, 1)
  {
  }

  lemma NextRow(eq: Match, n1: nat, n2: nat, table: array2<Cell>, i: nat)
    requires Filled(eq, n1, n2, table, i, n1 + 1)
    ensures Filled(eq, n1, n2, table, i + 1, 0)
  {
  }

  /** Where backtracking ends up that is at (i, j) with these pairs collected. */
  ghost function Onward(eq: Match, n1: nat, i: nat, j: nat, pairs: seq<(nat, nat)>): seq<(nat, nat)> {
    Walk(eq, n1, i, j) + pairs
  }

  lemma WalkBegins(eq: Match, n1: nat, i: nat, j: nat)
    ensures Onward(eq, n1, i, j, []) == Walk(eq, n1, i, j)
  {
  }

  lemma WalkTakes(eq: Match, n1: nat, i: nat, j: nat, pairs: seq<(nat, nat)>)
    requires i > 0 && j > 0 && eq(i - 1, j - 1)
    ensures Onward(eq, n1, i, j, pairs) == Onward(eq, n1, i - 1, j - 1, [(i - 1, j - 1)] + pairs)
  {
  }

  lemma WalkSkips(eq: Match, n1: nat, i: nat, j: nat, pairs: seq<(nat, nat)>)
    requires i > 0 && j > 0 && !eq(i - 1, j - 1)
    ensures Onward(eq, n1, i, j, pairs) ==
      if Greater(Entry(eq, n1, i - 1, j), Entry(eq, n1, i, j - 1)) then Onward(eq, n1, i - 1, j, pairs)
      else Onward(eq, n1, i, j - 1, pairs)
  {
  }

  lemma WalkEnds(eq: Match, n1: nat, i: nat, j: nat, pairs: seq<(nat, nat)>)
    requires i == 0 || j == 0
    ensures Onward(eq, n1, i, j, pairs) == pairs
  {
    assert Walk(eq, n1, i, j) == [];
  }

  /** Whether the walk goes up, when the elements do not match. */
  method GoesUp(table: array2<Cell>, ghost eq: Match, ghost n1: nat, ghost n2: nat, i: nat, j: nat) returns (up: bool)
    requires Filled(eq, n1, n2, table, n1 + 1, 0) && 0 < i <= n1 && 0 < j <= n2
    ensures up == Greater(Entry(eq, n1, i - 1, j), Entry(eq, n1, i, j - 1))
  {
    up := Greater(table[i - 1, j], table[i, j - 1]);
  }

  lemma CollectedFront<R>(p: (nat, nat), pairs: seq<(nat, nat)>, collect: (nat, nat) -> R)
    ensures Collected([p] + pairs, collect) == [collect(p.0, p.1)] + Collected(pairs, collect)
  {
  }

  method LongestCommonSubsequence<T, R(!new)>(first: seq<T>, second: seq<T>,
                                        compare: (Option<T>, Option<T>) -> bool, collect: (nat, nat) -> R)
    returns (result: seq<R>)
    ensures result == Collected(Walk(Matches(first, second, compare), |first|, |first|, |second|), collect)
    ensures IsResult(first, second, compare, collect, result)
  {
    var table := FillTable(first, second, compare);
    ghost var eq, n1 := Matches(first, second, compare), |first|;
    ghost var pairs: seq<(nat, nat)> := [];
    result := [];
    assert result == Collected(pairs, collect);
    hide Collected, Onward, Walk, Filled, Entry, Greater, Lcs;
    var i, j := |first|, |second|;
    WalkBegins(eq, n1, i, j);
    while i > 0 && j > 0
      invariant 0 <= i <= |first| && 0 <= j <= |second|
      invariant Filled(eq, n1, |second|, table, |first| + 1, 0)
      invariant Onward(eq, n1, i, j, pairs) == Walk(eq, n1, n1, |second|)
      invariant result == Collected(pairs, collect)
    {
      if compare(At(first, i - 1), At(second, j - 1)) {
        WalkTakes(eq, n1, i, j, pairs);
        CollectedFront((i - 1, j - 1), pairs, collect);
        pairs := [(i - 1, j - 1)] + pairs;
        result := [collect(i - 1, j - 1)] + result;
        i, j := i - 1, j - 1;
      } else {
        WalkSkips(eq, n1, i, j, pairs);
        var up := GoesUp(table, eq, n1, |second|, i, j);
        if up {
          i := i - 1;
        } else {
          j := j - 1;
        }
      }
    }
    WalkEnds(eq, n1, i, j, pairs);
    WalkIsResult(first, second, compare, collect);
  }
}
