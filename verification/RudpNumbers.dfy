/**
 * A packet carries the low 24 bits of each 64-bit sequence number; the receiver
 * restores the rest from a nearby number it knows
 * (getNumberWithHint in openpeer/services/cpp/services_RUDPPacket.cpp).
 */
module RudpNumbers {
  const BLOCK: nat := 0x100_0000
  const WORD: nat := 0x1_0000_0000_0000_0000

  /** number & 0xFFFFFF */
  function Low24(n: nat): (l: nat)
    ensures l < BLOCK
  {
    n % BLOCK
  }

  /** hint & 0xFFFFFFFFFF000000 */
  function Upper(n: nat): nat {
    n - n % BLOCK
  }

  /** Subtraction of 64-bit words. */
  function Minus(a: nat, b: nat): nat {
    (a - b) % WORD
  }

  function NumberWithHint(number: nat, hint: nat): nat
    requires hint < WORD
  {
    var low, upper := Low24(number), Upper(hint);
    var merged := upper + low;
    if merged < hint then
      var higher := (upper + BLOCK) % WORD + low;
      if Minus(higher, hint) < Minus(hint, merged) then higher else merged
    else if upper < BLOCK then merged
    else
      var lower := upper - BLOCK + low;
      if Minus(hint, lower) < Minus(merged, hint) then lower else merged
  }

  function Distance(a: nat, b: nat): nat {
    if a < b then b - a else a - b
  }

  lemma Blocks(n: nat) returns (q: nat, r: nat)
    ensures n == q * BLOCK + r && r < BLOCK && Low24(n) == r && Upper(n) == q * BLOCK
  {
    q, r := n / BLOCK, n % BLOCK;
  }

  lemma MinusIs(a: nat, b: nat)
    requires a < WORD && b < WORD
    ensures Minus(a, b) == if b <= a then a - b else a + WORD - b
  {
  }

  /** The block above the one of the hint, which for the last block of all is the first. */
  function Above(u: nat): nat {
    if (u + 1) * BLOCK == WORD then 0 else (u + 1) * BLOCK
  }

  /** What the code makes of a remainder below that of the hint. */
  lemma ChoiceBelow(m: nat, u: nat, r: nat)
    requires m < r < BLOCK && u * BLOCK + r < WORD
    ensures NumberWithHint(m, u * BLOCK + r) == if BLOCK + m - r < r - m then Above(u) + m else u * BLOCK + m
  {
    var q, r' := Blocks(u * BLOCK + r);
    assert q == u && r' == r;
    assert (u * BLOCK + BLOCK) % WORD == Above(u);
    MinusIs(Above(u) + m, u * BLOCK + r);
    MinusIs(u * BLOCK + r, u * BLOCK + m);
    hide Minus, Upper;
  }

  /** What the code makes of any other remainder. */
  lemma ChoiceAbove(m: nat, u: nat, r: nat)
    requires r <= m < BLOCK && u * BLOCK + r < WORD
    ensures NumberWithHint(m, u * BLOCK + r) == if u > 0 && r + BLOCK - m < m - r then u * BLOCK - BLOCK + m else u * BLOCK + m
  {
    var q, r' := Blocks(u * BLOCK + r);
    assert q == u && r' == r;
    if u > 0 { MinusIs(u * BLOCK + r, u * BLOCK - BLOCK + m); }
    MinusIs(u * BLOCK + m, u * BLOCK + r);
    hide Minus, Upper;
  }

  /**
   * Less than half a block behind the hint, or less than half a block ahead of it, counting on from
   * the last of all words to 0; or half a block away in the hint's own block; or (there is no block
   * before the first one) above the hint and both in the first block.
   */
  ghost predicate Restorable(n: nat, hint: nat) {
    || Minus(n, hint) < BLOCK / 2
    || (n <= hint && hint - n < BLOCK / 2)
    || (Distance(n, hint) == BLOCK / 2 && Upper(n) == Upper(hint))
    || (hint <= n < BLOCK)
  }

  lemma RestorableInBlock(m: nat, u: nat, r: nat)
    requires m < BLOCK && r < BLOCK && u * BLOCK + BLOCK <= WORD
    ensures Restorable(u * BLOCK + m, u * BLOCK + r) <==> Distance(m, r) <= BLOCK / 2 || (u == 0 && r <= m)
  {
    MinusIs(u * BLOCK + m, u * BLOCK + r);
    hide Minus;
  }

  lemma RestorableElsewhere(v: nat, m: nat, u: nat, r: nat)
    requires m < BLOCK && r < BLOCK && v != u && v * BLOCK + BLOCK <= WORD && u * BLOCK + BLOCK <= WORD
    ensures Restorable(v * BLOCK + m, u * BLOCK + r) <==>
      || (v * BLOCK == Above(u) && m < r && BLOCK + m - r < BLOCK / 2)
      || (v + 1 == u && r < m && r + BLOCK - m < BLOCK / 2)
  {
    MinusIs(v * BLOCK + m, u * BLOCK + r);
    var q, _ := Blocks(v * BLOCK + m);
    var q', _ := Blocks(u * BLOCK + r);
    hide Minus, Upper;
  }

  lemma RestoredInBlock(m: nat, u: nat, r: nat)
    requires m < BLOCK && r < BLOCK && u * BLOCK + BLOCK <= WORD
    ensures NumberWithHint(m, u * BLOCK + r) == u * BLOCK + m <==> Restorable(u * BLOCK + m, u * BLOCK + r)
  {
    RestorableInBlock(m, u, r);
    if m < r { ChoiceBelow(m, u, r); } else { ChoiceAbove(m, u, r); }
    hide NumberWithHint, Restorable;
  }

  lemma RestoredElsewhere(v: nat, m: nat, u: nat, r: nat)
    requires m < BLOCK && r < BLOCK && v != u && v * BLOCK + BLOCK <= WORD && u * BLOCK + BLOCK <= WORD
    ensures NumberWithHint(m, u * BLOCK + r) == v * BLOCK + m <==> Restorable(v * BLOCK + m, u * BLOCK + r)
  {
    RestorableElsewhere(v, m, u, r);
    if m < r { ChoiceBelow(m, u, r); } else { ChoiceAbove(m, u, r); }
    hide NumberWithHint, Restorable;
  }

  /** The low 24 bits of a word give it back exactly when it is restorable from the hint. */
  lemma RestoredExactlyWhen(n: nat, hint: nat)
    requires n < WORD && hint < WORD
    ensures NumberWithHint(Low24(n), hint) == n <==> Restorable(n, hint)
  {
    var v, m := Blocks(n);
    var u, r := Blocks(hint);
    assert Low24(m) == m;
    assert v * BLOCK + BLOCK <= WORD && u * BLOCK + BLOCK <= WORD;
    hide NumberWithHint, Restorable, Low24, Upper;
    if v == u { RestoredInBlock(m, u, r); } else { RestoredElsewhere(v, m, u, r); }
  }

  /** A number that lies less than a block behind the hint is restored, or comes out as far ahead as is left of the block. */
  lemma LateComesOutAhead(n: nat, hint: nat)
    requires n <= hint < WORD - BLOCK && hint - n < BLOCK
    ensures NumberWithHint(Low24(n), hint) == n || NumberWithHint(Low24(n), hint) == n + BLOCK
  {
    var v, m := Blocks(n);
    var u, r := Blocks(hint);
    assert Low24(m) == m;
    if m < r { ChoiceBelow(m, u, r); } else { ChoiceAbove(m, u, r); }
    hide NumberWithHint, Low24, Upper;
  }
}
