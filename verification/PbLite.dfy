/**
 * The PB-Lite serializer of javascript/phonenumbernormalizer/js/pbliteserializer.js, with
 * serializer.js below it: messages as arrays indexed by tag, or by tag minus one.
 */
module PbLite {
  import opened ProtoMessages

  function Shift(zero: bool): int {
    if zero then 1 else 0
  }

  function Plus(k: int, d: int): int {
    k + d
  }

  lemma ShiftIsInvertible(keys: set<int>, d: int, moved: set<int>)
    requires moved == set k | k in keys :: Plus(k, d)
    ensures forall i :: i in moved <==> i - d in keys
  {
    forall i ensures i in moved <==> i - d in keys {
      if i - d in keys {
        assert Plus(i - d, d) in moved;
      }
    }
  }

  /** The keys of an array shifted by d. */
  function Moved(keys: set<int>, d: int): (moved: set<int>)
    ensures forall i :: i in moved <==> i - d in keys
  {
    var moved := set k | k in keys :: Plus(k, d);
    ShiftIsInvertible(keys, d, moved);
    moved
  }

  function Fields(s: Schema, typ: TypeName): Descriptor {
    if typ in s then s[typ] else map[]
  }

  // ----- numbers and strings of 64-bit fields -----

  function Digit(n: nat): char
    requires n < 10
  {
    '0' + n as char
  }

  function DecimalNat(n: nat): (s: string)
    ensures s != "" && AllDigits(s)
  {
    if n < 10 then [Digit(n)] else DecimalNat(n / 10) + [Digit(n % 10)]
  }

  /** String(n) of an integer */
  function Decimal(n: int): string {
    if n < 0 then "-" + DecimalNat(-n) else DecimalNat(n)
  }

  predicate AllDigits(s: string) {
    forall i :: 0 <= i < |s| ==> '0' <= s[i] <= '9'
  }

  /** /^-?[0-9]+$/ */
  predicate IsInteger(s: string) {
    var digits := if s != "" && s[0] == '-' then s[1..] else s;
    digits != "" && AllDigits(digits)
  }

  function NumberOfDigits(s: string): nat
    requires AllDigits(s)
  {
    if s == "" then 0 else 10 * NumberOfDigits(s[..|s| - 1]) + (s[|s| - 1] - '0') as nat
  }

  /** The integer such a string denotes. */
  function IntegerOf(s: string): int
    requires IsInteger(s)
  {
    if s[0] == '-' then 0 - NumberOfDigits(s[1..]) else NumberOfDigits(s)
  }

  /** Up to here every integer is a number of its own. */
  const EXACT: nat := 0x20_0000_0000_0000

  /** The distance between neighbouring numbers of this magnitude: a number has 53 significant bits. */
  function Spacing(n: nat): (p: nat)
    ensures p >= 1
    ensures n <= EXACT ==> p == 1
    decreases n
  {
    if n <= EXACT then 1 else 2 * Spacing(n / 2)
  }

  /** The number nearest to an integer, of two equally near ones the one with an even significand. */
  function Rounded(n: nat): nat {
    var p := Spacing(n);
    var q, r := n / p, n % p;
    if 2 * r < p || (2 * r == p && q % 2 == 0) then q * p else (q + 1) * p
  }

  /** Number(s) of such a string */
  function NumberOf(s: string): int
    requires IsInteger(s)
  {
    var n := IntegerOf(s);
    if n < 0 then 0 - Rounded(-n) else Rounded(n)
  }

  function Magnitude(n: int): nat {
    if n < 0 then -n else n
  }

  /** An integer is a number exactly when it lies on the grid of its magnitude. */
  lemma RoundedExactlyWhen(n: nat)
    ensures Rounded(n) == n <==> n % Spacing(n) == 0
    ensures n <= EXACT ==> n % Spacing(n) == 0
  {
    var p := Spacing(n);
    var q, r := n / p, n % p;
    assert n == q * p + r;
    assert (q + 1) * p == q * p + p;
  }

  lemma {:induction false} DigitsReadBack(n: nat)
    ensures NumberOfDigits(DecimalNat(n)) == n
  {
    if n < 10 {
      assert [Digit(n)][..0] == "";
    } else {
      DigitsReadBack(n / 10);
      assert DecimalNat(n)[..|DecimalNat(n)| - 1] == DecimalNat(n / 10);
    }
  }

  lemma IntegerReadsBack(n: int)
    ensures IsInteger(Decimal(n)) && IntegerOf(Decimal(n)) == n
  {
    if n < 0 {
      DigitsReadBack(-n);
      assert Decimal(n)[1..] == DecimalNat(-n);
    } else {
      DigitsReadBack(n);
      assert '0' <= Decimal(n)[0] <= '9';
    }
  }

  // ----- encoding -----

  function EncodedItem(s: Schema, zero: bool, kind: Kind, v: Val): Val
    requires ItemOk(s, kind, v)
    decreases v, 1
  {
    if kind.Boolean? then Num(if v.b then 1 else 0)
    else if kind.Composite? then Sparse(Encoded(s, zero, v.content))
    else v
  }

  function EncodedItems(s: Schema, zero: bool, f: Field, v: Val): (items: seq<Val>)
    requires f.repeated && ValueOk(s, f, v)
    ensures |items| == |v.items|
    decreases v, 2
  {
    seq(|v.items|, i requires 0 <= i < |v.items| => EncodedItem(s, zero, f.kind, v.items[i]))
  }

  function EncodedValue(s: Schema, zero: bool, f: Field, v: Val): Val
    requires ValueOk(s, f, v)
    decreases v, 3
  {
    if f.repeated then List(EncodedItems(s, zero, f, v))
    else
      assert ItemOk(s, f.kind, v);
      EncodedItem(s, zero, f.kind, v)
  }

  /** A known field is written as its type says, an unknown one as it is. */
  function EncodedField(s: Schema, zero: bool, c: Content, t: Tag): Val
    requires WellTyped(s, c) && t in c.fields
    decreases c, 0, 0
  {
    if t in s[c.typ] then EncodedValue(s, zero, s[c.typ][t], c.fields[t]) else c.fields[t]
  }

  /** serialize: the known fields that are present, and every unknown field. */
  function Encoded(s: Schema, zero: bool, c: Content): map<int, Val>
    requires WellTyped(s, c)
    decreases c, 0
  {
    var indices := Moved(Sent(s, c), -Shift(zero));
    map i | i in indices :: EncodedField(s, zero, c, i + Shift(zero))
  }

  /** What the loops of serialize have written after some of the tags. */
  function EncodedPart(s: Schema, zero: bool, c: Content, tags: set<Tag>): map<int, Val>
    requires WellTyped(s, c) && tags <= c.fields.Keys
  {
    var indices := Moved(tags, -Shift(zero));
    map i | i in indices :: EncodedField(s, zero, c, i + Shift(zero))
  }

  lemma KnownGrows(s: Schema, zero: bool, c: Content, tags: set<Tag>, t: Tag)
    requires WellTyped(s, c) && tags <= c.fields.Keys && t in c.fields && t in s[c.typ]
    ensures EncodedPart(s, zero, c, tags + {t}) ==
      EncodedPart(s, zero, c, tags)[t - Shift(zero) := EncodedValue(s, zero, s[c.typ][t], c.fields[t])]
  {
  }

  lemma UnknownGrows(s: Schema, zero: bool, c: Content, tags: set<Tag>, t: Tag)
    requires WellTyped(s, c) && tags <= c.fields.Keys && t in c.fields && t !in s[c.typ]
    ensures EncodedPart(s, zero, c, tags + {t}) == EncodedPart(s, zero, c, tags)[t - Shift(zero) := c.fields[t]]
  {
  }

  lemma NothingWritten(s: Schema, zero: bool, c: Content)
    requires WellTyped(s, c)
    ensures EncodedPart(s, zero, c, {}) == map[]
  {
  }

  lemma AllWritten(s: Schema, zero: bool, c: Content)
    requires WellTyped(s, c)
    ensures EncodedPart(s, zero, c, Sent(s, c)) == Encoded(s, zero, c)
  {
  }

  /** The tags serialize writes: known fields that are present, and every unknown one. */
  function Sent(s: Schema, c: Content): set<Tag>
    requires c.typ in s
  {
    set t | t in c.fields && (t in s[c.typ] ==> Has(c.fields, t))
  }

  // ----- decoding -----

  /** getDeserializedValue */
  function DecodedItem(s: Schema, zero: bool, f: Field, raw: Val): Val
    decreases raw, 1
  {
    match f.kind
    case Boolean => Bool(raw == Num(1))
    case Composite(typ) => if raw.Sparse? then Msg(Decoded(s, zero, typ, raw)) else raw
    case Text => if f.convert && raw.Num? then Str(Decimal(raw.n)) else raw
    case Number => if f.convert && raw.Str? && IsInteger(raw.s) then Num(NumberOf(raw.s)) else raw
    case Enum => raw
  }

  /** deserializeField; a repeated field that is no array cannot be decoded. */
  function DecodedValue(s: Schema, zero: bool, f: Field, raw: Val): Val
    decreases raw, 2
  {
    if !f.repeated then DecodedItem(s, zero, f, raw)
    else if raw.List? then List(seq(|raw.items|, i requires 0 <= i < |raw.items| => DecodedItem(s, zero, f, raw.items[i])))
    else raw
  }

  function DecodedField(s: Schema, zero: bool, typ: TypeName, t: Tag, raw: Val): Val
    decreases raw, 3
  {
    if t in Fields(s, typ) && Present(raw) then DecodedValue(s, zero, Fields(s, typ)[t], raw) else raw
  }

  /** What the lazily decoded message holds once every field has been read. */
  function Decoded(s: Schema, zero: bool, typ: TypeName, data: Val): Content
    requires data.Sparse?
    decreases data, 0
  {
    Content(typ, map t | t in Moved(data.entries.Keys, Shift(zero)) ::
      DecodedField(s, zero, typ, t, data.entries[t - Shift(zero)]))
  }

  lemma DecodedLookup(s: Schema, zero: bool, typ: TypeName, data: Val, t: Tag)
    requires data.Sparse?
    ensures Lookup(Decoded(s, zero, typ, data).fields, t) ==
      if t - Shift(zero) in data.entries then Some(DecodedField(s, zero, typ, t, data.entries[t - Shift(zero)])) else None
  {
  }

  lemma EncodedLookup(s: Schema, zero: bool, c: Content, t: Tag)
    requires WellTyped(s, c)
    ensures Lookup(Encoded(s, zero, c), t - Shift(zero)) ==
      if t in c.fields && (t in s[c.typ] ==> Has(c.fields, t)) then Some(EncodedField(s, zero, c, t)) else None
  {
  }

  // ----- the wire form -----

  /** A boolean is 1 or 0 on the wire, a sub-message an array, anything else itself. */
  ghost predicate ItemOnWire(s: Schema, zero: bool, kind: Kind, v: Val, w: Val) {
    match kind
    case Boolean => (v == Bool(true) && w == Num(1)) || (v == Bool(false) && w == Num(0))
    case Composite(typ) => v.Msg? && WellTyped(s, v.content) && w == Sparse(Encoded(s, zero, v.content))
    case _ => w == v
  }

  ghost predicate FieldOnWire(s: Schema, zero: bool, f: Field, v: Val, w: Val) {
    if f.repeated then
      && v.List? && w.List? && |w.items| == |v.items|
      && forall i :: 0 <= i < |w.items| ==> ItemOnWire(s, zero, f.kind, v.items[i], w.items[i])
    else ItemOnWire(s, zero, f.kind, v, w)
  }

  lemma FieldIsOnWire(s: Schema, zero: bool, f: Field, v: Val)
    requires ValueOk(s, f, v)
    ensures FieldOnWire(s, zero, f, v, EncodedValue(s, zero, f, v))
  {
    hide Encoded, WellTyped;
    if f.repeated {
      forall i | 0 <= i < |v.items| ensures ItemOnWire(s, zero, f.kind, v.items[i], EncodedItems(s, zero, f, v)[i]) {
        assert ItemOk(s, f.kind, v.items[i]);
      }
    } else {
      assert ItemOk(s, f.kind, v);
    }
  }

  /**
   * The array that serialize gives has an entry at the tag, or with zero indexing at the one before it,
   * exactly for the known fields that are present and the unknown fields; a known field is there in its
   * wire form, an unknown one as it is.
   */
  lemma WireForm(s: Schema, zero: bool, c: Content, i: int)
    requires WellTyped(s, c)
    ensures
      var w, t, d := Encoded(s, zero, c), if zero then i + 1 else i, s[c.typ];
      && (i in w <==> t in c.fields && (t in d ==> c.fields[t] != Null && c.fields[t] != Undef))
      && (i in w && t in d ==> FieldOnWire(s, zero, d[t], c.fields[t], w[i]))
      && (i in w && t !in d ==> w[i] == c.fields[t])
  {
    var t := if zero then i + 1 else i;
    EncodedLookup(s, zero, c, t);
    if t in c.fields && t in s[c.typ] { FieldIsOnWire(s, zero, s[c.typ][t], c.fields[t]); }
    hide Encoded, FieldOnWire, EncodedValue;
  }

  // ----- the round trip -----

  lemma {:induction false} ItemRoundTrip(s: Schema, zero: bool, f: Field, v: Val)
    requires ItemOk(s, f.kind, v)
    ensures Present(EncodedItem(s, zero, f.kind, v))
    ensures DecodedItem(s, zero, f, EncodedItem(s, zero, f.kind, v)) == v
    decreases v, 1
  {
    if f.kind.Composite? { RoundTrip(s, zero, v.content); }
  }

  lemma {:induction false} ValueRoundTrip(s: Schema, zero: bool, f: Field, v: Val)
    requires ValueOk(s, f, v)
    ensures Present(v) && Present(EncodedValue(s, zero, f, v))
    ensures DecodedValue(s, zero, f, EncodedValue(s, zero, f, v)) == v
    decreases v, 2
  {
    if f.repeated {
      forall i | 0 <= i < |v.items| ensures DecodedItem(s, zero, f, EncodedItems(s, zero, f, v)[i]) == v.items[i] {
        ItemRoundTrip(s, zero, f, v.items[i]);
      }
    } else {
      assert ItemOk(s, f.kind, v);
      ItemRoundTrip(s, zero, f, v);
    }
  }

  /**
   * Deserializing what was serialized gives back the message itself, unknown fields included, at
   * every depth and in both indexings.
   */
  lemma {:induction false} RoundTrip(s: Schema, zero: bool, c: Content)
    requires WellTyped(s, c)
    ensures Decoded(s, zero, c.typ, Sparse(Encoded(s, zero, c))) == c
    decreases c, 0
  {
    var data := Sparse(Encoded(s, zero, c));
    var back := Decoded(s, zero, c.typ, data);
    forall t ensures Lookup(back.fields, t) == Lookup(c.fields, t) {
      DecodedLookup(s, zero, c.typ, data, t);
      EncodedLookup(s, zero, c, t);
      if t in c.fields && t in s[c.typ] {
        ValueRoundTrip(s, zero, s[c.typ][t], c.fields[t]);
      }
    }
    SameFields(back.fields, c.fields);
  }

  /** A string of digits is read into a number without loss exactly when the integer is a number; up to 2^53 each is. */
  lemma DigitsReadExactlyWhen(s: Schema, zero: bool, f: Field, n: int)
    requires f.convert && f.kind == Number
    ensures DecodedItem(s, zero, f, Str(Decimal(n))) == Num(n) <==> Magnitude(n) % Spacing(Magnitude(n)) == 0
    ensures Magnitude(n) <= EXACT ==> DecodedItem(s, zero, f, Str(Decimal(n))) == Num(n)
  {
    IntegerReadsBack(n);
    RoundedExactlyWhen(Magnitude(n));
    hide Rounded, Spacing, Decimal, IsInteger, IntegerOf;
  }

  /** Up to 2^53 a 64-bit integer is read the same from a number and from a string of digits, into either native type. */
  lemma SixtyFourBitFieldsReadBoth(s: Schema, zero: bool, f: Field, n: int)
    requires f.convert && Magnitude(n) <= EXACT
    ensures f.kind == Number ==> DecodedItem(s, zero, f, Str(Decimal(n))) == DecodedItem(s, zero, f, Num(n)) == Num(n)
    ensures f.kind == Text ==>
      DecodedItem(s, zero, f, Str(Decimal(n))) == DecodedItem(s, zero, f, Num(n)) == Str(Decimal(n))
  {
    if f.kind == Number { DigitsReadExactlyWhen(s, zero, f, n); }
  }

  /** A decoded value is decoded to itself, unless it is true in a field of booleans. */
  lemma DecodingTwice(s: Schema, zero: bool, f: Field, v: Val)
    requires ItemOk(s, f.kind, v)
    ensures DecodedItem(s, zero, f, v) == v <==> !(f.kind == Boolean && v == Bool(true))
  {
  }
}
