/**
 * What javascript/phonenumbernormalizer/js/json.js prints: the text of a value, as UTF-16 code units.
 */
module JsonTexts {
  /** A UTF-16 code unit. */
  type Unit = x: nat | x < 0x10000
  type Text = seq<Unit>

  type Digit = d: nat | d < 10

  function Ascii(s: string): Text {
    seq(|s|, i requires 0 <= i < |s| => if s[i] as int < 0x80 then s[i] as int else 0)
  }

  // ----- values -----

  /**
   * A finite number, as ECMAScript writes it: a sign, the whole part, the fraction if there is
   * one, and the exponent if there is one.
   */
  datatype Decimal = Decimal(negative: bool, whole: seq<Digit>, fraction: seq<Digit>, exponent: seq<Digit>, exponentNegative: bool)

  predicate IsDecimal(n: Decimal) {
    && n.whole != [] && (n.whole[0] == 0 ==> |n.whole| == 1)
    && (n.exponent == [] ==> !n.exponentNegative)
  }

  type Number = n: Decimal | IsDecimal(n) witness Decimal(false, [0], [], [], false)

  datatype Property = Property(key: Text, value: Value)

  datatype Value = Undefined | Null | Boolean(b: bool) | Finite(n: Number) | NonFinite | String(s: Text)
                 | Array(items: seq<Value>) | Object(properties: seq<Property>) | Function

  // ----- strings -----

  const QUOTE: Unit := 0x22
  const BACKSLASH: Unit := 0x5c

  /** charsToReplace_: wide unless regular expressions cannot match characters beyond one byte. */
  predicate Replaced(wide: bool, c: Unit) {
    c == QUOTE || c == BACKSLASH || c < 0x20 || 0x7f <= c <= (if wide then 0xffff else 0xff)
  }

  function Hex(d: nat): (h: Unit)
    requires d < 16
    ensures 0x30 <= h <= 0x39 || 0x61 <= h <= 0x66
  {
    if d < 10 then 0x30 + d else 0x61 + (d - 10)
  }

  /** A backslash, a u, and exactly four hexadecimal digits. */
  function UnicodeEscape(c: Unit): (t: Text)
    ensures |t| == 6 && t[0] == BACKSLASH && t[1] == 0x75
  {
    [BACKSLASH, 0x75, Hex(c / 4096), Hex(c / 256 % 16), Hex(c / 16 % 16), Hex(c % 16)]
  }

  /** The letter of a two-character escape. */
  function ShortEscape(c: Unit): Unit {
    match c
    case 0x22 => 0x22
    case 0x5c => 0x5c
    case 0x08 => 0x62
    case 0x0c => 0x66
    case 0x0a => 0x6e
    case 0x0d => 0x72
    case 0x09 => 0x74
    case _ => 0
  }

  function Escape(c: Unit): Text {
    if ShortEscape(c) != 0 then [BACKSLASH, ShortEscape(c)] else UnicodeEscape(c)
  }

  function Escaped(wide: bool, s: Text): Text {
    if s == [] then []
    else (if Replaced(wide, s[0]) then Escape(s[0]) else [s[0]]) + Escaped(wide, s[1..])
  }

  function Quoted(wide: bool, s: Text): Text {
    [QUOTE] + Escaped(wide, s) + [QUOTE]
  }

  // ----- numbers -----

  function Digits(ds: seq<Digit>): (t: Text)
    ensures |t| == |ds| && forall i :: 0 <= i < |t| ==> t[i] == 0x30 + ds[i] as int
  {
    seq(|ds|, i requires 0 <= i < |ds| => 0x30 + ds[i] as int)
  }

  function FractionText(n: Decimal): Text {
    if n.fraction == [] then [] else [0x2e] + Digits(n.fraction)
  }

  function ExponentText(n: Decimal): Text {
    if n.exponent == [] then [] else [0x65, if n.exponentNegative then 0x2d else 0x2b] + Digits(n.exponent)
  }

  function NumberText(n: Decimal): Text {
    (if n.negative then [0x2d] else []) + Digits(n.whole) + FractionText(n) + ExponentText(n)
  }

  // ----- values -----

  function Literal(v: Value): Text
    requires v.Undefined? || v.Null? || v.NonFinite? || v.Boolean?
  {
    if v.Boolean? then Ascii(if v.b then "true" else "false") else Ascii("null")
  }

  /** serialize_; a function prints nothing. */
  function Print(wide: bool, v: Value): Text
    decreases v, 1
  {
    match v
    case Undefined => Literal(v)
    case Null => Literal(v)
    case NonFinite => Literal(v)
    case Boolean(_) => Literal(v)
    case Finite(n) => NumberText(n)
    case String(s) => Quoted(wide, s)
    case Array(items) => [0x5b] + PrintItems(wide, [], items) + [0x5d]
    case Object(properties) => [0x7b] + PrintProperties(wide, [], properties) + [0x7d]
    case Function => []
  }

  /** What serializeArray prints from some item on, before which a separator comes. */
  function PrintItems(wide: bool, sep: Text, items: seq<Value>): Text
    decreases items, 0
  {
    if items == [] then [] else sep + Print(wide, items[0]) + PrintItems(wide, [0x2c], items[1..])
  }

  /** What serializeObject_ prints from some property on; properties that are functions are skipped. */
  function PrintProperties(wide: bool, sep: Text, properties: seq<Property>): Text
    decreases properties, 0
  {
    if properties == [] then []
    else if properties[0].value.Function? then PrintProperties(wide, sep, properties[1..])
    else
      sep + Quoted(wide, properties[0].key) + [0x3a] + Print(wide, properties[0].value)
      + PrintProperties(wide, [0x2c], properties[1..])
  }

  // ----- what is printed -----

  /** Printable ASCII, or beyond one byte where those characters are not matched. */
  predicate Plain(wide: bool, t: Text) {
    forall i :: 0 <= i < |t| ==> 0x20 <= t[i] <= 0x7e || (!wide && t[i] >= 0x100)
  }

  lemma {:induction false} EscapedIsPlain(wide: bool, s: Text)
    ensures Plain(wide, Escaped(wide, s))
  {
    if s != [] { EscapedIsPlain(wide, s[1..]); }
  }

  lemma PlainTogether(wide: bool, a: Text, b: Text)
    requires Plain(wide, a) && Plain(wide, b)
    ensures Plain(wide, a + b)
  {
  }

  lemma NumberIsPlain(wide: bool, n: Decimal)
    ensures Plain(wide, NumberText(n))
  {
    PlainTogether(wide, if n.negative then [0x2d] else [], Digits(n.whole));
    PlainTogether(wide, (if n.negative then [0x2d] else []) + Digits(n.whole), FractionText(n));
    PlainTogether(wide, (if n.negative then [0x2d] else []) + Digits(n.whole) + FractionText(n), ExponentText(n));
  }

  /** The output holds printable ASCII only (where regular expressions match every character). */
  lemma {:induction false} PrintIsPlain(wide: bool, v: Value)
    ensures Plain(wide, Print(wide, v))
    decreases v, 1
  {
    match v
    case Finite(n) => NumberIsPlain(wide, n);
    case String(s) => EscapedIsPlain(wide, s);
    case Array(items) =>
      ItemsArePlain(wide, [], items);
      PlainTogether(wide, [0x5b], PrintItems(wide, [], items));
      PlainTogether(wide, [0x5b] + PrintItems(wide, [], items), [0x5d]);
    case Object(properties) =>
      PropertiesArePlain(wide, [], properties);
      PlainTogether(wide, [0x7b], PrintProperties(wide, [], properties));
      PlainTogether(wide, [0x7b] + PrintProperties(wide, [], properties), [0x7d]);
    case _ => assert Ascii("true") == [0x74, 0x72, 0x75, 0x65] && Ascii("false") == [0x66, 0x61, 0x6c, 0x73, 0x65];
      assert Ascii("null") == [0x6e, 0x75, 0x6c, 0x6c];
  }

  lemma {:induction false} ItemsArePlain(wide: bool, sep: Text, items: seq<Value>)
    requires Plain(wide, sep)
    ensures Plain(wide, PrintItems(wide, sep, items))
    decreases items, 0
  {
    if items != [] {
      PrintIsPlain(wide, items[0]);
      ItemsArePlain(wide, [0x2c], items[1..]);
      PlainTogether(wide, sep, Print(wide, items[0]));
      PlainTogether(wide, sep + Print(wide, items[0]), PrintItems(wide, [0x2c], items[1..]));
    }
  }

  lemma {:induction false} PropertiesArePlain(wide: bool, sep: Text, properties: seq<Property>)
    requires Plain(wide, sep)
    ensures Plain(wide, PrintProperties(wide, sep, properties))
    decreases properties, 0
  {
    if properties != [] {
      if properties[0].value.Function? {
        PropertiesArePlain(wide, sep, properties[1..]);
      } else {
        var key, text := Quoted(wide, properties[0].key), Print(wide, properties[0].value);
        EscapedIsPlain(wide, properties[0].key);
        PrintIsPlain(wide, properties[0].value);
        PropertiesArePlain(wide, [0x2c], properties[1..]);
        PlainTogether(wide, sep, key);
        PlainTogether(wide, sep + key + [0x3a], text);
        PlainTogether(wide, sep + key + [0x3a] + text, PrintProperties(wide, [0x2c], properties[1..]));
      }
    }
  }
}
