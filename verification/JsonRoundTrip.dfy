/**
 * Reading back what json.js prints: the reference parser returns the value itself, with undefined
 * and non-finite numbers as null, exactly when no function stands at the top or in an array.
 */
module JsonRoundTrip {
  import opened JsonTexts
  import opened JsonGrammar

  // ----- what a printed value should be read back as -----

  /** Nothing is printed of these properties. */
  predicate NonePrinted(properties: seq<Property>) {
    properties != [] ==> properties[0].value.Function? && NonePrinted(properties[1..])
  }

  /** Undefined, non-finite numbers and functions are null; properties that are functions are absent. */
  function Meaning(v: Value): (m: Value)
    decreases v, 1
  {
    match v
    case Undefined => Null
    case NonFinite => Null
    case Function => Null
    case Array(items) => Array(Meanings(items))
    case Object(properties) => Object(PropertyMeanings(properties))
    case _ => v
  }

  function Meanings(items: seq<Value>): (ms: seq<Value>)
    ensures |ms| == |items|
    decreases items, 0
  {
    if items == [] then [] else [Meaning(items[0])] + Meanings(items[1..])
  }

  function PropertyMeanings(properties: seq<Property>): seq<Property>
    decreases properties, 0
  {
    if properties == [] then []
    else if properties[0].value.Function? then PropertyMeanings(properties[1..])
    else [Property(properties[0].key, Meaning(properties[0].value))] + PropertyMeanings(properties[1..])
  }

  /** No function at the top, nor as an item of an array. */
  predicate Printable(v: Value)
    decreases v, 1
  {
    match v
    case Function => false
    case Array(items) => AllPrintable(items)
    case Object(properties) => PropertiesPrintable(properties)
    case _ => true
  }

  predicate AllPrintable(items: seq<Value>)
    decreases items, 0
  {
    items != [] ==> Printable(items[0]) && AllPrintable(items[1..])
  }

  predicate PropertiesPrintable(properties: seq<Property>)
    decreases properties, 0
  {
    properties != [] ==>
      (properties[0].value.Function? || Printable(properties[0].value)) && PropertiesPrintable(properties[1..])
  }

  lemma Regroup(a: Text, b: Text, c: Text, d: Text, e: Text)
    ensures (a + b) + c + d == a + (b + c + d)
    ensures (a + b + c + d) + e == a + (b + (c + (d + e)))
    ensures (a + b) + c + d + e == a + (b + c + d + e)
  {
  }

  // ----- strings -----

  lemma CharReads(wide: bool, c: Unit, r: Text)
    ensures ParseChar((if Replaced(wide, c) then Escape(c) else [c]) + r) == Ok(c, r)
    ensures !StartsWith((if Replaced(wide, c) then Escape(c) else [c]) + r, QUOTE)
  {
    if Replaced(wide, c) {
      var s := Escape(c) + r;
      if ShortEscape(c) != 0 {
        assert s[2..] == r;
      } else {
        assert s[6..] == r;
        HexReads(c);
        assert s[2] == Hex(c / 4096) && s[3] == Hex(c / 256 % 16) && s[4] == Hex(c / 16 % 16) && s[5] == Hex(c % 16);
      }
    } else {
      assert ([c] + r)[1..] == r;
    }
  }

  lemma HexReads(c: Unit)
    ensures 4096 * HexValue(Hex(c / 4096)) + 256 * HexValue(Hex(c / 256 % 16)) + 16 * HexValue(Hex(c / 16 % 16)) + HexValue(Hex(c % 16)) == c
  {
    hide Hex, HexValue;
    assert c == 16 * (c / 16) + c % 16;
    assert c / 16 == 16 * (c / 256) + c / 16 % 16;
    assert c / 256 == 16 * (c / 4096) + c / 256 % 16;
    DigitReads(c / 4096);
    DigitReads(c / 256 % 16);
    DigitReads(c / 16 % 16);
    DigitReads(c % 16);
  }

  lemma DigitReads(d: nat)
    requires d < 16
    ensures IsHex(Hex(d)) && HexValue(Hex(d)) == d
  {
  }

  lemma OneCharRead(c: Text, rest: Text, first: Unit, s: Text, r: Text)
    requires ParseChar(c + rest) == Ok(first, rest) && !StartsWith(c + rest, QUOTE) && ParseString(rest) == Ok(s, r)
    ensures ParseString(c + rest) == Ok([first] + s, r)
  {
  }

  lemma {:induction false} StringReads(wide: bool, s: Text, r: Text)
    ensures ParseString(Escaped(wide, s) + [QUOTE] + r) == Ok(s, r)
  {
    if s == [] {
      assert (Escaped(wide, s) + [QUOTE] + r)[1..] == r;
    } else {
      var c := if Replaced(wide, s[0]) then Escape(s[0]) else [s[0]];
      var rest := Escaped(wide, s[1..]) + [QUOTE] + r;
      CharReads(wide, s[0], rest);
      StringReads(wide, s[1..], r);
      Regroup(c, Escaped(wide, s[1..]), [QUOTE], r, []);
      assert Escaped(wide, s) + [QUOTE] + r == c + rest;
      OneCharRead(c, rest, s[0], s[1..], r);
      assert [s[0]] + s[1..] == s;
    }
  }

  // ----- numbers -----

  /** Where the text of a value ends: at the end of the text, or before what follows it in an array or an object. */
  predicate Delimited(r: Text) {
    r == [] || r[0] == 0x2c || r[0] == 0x5d || r[0] == 0x7d
  }

  lemma TakeOne(d: Digit, t: Text, ds: seq<Digit>, r: Text)
    requires TakeDigits(t) == (ds, r)
    ensures TakeDigits([0x30 + d as int] + t) == ([d] + ds, r)
  {
    var s: Text := [0x30 + d as int] + t;
    assert s[1..] == t && IsDigit(s[0]) && s[0] - 0x30 == d;
    assert TakeDigits(s).0 == [s[0] - 0x30] + TakeDigits(s[1..]).0;
  }

  lemma TakeNone(r: Text)
    requires r == [] || !IsDigit(r[0])
    ensures TakeDigits(r) == ([], r)
  {
  }

  lemma {:induction false} DigitsRead(ds: seq<Digit>, r: Text)
    requires r == [] || !IsDigit(r[0])
    ensures TakeDigits(Digits(ds) + r) == (ds, r)
  {
    hide TakeDigits;
    if ds == [] {
      assert Digits(ds) + r == r;
      TakeNone(r);
    } else {
      DigitsRead(ds[1..], r);
      TakeOne(ds[0], Digits(ds[1..]) + r, ds[1..], r);
      assert Digits(ds) + r == [0x30 + ds[0] as int] + (Digits(ds[1..]) + r);
      assert [ds[0]] + ds[1..] == ds;
    }
  }

  lemma WholeReads(n: Number, r: Text)
    requires r == [] || !IsDigit(r[0])
    ensures ParseWhole(Digits(n.whole) + r) == Ok(n.whole, r)
  {
    DigitsRead(n.whole, r);
    assert (Digits(n.whole) + r)[0] == 0x30 + n.whole[0] as int;
    if n.whole[0] == 0 {
      assert n.whole == [0];
      assert (Digits(n.whole) + r)[1..] == r;
    }
  }

  lemma FractionReads(n: Number, r: Text)
    requires r == [] || (!IsDigit(r[0]) && r[0] != 0x2e)
    ensures ParseFraction(FractionText(n) + r) == Ok(n.fraction, r)
  {
    if n.fraction == [] {
      assert FractionText(n) + r == r;
    } else {
      DigitsRead(n.fraction, r);
      assert (FractionText(n) + r)[1..] == Digits(n.fraction) + r;
    }
  }

  lemma ExponentReads(n: Number, r: Text)
    requires Delimited(r)
    ensures ParseExponent(ExponentText(n) + r) == Ok((n.exponentNegative, n.exponent), r)
  {
    if n.exponent == [] {
      assert ExponentText(n) + r == r;
    } else {
      DigitsRead(n.exponent, r);
      var s := ExponentText(n) + r;
      assert s[2..] == Digits(n.exponent) + r;
      assert s[1..][0] == if n.exponentNegative then 0x2d else 0x2b;
    }
  }

  lemma PartsRead(negative: bool, w: Text, f: Text, e: Text, n: Number, r: Text)
    requires negative == n.negative && w != [] && IsDigit(w[0])
    requires ParseWhole(w) == Ok(n.whole, f) && ParseFraction(f) == Ok(n.fraction, e)
    requires ParseExponent(e) == Ok((n.exponentNegative, n.exponent), r)
    ensures ParseNumber((if negative then [0x2d] else []) + w) == Ok(n, r)
  {
    assert negative ==> ([0x2d] + w)[1..] == w;
    assert !negative ==> [] + w == w;
  }

  lemma NumberReads(n: Number, r: Text)
    requires Delimited(r)
    ensures ParseNumber(NumberText(n) + r) == Ok(n, r)
    ensures NumberText(n) != [] && (NumberText(n)[0] == 0x2d || IsDigit(NumberText(n)[0]))
  {
    var e := ExponentText(n) + r;
    var f := FractionText(n) + e;
    var w := Digits(n.whole) + f;
    ExponentReads(n, r);
    FractionReads(n, e);
    WholeReads(n, f);
    PartsRead(n.negative, w, f, e, n, r);
    hide ParseNumber, ParseWhole, ParseFraction, ParseExponent, FractionText, ExponentText;
    var sign: Text := if n.negative then [0x2d] else [];
    Regroup(sign, Digits(n.whole), FractionText(n), ExponentText(n), r);
  }

  lemma NumberValueReads(s: Text, n: Number, r: Text)
    requires s != [] && (s[0] == 0x2d || IsDigit(s[0])) && ParseNumber(s) == Ok(n, r)
    ensures ParseValue(s) == Ok(Finite(n), r)
  {
  }

  // ----- values -----

  /** How the text of a value may begin. */
  predicate Begins(t: Text) {
    t != [] && !IsSpace(t[0]) && t[0] != 0x5d && t[0] != 0x7d && t[0] != 0x2c
  }

  lemma LiteralReads(v: Value, r: Text)
    requires v.Undefined? || v.Null? || v.NonFinite? || v.Boolean?
    ensures ParseValue(Literal(v) + r) == Ok(Meaning(v), r) && Begins(Literal(v))
  {
    var s := Literal(v) + r;
    assert Ascii("true") == [0x74, 0x72, 0x75, 0x65] && Ascii("false") == [0x66, 0x61, 0x6c, 0x73, 0x65];
    assert Ascii("null") == [0x6e, 0x75, 0x6c, 0x6c];
    assert s[|Literal(v)|..] == r && Literal(v) <= s;
  }

  lemma {:induction false} PrintBegins(wide: bool, v: Value)
    requires !v.Function?
    ensures Begins(Print(wide, v))
  {
    match v
    case Finite(n) => NumberReads(n, []);
    case String(s) =>
    case Array(items) =>
    case Object(properties) =>
    case _ => LiteralReads(v, []);
  }

  lemma BracketReads(t: Text, ms: seq<Value>, r: Text)
    requires Begins(t) && ParseItems(t) == Ok(ms, r)
    ensures ParseValue([0x5b] + t) == Ok(Array(ms), r)
  {
    assert ([0x5b] + t)[1..] == t;
  }

  lemma BraceReads(t: Text, ps: seq<Property>, r: Text)
    requires StartsWith(t, QUOTE) && ParseProperties(t) == Ok(ps, r)
    ensures ParseValue([0x7b] + t) == Ok(Object(ps), r)
  {
    assert ([0x7b] + t)[1..] == t;
  }

  lemma EmptyReads(r: Text)
    ensures ParseValue([0x5b] + ([0x5d] + r)) == Ok(Array([]), r)
    ensures ParseValue([0x7b] + ([0x7d] + r)) == Ok(Object([]), r)
  {
    var t, u := [0x5d] + r, [0x7d] + r;
    assert ([0x5b] + t)[1..] == t && t[1..] == r;
    assert ([0x7b] + u)[1..] == u && u[1..] == r;
  }

  lemma QuoteReads(t: Text, s: Text, r: Text)
    requires ParseString(t) == Ok(s, r)
    ensures ParseValue([QUOTE] + t) == Ok(String(s), r)
  {
    assert ([QUOTE] + t)[1..] == t;
  }

  lemma LastItemReads(s: Text, v: Value, r: Text)
    requires ParseValue(s) == Ok(v, [0x5d] + r)
    ensures ParseItems(s) == Ok([v], r)
  {
    assert ([0x5d] + r)[1..] == r;
  }

  lemma NextItemReads(s: Text, v: Value, t: Text, ms: seq<Value>, r: Text)
    requires ParseValue(s) == Ok(v, [0x2c] + t) && Begins(t) && ParseItems(t) == Ok(ms, r)
    ensures ParseItems(s) == Ok([v] + ms, r)
  {
    assert ([0x2c] + t)[1..] == t;
  }

  lemma LastPropertyReads(s: Text, p: Property, r: Text)
    requires ParseProperty(s) == Ok(p, [0x7d] + r)
    ensures ParseProperties(s) == Ok([p], r)
  {
    assert ([0x7d] + r)[1..] == r;
  }

  lemma NextPropertyReads(s: Text, p: Property, t: Text, ps: seq<Property>, r: Text)
    requires ParseProperty(s) == Ok(p, [0x2c] + t) && StartsWith(t, QUOTE) && ParseProperties(t) == Ok(ps, r)
    ensures ParseProperties(s) == Ok([p] + ps, r)
  {
    assert ([0x2c] + t)[1..] == t;
  }

  lemma NoItems(wide: bool)
    ensures PrintItems(wide, [], []) == []
  {
  }

  /** A value in the midst of a text is read back, and nothing after it. */
  lemma {:induction false} ValueReads(wide: bool, v: Value, r: Text)
    requires Printable(v) && Delimited(r)
    ensures ParseValue(Print(wide, v) + r) == Ok(Meaning(v), r)
    decreases v, 1
  {
    var s := Print(wide, v) + r;
    hide ParseValue, ParseItems, ParseProperties, ParseString, ParseNumber, PrintItems, PrintProperties, Escaped, NumberText;
    match v
    case Finite(n) =>
      NumberReads(n, r);
      NumberValueReads(s, n, r);
    case String(t) =>
      StringReads(wide, t, r);
      QuoteReads(Escaped(wide, t) + [QUOTE] + r, t, r);
      assert s == [QUOTE] + (Escaped(wide, t) + [QUOTE] + r);
    case Array(items) =>
      assert s == [0x5b] + (PrintItems(wide, [], items) + [0x5d] + r);
      if items == [] {
        assert PrintItems(wide, [], items) == [] by { NoItems(wide); }
        assert s == [0x5b] + ([0x5d] + r);
        EmptyReads(r);
      } else {
        ItemsRead(wide, items, r);
        BracketReads(PrintItems(wide, [], items) + [0x5d] + r, Meanings(items), r);
      }
    case Object(properties) =>
      assert s == [0x7b] + (PrintProperties(wide, [], properties) + [0x7d] + r);
      if NonePrinted(properties) {
        NothingPrinted(wide, [], properties);
        assert s == [0x7b] + ([0x7d] + r);
        EmptyReads(r);
      } else {
        PropertiesRead(wide, properties, r);
        BraceReads(PrintProperties(wide, [], properties) + [0x7d] + r, PropertyMeanings(properties), r);
      }
    case _ => LiteralReads(v, r);
  }

  lemma SecondItemFirst(wide: bool, items: seq<Value>)
    requires items != []
    ensures PrintItems(wide, [0x2c], items) == [0x2c] + PrintItems(wide, [], items)
  {
    var text, more := Print(wide, items[0]), PrintItems(wide, [0x2c], items[1..]);
    assert PrintItems(wide, [0x2c], items) == [0x2c] + text + more;
    assert PrintItems(wide, [], items) == [] + text + more;
    hide Print, PrintItems;
    EmptyFront([0x2c], text, more);
  }

  lemma EmptyFront(a: Text, b: Text, c: Text)
    ensures a + b + c == a + ([] + b + c)
  {
    assert [] + b == b;
  }

  lemma ItemsSplit(wide: bool, items: seq<Value>, r: Text)
    requires items != []
    ensures
      var rest := if |items| == 1 then [0x5d] + r else [0x2c] + (PrintItems(wide, [], items[1..]) + [0x5d] + r);
      PrintItems(wide, [], items) + [0x5d] + r == Print(wide, items[0]) + rest
  {
    var text, more := Print(wide, items[0]), PrintItems(wide, [0x2c], items[1..]);
    assert PrintItems(wide, [], items) == text + more by { assert [] + text + more == text + more; }
    Regroup(text, more, [0x5d], r, []);
    if |items| == 1 {
      assert more == [] && more + [0x5d] + r == [0x5d] + r;
    } else {
      SecondItemFirst(wide, items[1..]);
      Regroup([0x2c], PrintItems(wide, [], items[1..]), [0x5d], r, []);
    }
  }

  lemma {:induction false} ItemsRead(wide: bool, items: seq<Value>, r: Text)
    requires items != [] && AllPrintable(items)
    ensures
      var t := PrintItems(wide, [], items) + [0x5d] + r;
      Begins(t) && ParseItems(t) == Ok(Meanings(items), r)
    decreases items, 0
  {
    var t := PrintItems(wide, [], items) + [0x5d] + r;
    ItemsSplit(wide, items, r);
    PrintBegins(wide, items[0]);
    if |items| == 1 {
      ValueReads(wide, items[0], [0x5d] + r);
      LastItemReads(t, Meaning(items[0]), r);
      assert Meanings(items[1..]) == [] && Meanings(items) == [Meaning(items[0])];
    } else {
      var more := PrintItems(wide, [], items[1..]) + [0x5d] + r;
      ValueReads(wide, items[0], [0x2c] + more);
      ItemsRead(wide, items[1..], r);
      NextItemReads(t, Meaning(items[0]), more, Meanings(items[1..]), r);
    }
  }

  // ----- objects -----

  lemma {:induction false} NothingPrinted(wide: bool, sep: Text, properties: seq<Property>)
    requires NonePrinted(properties)
    ensures PrintProperties(wide, sep, properties) == [] && PropertyMeanings(properties) == []
    decreases |properties|
  {
    if properties != [] { NothingPrinted(wide, sep, properties[1..]); }
  }

  lemma {:induction false} SeparatorFirst(wide: bool, properties: seq<Property>)
    requires !NonePrinted(properties)
    ensures PrintProperties(wide, [0x2c], properties) == [0x2c] + PrintProperties(wide, [], properties)
    decreases |properties|
  {
    var p := properties[0];
    if p.value.Function? {
      SeparatorFirst(wide, properties[1..]);
    } else {
      var key, text, more := Quoted(wide, p.key), Print(wide, p.value), PrintProperties(wide, [0x2c], properties[1..]);
      Regroup([0x2c], key, [0x3a], text, more);
      assert [] + key == key;
    }
  }

  /** What follows the first property that is printed. */
  function After(wide: bool, properties: seq<Property>, r: Text): Text {
    if NonePrinted(properties) then [0x7d] + r else [0x2c] + (PrintProperties(wide, [], properties) + [0x7d] + r)
  }

  function PropertyText(wide: bool, p: Property, r: Text): Text {
    [QUOTE] + (Escaped(wide, p.key) + [QUOTE] + ([0x3a] + (Print(wide, p.value) + r)))
  }

  lemma RegroupProperty(q: Text, e: Text, c: Text, t: Text, m: Text, b: Text, r: Text)
    ensures ([] + (q + e + q) + c + t + m) + b + r == q + (e + q + (c + (t + (m + b + r))))
  {
  }

  lemma PropertiesSplit(wide: bool, properties: seq<Property>, r: Text)
    requires properties != [] && !properties[0].value.Function?
    ensures PrintProperties(wide, [], properties) + [0x7d] + r == PropertyText(wide, properties[0], After(wide, properties[1..], r))
  {
    var p, more := properties[0], PrintProperties(wide, [0x2c], properties[1..]);
    assert more + [0x7d] + r == After(wide, properties[1..], r) by {
      if NonePrinted(properties[1..]) {
        NothingPrinted(wide, [0x2c], properties[1..]);
      } else {
        SeparatorFirst(wide, properties[1..]);
        Regroup([0x2c], PrintProperties(wide, [], properties[1..]), [0x7d], r, []);
      }
    }
    RegroupProperty([QUOTE], Escaped(wide, p.key), [0x3a], Print(wide, p.value), more, [0x7d], r);
  }

  lemma {:induction false} PropertyReads(wide: bool, p: Property, r: Text)
    requires Printable(p.value) && Delimited(r)
    ensures ParseProperty(PropertyText(wide, p, r)) == Ok(Property(p.key, Meaning(p.value)), r)
    decreases p.value, 2
  {
    var text := Print(wide, p.value) + r;
    var s := PropertyText(wide, p, r);
    assert s[1..] == Escaped(wide, p.key) + [QUOTE] + ([0x3a] + text);
    StringReads(wide, p.key, [0x3a] + text);
    assert ([0x3a] + text)[1..] == text;
    PrintBegins(wide, p.value);
    ValueReads(wide, p.value, r);
  }

  lemma {:induction false} PropertiesRead(wide: bool, properties: seq<Property>, r: Text)
    requires !NonePrinted(properties) && PropertiesPrintable(properties)
    ensures
      var t := PrintProperties(wide, [], properties) + [0x7d] + r;
      StartsWith(t, QUOTE) && ParseProperties(t) == Ok(PropertyMeanings(properties), r)
    decreases properties, 0
  {
    if properties[0].value.Function? {
      PropertiesRead(wide, properties[1..], r);
    } else {
      var t := PrintProperties(wide, [], properties) + [0x7d] + r;
      var p := Property(properties[0].key, Meaning(properties[0].value));
      PropertiesSplit(wide, properties, r);
      PropertyReads(wide, properties[0], After(wide, properties[1..], r));
      if NonePrinted(properties[1..]) {
        NothingPrinted(wide, [], properties[1..]);
        LastPropertyReads(t, p, r);
        assert PropertyMeanings(properties) == [p];
      } else {
        PropertiesRead(wide, properties[1..], r);
        var more := PrintProperties(wide, [], properties[1..]) + [0x7d] + r;
        NextPropertyReads(t, p, more, PropertyMeanings(properties[1..]), r);
      }
    }
  }

  // ----- functions in the wrong places -----

  /** The parser finds something else than the meaning of the value, or nothing. */
  predicate Misread(wide: bool, v: Value, r: Text) {
    var p := ParseValue(Print(wide, v) + r);
    p.Ok? ==> p.value != Meaning(v)
  }

  lemma NoValueHere(t: Text)
    requires t == [] || t[0] == 0x2c || t[0] == 0x5d || t[0] == 0x7d
    ensures ParseValue(t).Fail? && ParseItems(t).Fail?
  {
  }

  lemma FirstItemCounts(s: Text)
    ensures ParseItems(s).Ok? ==> ParseValue(s).Ok? && ParseItems(s).value != [] && ParseItems(s).value[0] == ParseValue(s).value
  {
  }

  lemma OtherItemsCount(s: Text, v: Value, t: Text)
    requires ParseValue(s) == Ok(v, [0x2c] + t) && t != [] && !IsSpace(t[0])
    ensures ParseItems(s).Ok? ==> ParseItems(t).Ok? && ParseItems(s).value == [v] + ParseItems(t).value
  {
    assert ([0x2c] + t)[1..] == t;
  }

  lemma BracketCounts(t: Text)
    requires t != [] && !IsSpace(t[0]) && t[0] != 0x5d
    ensures ParseValue([0x5b] + t).Ok? ==> ParseItems(t).Ok? && ParseValue([0x5b] + t).value == Array(ParseItems(t).value)
  {
    assert ([0x5b] + t)[1..] == t;
  }

  lemma FirstPropertyCounts(s: Text)
    ensures ParseProperties(s).Ok? ==>
      ParseProperty(s).Ok? && ParseProperties(s).value != [] && ParseProperties(s).value[0] == ParseProperty(s).value
  {
  }

  lemma OtherPropertiesCount(s: Text, p: Property, t: Text)
    requires ParseProperty(s) == Ok(p, [0x2c] + t) && StartsWith(t, QUOTE)
    ensures ParseProperties(s).Ok? ==> ParseProperties(t).Ok? && ParseProperties(s).value == [p] + ParseProperties(t).value
  {
    assert ([0x2c] + t)[1..] == t;
  }

  lemma BraceCounts(t: Text)
    requires StartsWith(t, QUOTE)
    ensures ParseValue([0x7b] + t).Ok? ==> ParseProperties(t).Ok? && ParseValue([0x7b] + t).value == Object(ParseProperties(t).value)
  {
    assert ([0x7b] + t)[1..] == t;
  }

  lemma {:induction false} UnprintableMisreads(wide: bool, v: Value, r: Text)
    requires !Printable(v) && Delimited(r)
    ensures Misread(wide, v, r)
    decreases v, 1
  {
    hide ParseValue, ParseItems, ParseProperties, PrintItems, PrintProperties;
    var s := Print(wide, v) + r;
    match v
    case Function =>
      assert s == r;
      NoValueHere(r);
    case Array(items) =>
      var t := PrintItems(wide, [], items) + [0x5d] + r;
      assert s == [0x5b] + t;
      if items[0].Function? {
        FunctionFirst(wide, items, r);
        if |items| == 1 {
          EmptyReads(r);
        } else {
          BracketCounts(t);
          NoValueHere(t);
        }
      } else {
        ItemsMisread(wide, items, r);
        BracketCounts(t);
      }
    case Object(properties) =>
      var t := PrintProperties(wide, [], properties) + [0x7d] + r;
      assert s == [0x7b] + t;
      PropertiesMisread(wide, properties, r);
      BraceCounts(t);
  }

  /** A function that comes first leaves nothing before the separator or the bracket. */
  lemma FunctionFirst(wide: bool, items: seq<Value>, r: Text)
    requires items != [] && items[0].Function?
    ensures
      var t := PrintItems(wide, [], items) + [0x5d] + r;
      if |items| == 1 then t == [0x5d] + r else t != [] && t[0] == 0x2c
    ensures Meanings(items) != []
  {
    ItemsSplit(wide, items, r);
    assert Print(wide, items[0]) == [];
  }

  lemma TailsDiffer<T>(x: T, a: seq<T>, b: seq<T>)
    requires a != b
    ensures [x] + a != [x] + b
  {
    if |a| == |b| {
      var i :| 0 <= i < |a| && a[i] != b[i];
      assert ([x] + a)[i + 1] != ([x] + b)[i + 1];
    }
  }

  lemma {:induction false} ItemsMisread(wide: bool, items: seq<Value>, r: Text)
    requires items != [] && !AllPrintable(items) && !items[0].Function?
    ensures
      var t := PrintItems(wide, [], items) + [0x5d] + r;
      Begins(t) && (ParseItems(t).Ok? ==> ParseItems(t).value != Meanings(items))
    decreases items, 0
  {
    var t := PrintItems(wide, [], items) + [0x5d] + r;
    var more := PrintItems(wide, [], items[1..]) + [0x5d] + r;
    var rest := if |items| == 1 then [0x5d] + r else [0x2c] + more;
    ItemsSplit(wide, items, r);
    PrintBegins(wide, items[0]);
    hide ParseValue, ParseItems, PrintItems, Print, Meaning;
    if !Printable(items[0]) {
      UnprintableMisreads(wide, items[0], rest);
      FirstItemCounts(t);
    } else {
      ValueReads(wide, items[0], rest);
      if items[1].Function? {
        FunctionFirst(wide, items[1..], r);
        NoValueHere(more);
      } else {
        ItemsMisread(wide, items[1..], r);
      }
      OtherItemsCount(t, Meaning(items[0]), more);
      if ParseItems(t).Ok? { TailsDiffer(Meaning(items[0]), ParseItems(more).value, Meanings(items[1..])); }
    }
  }

  lemma {:induction false} PropertyMisreads(wide: bool, p: Property, r: Text)
    requires !Printable(p.value) && !p.value.Function? && Delimited(r)
    ensures var q := ParseProperty(PropertyText(wide, p, r)); q.Ok? ==> q.value.value != Meaning(p.value)
    decreases p.value, 2
  {
    var text := Print(wide, p.value) + r;
    var s := PropertyText(wide, p, r);
    assert s[1..] == Escaped(wide, p.key) + [QUOTE] + ([0x3a] + text);
    StringReads(wide, p.key, [0x3a] + text);
    assert ([0x3a] + text)[1..] == text;
    PrintBegins(wide, p.value);
    UnprintableMisreads(wide, p.value, r);
  }

  lemma {:induction false} PropertiesMisread(wide: bool, properties: seq<Property>, r: Text)
    requires !PropertiesPrintable(properties)
    ensures
      var t := PrintProperties(wide, [], properties) + [0x7d] + r;
      StartsWith(t, QUOTE) && (ParseProperties(t).Ok? ==> ParseProperties(t).value != PropertyMeanings(properties))
    decreases properties, 0
  {
    if properties[0].value.Function? {
      PropertiesMisread(wide, properties[1..], r);
    } else {
      var t := PrintProperties(wide, [], properties) + [0x7d] + r;
      var rest := After(wide, properties[1..], r);
      var p := Property(properties[0].key, Meaning(properties[0].value));
      PropertiesSplit(wide, properties, r);
      assert PropertyMeanings(properties) == [p] + PropertyMeanings(properties[1..]);
      if !Printable(properties[0].value) {
        hide ParseProperties, PrintProperties, ParseProperty, PropertyMeanings;
        PropertyMisreads(wide, properties[0], rest);
        FirstPropertyCounts(t);
      } else {
        var more := PrintProperties(wide, [], properties[1..]) + [0x7d] + r;
        SomePrinted(properties[1..]);
        assert rest == [0x2c] + more;
        PropertiesMisread(wide, properties[1..], r);
        hide ParseProperties, PrintProperties, ParseProperty, PropertyMeanings, PropertyText, After;
        PropertyReads(wide, properties[0], rest);
        OtherPropertiesCount(t, p, more);
        if ParseProperties(t).Ok? { TailsDiffer(p, ParseProperties(more).value, PropertyMeanings(properties[1..])); }
      }
    }
  }

  lemma {:induction false} SomePrinted(properties: seq<Property>)
    requires !PropertiesPrintable(properties)
    ensures !NonePrinted(properties)
    decreases |properties|
  {
    if properties[0].value.Function? { SomePrinted(properties[1..]); }
  }

  /**
   * Printing is invertible: the reference parser returns the printed value, with undefined and
   * non-finite numbers as null and without the properties that are functions, exactly when no
   * function is the value itself or an item of an array.
   */
  lemma ReadsBackExactlyWhen(wide: bool, v: Value)
    ensures Parse(Print(wide, v)) == Ok(Meaning(v), []) <==> Printable(v)
  {
    var t := Print(wide, v);
    assert t + [] == t;
    if Printable(v) {
      ValueReads(wide, v, []);
      PrintBegins(wide, v);
    } else {
      UnprintableMisreads(wide, v, []);
      if v.Function? { NoValueHere([]); } else { PrintBegins(wide, v); }
    }
  }
}
