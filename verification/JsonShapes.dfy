/**
 * How the JSON printer writes: each character of a string on its own, escaped only where it has to be,
 * and no space outside the strings.
 */
module JsonShapes {
  import opened JsonTexts

  // ----- strings -----

  ghost predicate LowerHex(u: Unit, d: nat) {
    (d < 10 && u == 0x30 + d) || (10 <= d < 16 && u == 0x61 + d - 10)
  }

  /** Backslash, u, and four hexadecimal digits in lower case that denote the unit. */
  ghost predicate Spells(t: Text, c: Unit) {
    && |t| == 6 && t[0] == 0x5c && t[1] == 0x75
    && exists a: nat, b: nat, d: nat, e: nat ::
         && LowerHex(t[2], a) && LowerHex(t[3], b) && LowerHex(t[4], d) && LowerHex(t[5], e)
         && c == 4096 * a + 256 * b + 16 * d + e
  }

  /**
   * Printable ASCII stands for itself, but for the quote and the backslash; those and five control
   * characters have escapes of two characters; everything else is spelled out, except characters
   * beyond one byte where regular expressions cannot match them.
   */
  ghost predicate UnitShape(wide: bool, c: Unit, t: Text) {
    if c == 0x22 || c == 0x5c then t == [0x5c, c]
    else if c == 0x08 then t == [0x5c, 0x62]
    else if c == 0x09 then t == [0x5c, 0x74]
    else if c == 0x0a then t == [0x5c, 0x6e]
    else if c == 0x0c then t == [0x5c, 0x66]
    else if c == 0x0d then t == [0x5c, 0x72]
    else if 0x20 <= c <= 0x7e || (c >= 0x100 && !wide) then t == [c]
    else Spells(t, c)
  }

  lemma Sixteenths(c: nat)
    ensures c / 256 == c / 16 / 16 && c / 4096 == c / 256 / 16
  {
  }

  lemma HexDigitsOf(c: Unit)
    ensures c == 4096 * (c / 4096) + 256 * (c / 256 % 16) + 16 * (c / 16 % 16) + c % 16
  {
    var p, q := c / 16, c / 256;
    Sixteenths(c);
    assert c == 16 * p + c % 16 && p == 16 * q + p % 16 && q == 16 * (c / 4096) + q % 16;
  }

  lemma EscapeSpells(c: Unit)
    ensures Spells(UnicodeEscape(c), c)
  {
    var a, b, d, e := c / 4096, c / 256 % 16, c / 16 % 16, c % 16;
    HexDigitsOf(c);
    assert c < 0x10000 && a < 16;
    var t := UnicodeEscape(c);
    DigitIsHex(a);
    DigitIsHex(b);
    DigitIsHex(d);
    DigitIsHex(e);
    hide Hex, LowerHex;
    assert LowerHex(t[2], a) && LowerHex(t[3], b) && LowerHex(t[4], d) && LowerHex(t[5], e);
  }

  lemma DigitIsHex(d: nat)
    requires d < 16
    ensures LowerHex(Hex(d), d)
  {
  }

  lemma UnitIsWritten(wide: bool, c: Unit)
    ensures UnitShape(wide, c, Escaped(wide, [c]))
  {
    EscapeSpells(c);
    assert [c][1..] == [] && Escaped(wide, []) == [];
    assert Escaped(wide, [c]) == if Replaced(wide, c) then Escape(c) else [c];
    hide UnicodeEscape, Spells;
  }

  /** The text of a string is the texts of its characters, one after the other. */
  lemma {:induction false} EscapedTogether(wide: bool, s: Text, t: Text)
    ensures Escaped(wide, s + t) == Escaped(wide, s) + Escaped(wide, t)
    decreases |s|
  {
    if s == [] {
      assert s + t == t;
    } else {
      EscapedTogether(wide, s[1..], t);
      assert (s + t)[1..] == s[1..] + t;
    }
  }

  ghost function Joined(texts: seq<Text>): Text {
    if texts == [] then [] else Joined(texts[..|texts| - 1]) + texts[|texts| - 1]
  }

  /** A string is printed between quotes, character by character, each in its own shape. */
  lemma {:induction false} StringIsWritten(wide: bool, s: Text) returns (texts: seq<Text>)
    ensures |texts| == |s| && forall i :: 0 <= i < |s| ==> UnitShape(wide, s[i], texts[i])
    ensures Print(wide, String(s)) == [0x22] + Joined(texts) + [0x22]
  {
    hide UnitShape;
    if s == [] {
      texts := [];
    } else {
      var front, c := s[..|s| - 1], s[|s| - 1];
      var before := StringIsWritten(wide, front);
      assert Escaped(wide, front) == Joined(before) by {
        var q := Print(wide, String(front));
        assert q[1..|q| - 1] == Escaped(wide, front);
      }
      UnitIsWritten(wide, c);
      assert s == front + [c];
      EscapedTogether(wide, front, [c]);
      texts := before + [Escaped(wide, [c])];
      assert texts[..|texts| - 1] == before;
    }
  }

  // ----- spaces -----

  ghost function Spaces(t: Text): nat {
    if t == [] then 0 else (if t[0] == 0x20 then 1 else 0) + Spaces(t[1..])
  }

  lemma {:induction false} SpacesTogether(a: Text, b: Text)
    ensures Spaces(a + b) == Spaces(a) + Spaces(b)
    decreases |a|
  {
    if a == [] {
      assert a + b == b;
    } else {
      SpacesTogether(a[1..], b);
      assert (a + b)[1..] == a[1..] + b;
    }
  }

  lemma {:induction false} NoSpaces(t: Text)
    requires forall i :: 0 <= i < |t| ==> t[i] != 0x20
    ensures Spaces(t) == 0
  {
    if t != [] { NoSpaces(t[1..]); }
  }

  /** The spaces in the strings of a value that are printed. */
  ghost function SpacesIn(v: Value): nat
    decreases v, 1
  {
    match v
    case String(s) => Spaces(s)
    case Array(items) => SpacesInItems(items)
    case Object(properties) => SpacesInProperties(properties)
    case _ => 0
  }

  ghost function SpacesInItems(items: seq<Value>): nat
    decreases items, 0
  {
    if items == [] then 0 else SpacesIn(items[0]) + SpacesInItems(items[1..])
  }

  ghost function SpacesInProperties(properties: seq<Property>): nat
    decreases properties, 0
  {
    if properties == [] then 0
    else
      (if properties[0].value.Function? then 0 else Spaces(properties[0].key) + SpacesIn(properties[0].value))
      + SpacesInProperties(properties[1..])
  }

  lemma {:induction false} EscapedSpaces(wide: bool, s: Text)
    ensures Spaces(Escaped(wide, s)) == Spaces(s)
  {
    if s != [] {
      EscapedSpaces(wide, s[1..]);
      var t := if Replaced(wide, s[0]) then Escape(s[0]) else [s[0]];
      SpacesTogether(t, Escaped(wide, s[1..]));
      if Replaced(wide, s[0]) {
        NoSpaces(t);
      } else {
        assert t[1..] == [] && Spaces(t) == if s[0] == 0x20 then 1 else 0;
      }
    }
  }

  lemma QuotedSpaces(wide: bool, s: Text)
    ensures Spaces(Quoted(wide, s)) == Spaces(s)
  {
    EscapedSpaces(wide, s);
    NoSpaces([QUOTE]);
    SpacesTogether([QUOTE], Escaped(wide, s));
    SpacesTogether([QUOTE] + Escaped(wide, s), [QUOTE]);
  }

  lemma NumberSpaces(n: Decimal)
    ensures Spaces(NumberText(n)) == 0
  {
    var sign: Text := if n.negative then [0x2d] else [];
    NoSpaces(sign);
    NoSpaces(Digits(n.whole));
    NoSpaces(FractionText(n));
    NoSpaces(ExponentText(n));
    SpacesTogether(sign, Digits(n.whole));
    SpacesTogether(sign + Digits(n.whole), FractionText(n));
    SpacesTogether(sign + Digits(n.whole) + FractionText(n), ExponentText(n));
    hide Spaces, Digits, FractionText, ExponentText;
  }

  /** The printer adds no space: there are as many in the text as in the strings that are printed. */
  lemma {:induction false} PrintAddsNoSpace(wide: bool, v: Value)
    ensures Spaces(Print(wide, v)) == SpacesIn(v)
    decreases v, 1
  {
    match v
    case Finite(n) => NumberSpaces(n);
    case String(s) => QuotedSpaces(wide, s);
    case Array(items) =>
      ItemsAddNoSpace(wide, [], items);
      Enclosed(0x5b, PrintItems(wide, [], items), 0x5d);
    case Object(properties) =>
      PropertiesAddNoSpace(wide, [], properties);
      Enclosed(0x7b, PrintProperties(wide, [], properties), 0x7d);
    case _ => NoSpaces(Print(wide, v));
  }

  lemma Enclosed(open: Unit, t: Text, close: Unit)
    requires open != 0x20 && close != 0x20
    ensures Spaces([open] + t + [close]) == Spaces(t)
  {
    NoSpaces([open]);
    NoSpaces([close]);
    SpacesTogether([open], t);
    SpacesTogether([open] + t, [close]);
  }

  lemma {:induction false} ItemsAddNoSpace(wide: bool, sep: Text, items: seq<Value>)
    requires Spaces(sep) == 0
    ensures Spaces(PrintItems(wide, sep, items)) == SpacesInItems(items)
    decreases items, 0
  {
    if items != [] {
      NoSpaces([0x2c]);
      PrintAddsNoSpace(wide, items[0]);
      ItemsAddNoSpace(wide, [0x2c], items[1..]);
      SpacesTogether(sep, Print(wide, items[0]));
      SpacesTogether(sep + Print(wide, items[0]), PrintItems(wide, [0x2c], items[1..]));
    }
  }

  lemma {:induction false} PropertiesAddNoSpace(wide: bool, sep: Text, properties: seq<Property>)
    requires Spaces(sep) == 0
    ensures Spaces(PrintProperties(wide, sep, properties)) == SpacesInProperties(properties)
    decreases properties, 0
  {
    if properties != [] {
      if properties[0].value.Function? {
        PropertiesAddNoSpace(wide, sep, properties[1..]);
      } else {
        var key, text := Quoted(wide, properties[0].key), Print(wide, properties[0].value);
        NoSpaces([0x2c]);
        NoSpaces([0x3a]);
        QuotedSpaces(wide, properties[0].key);
        PrintAddsNoSpace(wide, properties[0].value);
        PropertiesAddNoSpace(wide, [0x2c], properties[1..]);
        SpacesTogether(sep, key);
        SpacesTogether(sep + key, [0x3a]);
        SpacesTogether(sep + key + [0x3a], text);
        SpacesTogether(sep + key + [0x3a] + text, PrintProperties(wide, [0x2c], properties[1..]));
      }
    }
  }
}
