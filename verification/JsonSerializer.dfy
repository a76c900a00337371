/**
 * goog.json.Serializer as an object: it pushes pieces onto a shared array and looks the escapes of
 * characters up in a cache that all serializers share.
 */
module JsonSerializer {
  import opened JsArrays
  import opened JsonTexts

  /** sb.join('') */
  function Joined(pieces: seq<Text>): Text {
    if pieces == [] then [] else Joined(pieces[..|pieces| - 1]) + pieces[|pieces| - 1]
  }

  lemma JoinedPush(pieces: seq<Text>, piece: Text)
    ensures Joined(pieces + [piece]) == Joined(pieces) + piece
  {
    assert (pieces + [piece])[..|pieces|] == pieces;
  }

  /** Moving one printed piece from what is still to be printed to what has been. */
  lemma Moved(start: Text, done: Text, sep: Text, piece: Text, rest: Text)
    ensures done + (sep + piece + rest) == (done + sep + piece) + rest
    ensures start + done + sep + piece == start + (done + sep + piece)
  {
  }

  lemma ItemsStep(wide: bool, sep: Text, items: seq<Value>, i: nat)
    requires i < |items|
    ensures PrintItems(wide, sep, items[i..]) == sep + Print(wide, items[i]) + PrintItems(wide, [0x2c], items[i + 1..])
  {
    assert items[i..][1..] == items[i + 1..];
  }

  function PropertyPiece(wide: bool, p: Property): Text {
    Quoted(wide, p.key) + [0x3a] + Print(wide, p.value)
  }

  lemma PropertiesStep(wide: bool, sep: Text, properties: seq<Property>, i: nat)
    requires i < |properties|
    ensures PrintProperties(wide, sep, properties[i..]) ==
      if properties[i].value.Function? then PrintProperties(wide, sep, properties[i + 1..])
      else sep + PropertyPiece(wide, properties[i]) + PrintProperties(wide, [0x2c], properties[i + 1..])
  {
    assert properties[i..][1..] == properties[i + 1..];
    var key, text, rest := Quoted(wide, properties[i].key), Print(wide, properties[i].value), PrintProperties(wide, [0x2c], properties[i + 1..]);
    assert sep + key + [0x3a] + text + rest == sep + (key + [0x3a] + text) + rest;
  }

  lemma EscapedStep(wide: bool, s: Text, i: nat)
    requires i < |s|
    ensures Escaped(wide, s[i..]) == (if Replaced(wide, s[i]) then Escape(s[i]) else [s[i]]) + Escaped(wide, s[i + 1..])
  {
    assert s[i..][1..] == s[i + 1..];
  }

  method PushPiece(sb: JsArray<Text>, piece: Text)
    modifies sb
    ensures Joined(sb.items) == Joined(old(sb.items)) + piece
  {
    JoinedPush(sb.items, piece);
    sb.Push(piece);
  }

  // ----- escaping one character -----

  /** Number.toString(16): no leading zeros. */
  function ToHex(n: nat): (t: Text)
    ensures t != []
  {
    if n < 16 then [Hex(n)] else ToHex(n / 16) + [Hex(n % 16)]
  }

  lemma FourDigits(c: Unit)
    ensures c < 16 ==> ToHex(c) == [Hex(c)]
    ensures 16 <= c < 256 ==> ToHex(c) == [Hex(c / 16), Hex(c % 16)]
    ensures 256 <= c < 4096 ==> ToHex(c) == [Hex(c / 256), Hex(c / 16 % 16), Hex(c % 16)]
    ensures 4096 <= c ==> ToHex(c) == [Hex(c / 4096), Hex(c / 256 % 16), Hex(c / 16 % 16), Hex(c % 16)]
  {
    assert c / 16 / 16 == c / 256 && c / 256 / 16 == c / 4096;
    assert c >= 16 ==> ToHex(c) == ToHex(c / 16) + [Hex(c % 16)];
    assert c >= 256 ==> ToHex(c / 16) == ToHex(c / 256) + [Hex(c / 16 % 16)];
    assert c >= 4096 ==> ToHex(c / 256) == ToHex(c / 4096) + [Hex(c / 256 % 16)];
  }

  /** The zeros that fill a hexadecimal number up to four digits. */
  function Zeros(c: Unit): Text {
    if c < 16 then Ascii("000") else if c < 256 then Ascii("00") else if c < 4096 then Ascii("0") else []
  }

  lemma PaddedIsEscape(c: Unit)
    ensures Ascii("\\u") + Zeros(c) + ToHex(c) == UnicodeEscape(c)
  {
    FourDigits(c);
    assert Hex(0) == 0x30;
    assert Ascii("\\u") == [BACKSLASH, 0x75] && Ascii("000") == [0x30, 0x30, 0x30];
    assert Ascii("00") == [0x30, 0x30] && Ascii("0") == [0x30];
    assert c < 16 ==> c / 16 % 16 == 0 && c % 16 == c;
    assert c < 256 ==> c / 256 % 16 == 0 && c / 4096 == 0 && c / 16 % 16 == c / 16;
    assert c < 4096 ==> c / 4096 == 0 && c / 256 % 16 == c / 256;
  }

  /** charToJsonCharCache_ as it starts out; the slash is there but is never replaced. */
  const INITIAL_CACHE: map<Unit, Text> := map[
    0x22 := [BACKSLASH, 0x22], 0x5c := [BACKSLASH, 0x5c], 0x2f := [BACKSLASH, 0x2f], 0x08 := [BACKSLASH, 0x62],
    0x0c := [BACKSLASH, 0x66], 0x0a := [BACKSLASH, 0x6e], 0x0d := [BACKSLASH, 0x72], 0x09 := [BACKSLASH, 0x74],
    0x0b := Ascii("\\u000b")]

  class CharCache {
    var entries: map<Unit, Text>

    /** Every entry that is ever looked up holds what computing it would give. */
    ghost predicate Valid()
      reads this
    {
      && INITIAL_CACHE.Keys <= entries.Keys
      && forall c :: c in entries && c != 0x2f ==> entries[c] == Escape(c)
    }

    constructor ()
      ensures Valid()
    {
      entries := INITIAL_CACHE;
      PaddedIsEscape(0x0b);
      assert Ascii("\\u000b") == [BACKSLASH, 0x75, 0x30, 0x30, 0x30, 0x62];
    }

    method Lookup(c: Unit) returns (t: Text)
      requires Valid() && c != 0x2f
      modifies this
      ensures Valid() && old(entries.Keys) <= entries.Keys
      ensures t == Escape(c)
    {
      if c in entries {
        return entries[c];
      }
      var rv := Ascii("\\u");
      if c < 16 {
        rv := rv + Ascii("000");
      } else if c < 256 {
        rv := rv + Ascii("00");
      } else if c < 4096 {
        rv := rv + Ascii("0");
      }
      t := rv + ToHex(c);
      assert t == Ascii("\\u") + Zeros(c) + ToHex(c);
      PaddedIsEscape(c);
      assert ShortEscape(c) == 0 by { assert ShortEscape(c) != 0 ==> c in INITIAL_CACHE; }
      entries := entries[c := t];
    }
  }

  class Serializer {
    const wide: bool
    const cache: CharCache

    constructor (wide: bool, cache: CharCache)
      ensures this.wide == wide && this.cache == cache
    {
      this.wide := wide;
      this.cache := cache;
    }

    method Serialize(v: Value) returns (text: Text)
      requires cache.Valid()
      modifies cache
      ensures cache.Valid()
      ensures text == Print(wide, v)
    {
      var sb := new JsArray<Text>([]);
      Serialize_(v, sb);
      text := Joined(sb.items);
    }

    method Serialize_(v: Value, sb: JsArray<Text>)
      requires cache.Valid()
      modifies cache, sb
      ensures cache.Valid()
      ensures Joined(sb.items) == Joined(old(sb.items)) + Print(wide, v)
      decreases v, 1
    {
      match v
      case String(s) => SerializeString(s, sb);
      case Finite(n) => PushPiece(sb, NumberText(n));
      case Array(items) => SerializeArray(items, sb);
      case Object(properties) => SerializeObject(properties, sb);
      case Function =>
      case _ => PushPiece(sb, Literal(v));
    }

    /** The replacement of every character that needs it, between quotes. */
    method SerializeString(s: Text, sb: JsArray<Text>)
      requires cache.Valid()
      modifies cache, sb
      ensures cache.Valid()
      ensures Joined(sb.items) == Joined(old(sb.items)) + Quoted(wide, s)
    {
      var replaced := Replace(s);
      PushPiece(sb, [QUOTE]);
      PushPiece(sb, replaced);
      PushPiece(sb, [QUOTE]);
      var before := Joined(old(sb.items));
      assert before + [QUOTE] + replaced + [QUOTE] == before + ([QUOTE] + replaced + [QUOTE]);
    }

    method Replace(s: Text) returns (replaced: Text)
      requires cache.Valid()
      modifies cache
      ensures cache.Valid()
      ensures replaced == Escaped(wide, s)
    {
      replaced := [];
      hide Escaped, Escape;
      var i := 0;
      while i < |s|
        invariant 0 <= i <= |s|
        invariant cache.Valid()
        invariant replaced + Escaped(wide, s[i..]) == Escaped(wide, s)
      {
        EscapedStep(wide, s, i);
        ghost var rest := Escaped(wide, s[i + 1..]);
        var piece := [s[i]];
        if Replaced(wide, s[i]) {
          piece := cache.Lookup(s[i]);
        }
        assert replaced + (piece + rest) == (replaced + piece) + rest;
        replaced := replaced + piece;
        i := i + 1;
      }
      NothingEscaped(wide);
      assert s[i..] == [] && replaced + [] == replaced;
    }

    method SerializeArray(items: seq<Value>, sb: JsArray<Text>)
      requires cache.Valid()
      modifies cache, sb
      ensures cache.Valid()
      ensures Joined(sb.items) == Joined(old(sb.items)) + ([0x5b] + PrintItems(wide, [], items) + [0x5d])
      decreases items, 2
    {
      PushPiece(sb, [0x5b]);
      ghost var start, done: Text := Joined(sb.items), [];
      var sep: Text := [];
      var i := 0;
      hide Joined, PrintItems, Print;
      while i < |items|
        invariant 0 <= i <= |items|
        invariant cache.Valid()
        invariant Joined(sb.items) == start + done
        invariant done + PrintItems(wide, sep, items[i..]) == PrintItems(wide, [], items)
      {
        ItemsStep(wide, sep, items, i);
        Moved(start, done, sep, Print(wide, items[i]), PrintItems(wide, [0x2c], items[i + 1..]));
        PushPiece(sb, sep);
        Serialize_(items[i], sb);
        done := done + sep + Print(wide, items[i]);
        sep := [0x2c];
        i := i + 1;
      }
      NothingLeft(wide, sep);
      PushPiece(sb, [0x5d]);
      Enclosed(Joined(old(sb.items)), [0x5b], done, [0x5d]);
    }

    method SerializeObject(properties: seq<Property>, sb: JsArray<Text>)
      requires cache.Valid()
      modifies cache, sb
      ensures cache.Valid()
      ensures Joined(sb.items) == Joined(old(sb.items)) + ([0x7b] + PrintProperties(wide, [], properties) + [0x7d])
      decreases properties, 2
    {
      PushPiece(sb, [0x7b]);
      ghost var start, done: Text := Joined(sb.items), [];
      var sep: Text := [];
      var i := 0;
      hide Joined, PrintProperties, Print, PropertyPiece;
      while i < |properties|
        invariant 0 <= i <= |properties|
        invariant cache.Valid()
        invariant Joined(sb.items) == start + done
        invariant done + PrintProperties(wide, sep, properties[i..]) == PrintProperties(wide, [], properties)
      {
        PropertiesStep(wide, sep, properties, i);
        if !properties[i].value.Function? {
          Moved(start, done, sep, PropertyPiece(wide, properties[i]), PrintProperties(wide, [0x2c], properties[i + 1..]));
          PushPiece(sb, sep);
          SerializeProperty(properties[i], sb);
          done := done + sep + PropertyPiece(wide, properties[i]);
          sep := [0x2c];
        }
        i := i + 1;
      }
      NothingLeft(wide, sep);
      PushPiece(sb, [0x7d]);
      Enclosed(Joined(old(sb.items)), [0x7b], done, [0x7d]);
    }

    method SerializeProperty(p: Property, sb: JsArray<Text>)
      requires cache.Valid()
      modifies cache, sb
      ensures cache.Valid()
      ensures Joined(sb.items) == Joined(old(sb.items)) + PropertyPiece(wide, p)
      decreases p.value, 3
    {
      SerializeString(p.key, sb);
      PushPiece(sb, [0x3a]);
      Serialize_(p.value, sb);
      Enclosed(Joined(old(sb.items)), Quoted(wide, p.key), [0x3a], Print(wide, p.value));
    }
  }

  lemma NothingEscaped(wide: bool)
    ensures Escaped(wide, []) == []
  {
  }

  lemma NothingLeft(wide: bool, sep: Text)
    ensures PrintItems(wide, sep, []) == [] && PrintProperties(wide, sep, []) == []
  {
  }

  lemma Enclosed(before: Text, open: Text, inner: Text, close: Text)
    ensures before + open + inner + close == before + (open + inner + close)
  {
  }
}
