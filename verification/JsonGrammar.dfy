/**
 * A reference parser for JSON texts, sections 2 to 7 of RFC 8259, written to check what the
 * serializer prints against.
 */
module JsonGrammar {
  import opened JsonTexts

  datatype Parsed<T> = Ok(value: T, rest: Text) | Fail

  predicate IsSpace(c: Unit) {
    c == 0x20 || c == 0x09 || c == 0x0a || c == 0x0d
  }

  function SkipSpace(s: Text): (r: Text)
    ensures |r| <= |s|
  {
    if s != [] && IsSpace(s[0]) then SkipSpace(s[1..]) else s
  }

  predicate StartsWith(s: Text, c: Unit) {
    s != [] && s[0] == c
  }

  // ----- section 6: numbers -----

  predicate IsDigit(c: Unit) {
    0x30 <= c <= 0x39
  }

  function TakeDigits(s: Text): (r: (seq<Digit>, Text))
    ensures |r.0| + |r.1| == |s|
    ensures r.0 != [] ==> IsDigit(s[0]) && r.0[0] == s[0] - 0x30
  {
    if s == [] || !IsDigit(s[0]) then ([], s)
    else
      var r := TakeDigits(s[1..]);
      ([s[0] - 0x30] + r.0, r.1)
  }

  /** A single zero, or digits that do not begin with one. */
  function ParseWhole(s: Text): (r: Parsed<seq<Digit>>)
    ensures r.Ok? ==> r.value != [] && (r.value[0] == 0 ==> |r.value| == 1) && |r.rest| < |s|
  {
    if s == [] || !IsDigit(s[0]) then Fail
    else if s[0] == 0x30 then Ok([0], s[1..])
    else Ok(TakeDigits(s).0, TakeDigits(s).1)
  }

  function ParseFraction(s: Text): (r: Parsed<seq<Digit>>)
    ensures r.Ok? ==> |r.rest| <= |s|
  {
    if !StartsWith(s, 0x2e) then Ok([], s)
    else
      var r := TakeDigits(s[1..]);
      if r.0 == [] then Fail else Ok(r.0, r.1)
  }

  function ParseExponent(s: Text): (r: Parsed<(bool, seq<Digit>)>)
    ensures r.Ok? ==> |r.rest| <= |s| && (r.value.1 == [] ==> !r.value.0)
  {
    if !StartsWith(s, 0x65) && !StartsWith(s, 0x45) then Ok((false, []), s)
    else
      var signed := StartsWith(s[1..], 0x2d) || StartsWith(s[1..], 0x2b);
      var r := TakeDigits(if signed then s[2..] else s[1..]);
      if r.0 == [] then Fail else Ok((StartsWith(s[1..], 0x2d), r.0), r.1)
  }

  function ParseNumber(s: Text): (r: Parsed<Number>)
    ensures r.Ok? ==> |r.rest| < |s|
  {
    var negative := StartsWith(s, 0x2d);
    var whole := ParseWhole(if negative then s[1..] else s);
    if whole.Fail? then Fail
    else
      var fraction := ParseFraction(whole.rest);
      if fraction.Fail? then Fail
      else
        var exponent := ParseExponent(fraction.rest);
        if exponent.Fail? then Fail
        else
          var n: Number := Decimal(negative, whole.value, fraction.value, exponent.value.1, exponent.value.0);
          Ok(n, exponent.rest)
  }

  // ----- section 7: strings -----

  predicate IsHex(c: Unit) {
    0x30 <= c <= 0x39 || 0x41 <= c <= 0x46 || 0x61 <= c <= 0x66
  }

  function HexValue(c: Unit): (d: nat)
    requires IsHex(c)
    ensures d < 16
  {
    if c <= 0x39 then c - 0x30 else if c <= 0x46 then c - 0x41 + 10 else c - 0x61 + 10
  }

  /** The character of a two-character escape. */
  function Unescaped(c: Unit): Parsed<Unit> {
    match c
    case 0x22 => Ok(0x22, [])
    case 0x5c => Ok(0x5c, [])
    case 0x2f => Ok(0x2f, [])
    case 0x62 => Ok(0x08, [])
    case 0x66 => Ok(0x0c, [])
    case 0x6e => Ok(0x0a, [])
    case 0x72 => Ok(0x0d, [])
    case 0x74 => Ok(0x09, [])
    case _ => Fail
  }

  /** One character of a string: unescaped, or escaped by a letter or by four hexadecimal digits. */
  function ParseChar(s: Text): (r: Parsed<Unit>)
    ensures r.Ok? ==> |r.rest| < |s|
  {
    if s == [] || s[0] < 0x20 || s[0] == QUOTE then Fail
    else if s[0] != BACKSLASH then Ok(s[0], s[1..])
    else if |s| >= 6 && s[1] == 0x75 then
      if IsHex(s[2]) && IsHex(s[3]) && IsHex(s[4]) && IsHex(s[5]) then
        Ok(4096 * HexValue(s[2]) + 256 * HexValue(s[3]) + 16 * HexValue(s[4]) + HexValue(s[5]), s[6..])
      else Fail
    else if |s| >= 2 && Unescaped(s[1]).Ok? then Ok(Unescaped(s[1]).value, s[2..])
    else Fail
  }

  /** The rest of a string after its opening quote. */
  function ParseString(s: Text): (r: Parsed<Text>)
    ensures r.Ok? ==> |r.rest| < |s|
    decreases |s|
  {
    if StartsWith(s, QUOTE) then Ok([], s[1..])
    else
      var c := ParseChar(s);
      if c.Fail? then Fail
      else
        var more := ParseString(c.rest);
        if more.Fail? then Fail else Ok([c.value] + more.value, more.rest)
  }

  // ----- sections 3 to 5: values, objects, arrays -----

  function ParseValue(s: Text): (r: Parsed<Value>)
    ensures r.Ok? ==> |r.rest| < |s|
    decreases |s|, 0
  {
    if s == [] then Fail
    else if s[0] == 0x7b then
      var t := SkipSpace(s[1..]);
      if StartsWith(t, 0x7d) then Ok(Object([]), t[1..])
      else
        var r := ParseProperties(t);
        if r.Fail? then Fail else Ok(Object(r.value), r.rest)
    else if s[0] == 0x5b then
      var t := SkipSpace(s[1..]);
      if StartsWith(t, 0x5d) then Ok(Array([]), t[1..])
      else
        var r := ParseItems(t);
        if r.Fail? then Fail else Ok(Array(r.value), r.rest)
    else if s[0] == QUOTE then
      var r := ParseString(s[1..]);
      if r.Fail? then Fail else Ok(String(r.value), r.rest)
    else if s[0] == 0x2d || IsDigit(s[0]) then
      var r := ParseNumber(s);
      if r.Fail? then Fail else Ok(Finite(r.value), r.rest)
    else if Ascii("true") <= s then Ok(Boolean(true), s[4..])
    else if Ascii("false") <= s then Ok(Boolean(false), s[5..])
    else if Ascii("null") <= s then Ok(Null, s[4..])
    else Fail
  }

  /** The values of an array that has some, up to its closing bracket. */
  function ParseItems(s: Text): (r: Parsed<seq<Value>>)
    ensures r.Ok? ==> |r.rest| < |s|
    decreases |s|, 1
  {
    var first := ParseValue(s);
    if first.Fail? then Fail
    else
      var t := SkipSpace(first.rest);
      if StartsWith(t, 0x5d) then Ok([first.value], t[1..])
      else if StartsWith(t, 0x2c) then
        var more := ParseItems(SkipSpace(t[1..]));
        if more.Fail? then Fail else Ok([first.value] + more.value, more.rest)
      else Fail
  }

  function ParseProperty(s: Text): (r: Parsed<Property>)
    ensures r.Ok? ==> |r.rest| < |s|
    decreases |s|, 1
  {
    if !StartsWith(s, QUOTE) then Fail
    else
      var key := ParseString(s[1..]);
      if key.Fail? then Fail
      else
        var t := SkipSpace(key.rest);
        if !StartsWith(t, 0x3a) then Fail
        else
          var v := ParseValue(SkipSpace(t[1..]));
          if v.Fail? then Fail else Ok(Property(key.value, v.value), v.rest)
  }

  /** The members of an object that has some, up to its closing brace. */
  function ParseProperties(s: Text): (r: Parsed<seq<Property>>)
    ensures r.Ok? ==> |r.rest| < |s|
    decreases |s|, 2
  {
    var first := ParseProperty(s);
    if first.Fail? then Fail
    else
      var t := SkipSpace(first.rest);
      if StartsWith(t, 0x7d) then Ok([first.value], t[1..])
      else if StartsWith(t, 0x2c) then
        var more := ParseProperties(SkipSpace(t[1..]));
        if more.Fail? then Fail else Ok([first.value] + more.value, more.rest)
      else Fail
  }

  /** Section 2: a JSON text is a value between insignificant whitespace. */
  function Parse(s: Text): Parsed<Value> {
    var r := ParseValue(SkipSpace(s));
    if r.Ok? && SkipSpace(r.rest) == [] then Ok(r.value, []) else Fail
  }
}
