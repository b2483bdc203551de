/** A reference parser for the grammar of RFC 8259: sections 2 to 5 and 7, and the integers of section 6. */
module JsonParser {
  import opened Bytes
  import opened JsonText

  datatype Parsed<+T> = Fail | Done(value: T, rest: seq<byte>)

  // ---- white space ----

  predicate IsSpace(b: byte)
  {
    b in {0x20, 0x09, 0x0a, 0x0d}
  }

  function SkipSpace(s: seq<byte>): (t: seq<byte>)
    ensures |t| <= |s| && (t != [] ==> !IsSpace(t[0]))
  {
    if s != [] && IsSpace(s[0]) then SkipSpace(s[1..]) else s
  }

  // ---- strings ----

  function HexValue(b: byte): (v: int)
    ensures -1 <= v < 16
  {
    if 0x30 <= b <= 0x39 then b - 0x30
    else if 0x61 <= b <= 0x66 then b - 0x61 + 10
    else if 0x41 <= b <= 0x46 then b - 0x41 + 10
    else -1
  }

  /** Four hexadecimal digits. */
  function ParseHex4(s: seq<byte>): (r: Parsed<nat>)
    ensures r.Done? ==> r.value < 0x10000 && |r.rest| < |s|
  {
    if |s| < 4 then Fail else
    var a, b, c, d := HexValue(s[0]), HexValue(s[1]), HexValue(s[2]), HexValue(s[3]);
    if a < 0 || b < 0 || c < 0 || d < 0 then Fail
    else Done(((a * 16 + b) * 16 + c) * 16 + d, s[4..])
  }

  /** The UTF-8 form of a code point. */
  function Utf8(code: nat): (bytes: seq<byte>)
    requires code < 0x110000
    ensures bytes != []
  {
    if code < 0x80 then [code]
    else if code < 0x800 then [0xc0 + code / 0x40, 0x80 + code % 0x40]
    else if code < 0x10000 then [0xe0 + code / 0x1000, 0x80 + code / 0x40 % 0x40, 0x80 + code % 0x40]
    else [0xf0 + code / 0x40000, 0x80 + code / 0x1000 % 0x40, 0x80 + code / 0x40 % 0x40, 0x80 + code % 0x40]
  }

  /** What follows `\u`: one escape, or the two of a surrogate pair. */
  function ParseUnicode(s: seq<byte>): (r: Parsed<seq<byte>>)
    ensures r.Done? ==> r.value != [] && |r.rest| < |s|
  {
    match ParseHex4(s)
    case Fail => Fail
    case Done(code, rest) =>
      if code < 0xd800 || 0xe000 <= code then Done(Utf8(code), rest)
      else if 0xdc00 <= code || |rest| < 2 || rest[0] != 0x5c || rest[1] != 0x75 then Fail
      else match ParseHex4(rest[2..])
        case Fail => Fail
        case Done(low, rest') =>
          if 0xdc00 <= low < 0xe000 then Done(Utf8(0x10000 + (code - 0xd800) * 0x400 + (low - 0xdc00)), rest') else Fail
  }

  /** What follows a backslash. */
  function ParseEscape(s: seq<byte>): (r: Parsed<seq<byte>>)
    ensures r.Done? ==> r.value != [] && |r.rest| < |s|
  {
    if s == [] then Fail
    else if s[0] == 0x75 then ParseUnicode(s[1..])
    else if s[0] in {0x22, 0x5c, 0x2f} then Done([s[0]], s[1..])
    else if s[0] == 0x62 then Done([0x08], s[1..])
    else if s[0] == 0x66 then Done([0x0c], s[1..])
    else if s[0] == 0x6e then Done([0x0a], s[1..])
    else if s[0] == 0x72 then Done([0x0d], s[1..])
    else if s[0] == 0x74 then Done([0x09], s[1..])
    else Fail
  }

  /** One character of a string, escaped or not. */
  function ParseChar(s: seq<byte>): (r: Parsed<seq<byte>>)
    ensures r.Done? ==> r.value != [] && |r.rest| < |s|
  {
    if s == [] || s[0] == 0x22 || s[0] < 0x20 then Fail
    else if s[0] == 0x5c then ParseEscape(s[1..])
    else Done([s[0]], s[1..])
  }

  /** The characters up to and including the closing quotation mark. */
  function ParseChars(s: seq<byte>): (r: Parsed<seq<byte>>)
    ensures r.Done? ==> |r.rest| < |s|
    decreases |s|
  {
    if s != [] && s[0] == 0x22 then Done([], s[1..]) else
    match ParseChar(s)
    case Fail => Fail
    case Done(c, rest) =>
      match ParseChars(rest)
      case Fail => Fail
      case Done(cs, rest') => Done(c + cs, rest')
  }

  // ---- numbers ----

  predicate IsDigit(b: byte)
  {
    0x30 <= b <= 0x39
  }

  function ParseDigits(s: seq<byte>, n: nat): (r: Parsed<nat>)
    ensures r.Done? && |r.rest| <= |s| && (s != [] && IsDigit(s[0]) ==> |r.rest| < |s|)
    decreases |s|
  {
    if s != [] && IsDigit(s[0]) then ParseDigits(s[1..], 10 * n + (s[0] - 0x30)) else Done(n, s)
  }

  /** A zero alone, or digits that do not start with zero. */
  function ParseNatural(s: seq<byte>): (r: Parsed<nat>)
    ensures r.Done? ==> |r.rest| < |s|
  {
    if s == [] || !IsDigit(s[0]) then Fail
    else if s[0] == 0x30 then Done(0, s[1..])
    else ParseDigits(s, 0)
  }

  function ParseNumber(s: seq<byte>): (r: Parsed<Json>)
    ensures r.Done? ==> |r.rest| < |s|
  {
    if s != [] && s[0] == 0x2d then
      match ParseNatural(s[1..])
      case Fail => Fail
      case Done(n, rest) => Done(JNumber(0 - n), rest)
    else
      match ParseNatural(s)
      case Fail => Fail
      case Done(n, rest) => Done(JNumber(n), rest)
  }

  // ---- values ----

  function ParseLiteral(s: seq<byte>, text: seq<byte>, j: Json): (r: Parsed<Json>)
    requires text != []
    ensures r.Done? ==> |r.rest| < |s|
  {
    if text <= s then Done(j, s[|text|..]) else Fail
  }

  function ParseValue(s: seq<byte>): (r: Parsed<Json>)
    ensures r.Done? ==> |r.rest| < |s|
    decreases |s|, 1
  {
    var t := SkipSpace(s);
    if t == [] then Fail
    else if t[0] == 0x22 then
      match ParseChars(t[1..])
      case Fail => Fail
      case Done(cs, rest) => Done(JString(cs), rest)
    else if t[0] == 0x5b then
      match ParseItems(t[1..])
      case Fail => Fail
      case Done(items, rest) => Done(JArray(items), rest)
    else if t[0] == 0x7b then
      match ParseMembers(t[1..])
      case Fail => Fail
      case Done(members, rest) => Done(JObject(members), rest)
    else if t[0] == 0x6e then ParseLiteral(t, [0x6e, 0x75, 0x6c, 0x6c], JNull)
    else if t[0] == 0x74 then ParseLiteral(t, [0x74, 0x72, 0x75, 0x65], JBool(true))
    else if t[0] == 0x66 then ParseLiteral(t, [0x66, 0x61, 0x6c, 0x73, 0x65], JBool(false))
    else ParseNumber(t)
  }

  /** After the opening bracket. */
  function ParseItems(s: seq<byte>): (r: Parsed<seq<Json>>)
    ensures r.Done? ==> |r.rest| < |s|
    decreases |s|, 3
  {
    var t := SkipSpace(s);
    if t != [] && t[0] == 0x5d then Done([], t[1..]) else ParseItemAndMore(s)
  }

  function ParseItemAndMore(s: seq<byte>): (r: Parsed<seq<Json>>)
    ensures r.Done? ==> |r.rest| < |s|
    decreases |s|, 2
  {
    match ParseValue(s)
    case Fail => Fail
    case Done(item, rest) =>
      match ParseMoreItems(rest)
      case Fail => Fail
      case Done(items, rest') => Done([item] + items, rest')
  }

  /** After an element: a comma and another element, or the closing bracket. */
  function ParseMoreItems(s: seq<byte>): (r: Parsed<seq<Json>>)
    ensures r.Done? ==> |r.rest| < |s|
    decreases |s|, 3
  {
    var t := SkipSpace(s);
    if t == [] then Fail
    else if t[0] == 0x5d then Done([], t[1..])
    else if t[0] == 0x2c then ParseItemAndMore(t[1..])
    else Fail
  }

  function ParseMember(s: seq<byte>): (r: Parsed<Member>)
    ensures r.Done? ==> |r.rest| < |s|
    decreases |s|, 2
  {
    var t := SkipSpace(s);
    if t == [] || t[0] != 0x22 then Fail else
    match ParseChars(t[1..])
    case Fail => Fail
    case Done(name, rest) => ParseMemberValue(name, rest)
  }

  /** After the name: a colon and the value. */
  function ParseMemberValue(name: seq<byte>, s: seq<byte>): (r: Parsed<Member>)
    ensures r.Done? ==> |r.rest| < |s| && r.value.name == name
    decreases |s|, 2
  {
    var t := SkipSpace(s);
    if t == [] || t[0] != 0x3a then Fail else
    match ParseValue(t[1..])
    case Fail => Fail
    case Done(value, rest) => Done(Member(name, value), rest)
  }

  function ParseMembers(s: seq<byte>): (r: Parsed<seq<Member>>)
    ensures r.Done? ==> |r.rest| < |s|
    decreases |s|, 4
  {
    var t := SkipSpace(s);
    if t != [] && t[0] == 0x7d then Done([], t[1..]) else ParseMemberAndMore(s)
  }

  function ParseMemberAndMore(s: seq<byte>): (r: Parsed<seq<Member>>)
    ensures r.Done? ==> |r.rest| < |s|
    decreases |s|, 3
  {
    match ParseMember(s)
    case Fail => Fail
    case Done(m, rest) =>
      match ParseMoreMembers(rest)
      case Fail => Fail
      case Done(members, rest') => Done([m] + members, rest')
  }

  function ParseMoreMembers(s: seq<byte>): (r: Parsed<seq<Member>>)
    ensures r.Done? ==> |r.rest| < |s|
    decreases |s|, 4
  {
    var t := SkipSpace(s);
    if t == [] then Fail
    else if t[0] == 0x7d then Done([], t[1..])
    else if t[0] == 0x2c then ParseMemberAndMore(t[1..])
    else Fail
  }

  /** A whole text: one value and nothing but white space after it. */
  function Parse(s: seq<byte>): (r: Parsed<Json>)
  {
    match ParseValue(s)
    case Fail => Fail
    case Done(j, rest) => if SkipSpace(rest) == [] then Done(j, []) else Fail
  }
}
