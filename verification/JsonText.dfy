/** The text the streaming writer produces for a JSON tree, byte by byte. */
module JsonText {
  import opened Bytes

  /** Strings are the bytes of their UTF-8 form; objects keep their members in order. */
  datatype Json =
    | JNull
    | JBool(b: bool)
    | JNumber(n: int)
    | JString(s: seq<byte>)
    | JArray(items: seq<Json>)
    | JObject(members: seq<Member>)

  datatype Member = Member(name: seq<byte>, value: Json)

  // ---- bytes with a meaning ----

  const QUOTE: byte := 0x22
  const BACKSLASH: byte := 0x5c
  const COMMA: byte := 0x2c
  const COLON: byte := 0x3a
  const MINUS: byte := 0x2d
  const ZERO: byte := 0x30
  const OPEN_BRACKET: byte := 0x5b
  const CLOSE_BRACKET: byte := 0x5d
  const OPEN_BRACE: byte := 0x7b
  const CLOSE_BRACE: byte := 0x7d

  const NULL: seq<byte> := [0x6e, 0x75, 0x6c, 0x6c]
  const TRUE: seq<byte> := [0x74, 0x72, 0x75, 0x65]
  const FALSE: seq<byte> := [0x66, 0x61, 0x6c, 0x73, 0x65]

  // ---- the table of control escapes ----

  function HexDigit(d: nat): (b: byte)
    requires d < 16
  {
    if d < 10 then ZERO + d else 0x61 + d - 10
  }

  /** `\u00` and two hexadecimal digits. */
  function UnicodeEscape(b: byte): (text: seq<byte>)
    ensures |text| == 6
  {
    [BACKSLASH, 0x75, ZERO, ZERO, HexDigit(b / 16), HexDigit(b % 16)]
  }

  /** The escapes of `n` bytes in a row. */
  function UnicodeEscapes(first: nat, n: nat): (text: seq<byte>)
    requires first + n <= 256
    ensures |text| == 6 * n
    ensures forall i :: 0 <= i < 6 * n ==> text[i] == UnicodeEscape(first + i / 6)[i % 6]
  {
    seq(6 * n, i requires 0 <= i < 6 * n => UnicodeEscape(first + i / 6)[i % 6])
  }

  /** The writer's table: full escapes, but two bytes each for backspace, tab, line feed and carriage return. */
  const CONTROL: seq<byte> :=
    UnicodeEscapes(0x00, 8)
    + [BACKSLASH, 0x62, BACKSLASH, 0x74, BACKSLASH, 0x6e]
    + UnicodeEscapes(0x0b, 2)
    + [BACKSLASH, 0x72]
    + UnicodeEscapes(0x0e, 18)

  /** What is written for a control byte that has no short escape: six bytes at six times its value. */
  function ControlText(b: byte): (text: seq<byte>)
    requires 6 * b + 6 <= |CONTROL|
  {
    CONTROL[6 * b..6 * b + 6]
  }

  lemma ControlTable()
    ensures |CONTROL| == 176
  {
  }

  /** The first eight entries are where the index looks for them. */
  lemma LowControls(b: byte)
    requires b <= 7
    ensures 6 * b + 6 <= |CONTROL|
    ensures ControlText(b) == UnicodeEscape(b)
  {
    ControlTable();
    var row := UnicodeEscapes(0, 8);
    assert CONTROL[..48] == row;
    forall j | 0 <= j < 6
      ensures ControlText(b)[j] == UnicodeEscape(b)[j]
    {
      assert ControlText(b)[j] == CONTROL[..48][6 * b + j];
      assert (6 * b + j) / 6 == b && (6 * b + j) % 6 == j;
    }
  }

  /** The entry for 0x0b is read as an escaped carriage return and half of another escape. */
  lemma VerticalTab()
    ensures 6 * 0x0b + 6 <= |CONTROL|
    ensures ControlText(0x0b) == [BACKSLASH, 0x72, BACKSLASH, 0x75, ZERO, ZERO]
  {
    var row := UnicodeEscapes(0x0e, 18);
    assert CONTROL[66..72] == [BACKSLASH, 0x72, row[0], row[1], row[2], row[3]];
  }

  /** From 0x0e on the slice is the last two digits of one entry and the first four bytes of the next. */
  lemma HighControls(b: byte)
    requires 0x0e <= b <= 0x1c
    ensures 6 * b + 6 <= |CONTROL|
    ensures ControlText(b) == [0x31, if b < 0x18 then b + 0x22 else b + 0x49, 0x5c, 0x75, 0x30, 0x30]
  {
    ControlTable();
    var text := HighText(b);
    forall k | 0 <= k < 6
      ensures CONTROL[6 * b + k] == text[k]
    {
      HighControl(b, k);
    }
    SliceOfSix(CONTROL, 6 * b, text);
    HighTextBytes(b);
  }

  lemma SliceOfSix(table: seq<byte>, at: nat, text: seq<byte>)
    requires at + 6 <= |table| && |text| == 6 && forall k :: 0 <= k < 6 ==> table[at + k] == text[k]
    ensures table[at..at + 6] == text
  {
  }

  function HighText(b: byte): (text: seq<byte>)
    requires 0x0e <= b <= 0x1c
    ensures |text| == 6
    ensures forall k :: 0 <= k < 6 ==>
              text[k] == if k < 2 then UnicodeEscape(b + 2)[4 + k] else UnicodeEscape(b + 3)[k - 2]
  {
    UnicodeEscape(b + 2)[4..] + UnicodeEscape(b + 3)[..4]
  }

  lemma HighTextBytes(b: byte)
    requires 0x0e <= b <= 0x1c
    ensures HighText(b) == [0x31, if b < 0x18 then b + 0x22 else b + 0x49, 0x5c, 0x75, 0x30, 0x30]
  {
    assert (b + 2) / 16 == 1 && (b + 2) % 16 == b - 14;
  }

  lemma HighControl(b: byte, k: nat)
    requires 0x0e <= b <= 0x1c && k < 6
    ensures 6 * b + k < |CONTROL|
    ensures CONTROL[6 * b + k] == if k < 2 then UnicodeEscape(b + 2)[4 + k] else UnicodeEscape(b + 3)[k - 2]
  {
    ControlTable();
    var i := 6 * b + k - 68;
    assert CONTROL[6 * b + k] == UnicodeEscapes(0x0e, 18)[i];
    if k < 2 {
      assert i == 6 * (b - 0x0c) + (4 + k);
    } else {
      assert i == 6 * (b - 0x0b) + (k - 2);
    }
  }

  // ---- strings ----

  /** The bytes whose table entry is not at six times their value. */
  predicate IsMisprinted(b: byte)
  {
    b == 0x0b || 0x0e <= b <= 0x1f
  }

  /** The bytes for which the slice runs past the end of the table, which panics. */
  predicate Panics(b: byte)
  {
    0x1d <= b <= 0x1f
  }

  function ShortEscape(b: byte): (letter: byte)
    requires b in {0x08, 0x09, 0x0a, 0x0c, 0x0d, QUOTE, BACKSLASH, 0x2f}
  {
    if b == 0x08 then 0x62 else if b == 0x09 then 0x74 else if b == 0x0a then 0x6e
    else if b == 0x0c then 0x66 else if b == 0x0d then 0x72 else b
  }

  predicate IsShort(b: byte)
  {
    b in {0x08, 0x09, 0x0a, 0x0c, 0x0d, QUOTE, BACKSLASH, 0x2f}
  }

  predicate IsPlain(b: byte)
  {
    b > 0x1f && !IsShort(b)
  }

  /** The text written for one byte of a string. */
  function EscapedByte(b: byte): (text: seq<byte>)
  {
    if IsShort(b) then [BACKSLASH, ShortEscape(b)]
    else if b > 0x1f then [b]
    else if Panics(b) then []
    else
      ControlTable();
      ControlText(b)
  }

  /** The text of every byte: eight short escapes, `\u000` and a digit below eight, and the byte itself from 0x20 on. */
  lemma EscapesExactly(b: byte)
    ensures EscapedByte(0x22) == [0x5c, 0x22] && EscapedByte(0x5c) == [0x5c, 0x5c] && EscapedByte(0x2f) == [0x5c, 0x2f]
    ensures EscapedByte(0x08) == [0x5c, 0x62] && EscapedByte(0x0c) == [0x5c, 0x66]
    ensures EscapedByte(0x0a) == [0x5c, 0x6e] && EscapedByte(0x0d) == [0x5c, 0x72] && EscapedByte(0x09) == [0x5c, 0x74]
    ensures b >= 0x20 && b !in {0x22, 0x5c, 0x2f} ==> EscapedByte(b) == [b]
    ensures b < 8 ==> EscapedByte(b) == [0x5c, 0x75, 0x30, 0x30, 0x30, 0x30 + b]
    ensures IsMisprinted(b) <==> b == 0x0b || 0x0e <= b <= 0x1f
    ensures Panics(b) <==> 0x1d <= b <= 0x1f
  {
    if b < 8 {
      LowControls(b);
    }
  }

  /** The texts of the bytes, one after the other. */
  function EscapedBy(escape: byte -> seq<byte>, s: seq<byte>): (text: seq<byte>)
  {
    if s == [] then [] else escape(s[0]) + EscapedBy(escape, s[1..])
  }

  function Escaped(s: seq<byte>): (text: seq<byte>)
  {
    EscapedBy(EscapedByte, s)
  }

  function Quoted(s: seq<byte>): (text: seq<byte>)
  {
    [QUOTE] + Escaped(s) + [QUOTE]
  }

  // ---- numbers ----

  function Digits(n: nat): (text: seq<byte>)
    ensures text != [] && ZERO <= text[0] <= ZERO + 9 && (n > 0 ==> text[0] != ZERO)
  {
    if n < 10 then [ZERO + n] else Digits(n / 10) + [ZERO + n % 10]
  }

  function Decimal(n: int): (text: seq<byte>)
  {
    if n < 0 then [MINUS] + Digits(-n) else Digits(n)
  }

  // ---- whole trees ----

  function Print(j: Json): (text: seq<byte>)
    decreases j
  {
    match j
    case JNull => NULL
    case JBool(b) => if b then TRUE else FALSE
    case JNumber(n) => Decimal(n)
    case JString(s) => Quoted(s)
    case JArray(items) => [OPEN_BRACKET] + PrintItems(items)
    case JObject(members) => [OPEN_BRACE] + PrintMembers(members)
  }

  /** The elements and the closing bracket. */
  function PrintItems(items: seq<Json>): (text: seq<byte>)
    decreases items
  {
    if items == [] then [CLOSE_BRACKET] else Print(items[0]) + PrintMoreItems(items[1..])
  }

  /** The same after an element: a comma before each further one. */
  function PrintMoreItems(items: seq<Json>): (text: seq<byte>)
    decreases items
  {
    if items == [] then [CLOSE_BRACKET] else [COMMA] + Print(items[0]) + PrintMoreItems(items[1..])
  }

  function PrintMember(m: Member): (text: seq<byte>)
    decreases m, 1
  {
    Quoted(m.name) + [COLON] + Print(m.value)
  }

  function PrintMembers(members: seq<Member>): (text: seq<byte>)
    decreases members
  {
    if members == [] then [CLOSE_BRACE] else PrintMember(members[0]) + PrintMoreMembers(members[1..])
  }

  function PrintMoreMembers(members: seq<Member>): (text: seq<byte>)
    decreases members
  {
    if members == [] then [CLOSE_BRACE] else [COMMA] + PrintMember(members[0]) + PrintMoreMembers(members[1..])
  }

  // ---- which trees are printed well, and which at all ----

  predicate IsClean(s: seq<byte>)
  {
    forall i :: 0 <= i < |s| ==> !IsMisprinted(s[i])
  }

  predicate IsWritable(s: seq<byte>)
  {
    forall i :: 0 <= i < |s| ==> !Panics(s[i])
  }

  /** Every string and every name in the tree satisfies `p`. */
  predicate AllStrings(j: Json, p: seq<byte> -> bool)
    decreases j
  {
    match j
    case JString(s) => p(s)
    case JArray(items) => AllItems(items, p)
    case JObject(members) => AllMembers(members, p)
    case _ => true
  }

  predicate AllItems(items: seq<Json>, p: seq<byte> -> bool)
    decreases items
  {
    items == [] || (AllStrings(items[0], p) && AllItems(items[1..], p))
  }

  predicate AllMembers(members: seq<Member>, p: seq<byte> -> bool)
    decreases members
  {
    members == [] || (p(members[0].name) && AllStrings(members[0].value, p) && AllMembers(members[1..], p))
  }

  predicate Clean(j: Json)
  {
    AllStrings(j, IsClean)
  }

  predicate Writable(j: Json)
  {
    AllStrings(j, IsWritable)
  }
}
