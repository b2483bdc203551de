/** The values a program serializes, and the JSON tree each one stands for. */
module JsonValues {
  import opened Bytes
  import opened JsonText

  /** Kinds of map keys the writer puts in quotation marks. */
  datatype Key =
    | BoolKey(b: bool)
    | IntKey(n: int)
    | StringKey(s: seq<byte>)   // strings and characters
    | NoneKey
    | UnitKey
    | NameKey(name: seq<byte>)  // unit structs, unit variants and newtype variants

  datatype Value =
    | Unit                                                      // none, unit, unit structs
    | Bool(b: bool)
    | Int(n: int)
    | String(s: seq<byte>)
    | ByteString(data: seq<byte>)
    | Wrapped(value: Value)                                     // some, newtype structs
    | Sequence(items: seq<Value>)                               // sequences, tuples, tuple structs
    | Map(fields: seq<Field>)
    | Struct(fields: seq<Field>)
    | UnitVariant(variant: seq<byte>)
    | NewtypeVariant(variant: seq<byte>, value: Value)
    | TupleVariant(variant: seq<byte>, items: seq<Value>)
    | StructVariant(variant: seq<byte>, fields: seq<Field>)

  datatype Field = Field(key: Key, value: Value)

  function KeyText(key: Key): (s: seq<byte>)
  {
    match key
    case BoolKey(b) => if b then TRUE else FALSE
    case IntKey(n) => Decimal(n)
    case StringKey(s) => s
    case NoneKey => NULL
    case UnitKey => []
    case NameKey(name) => name
  }

  const TAG_NAME: seq<byte> := [0x74]
  const VALUE_NAME: seq<byte> := [0x76]

  /** An enum value is an object with its variant under `t` and its payload under `v`. */
  function Tagged(variant: seq<byte>, payload: Json): (j: Json)
  {
    JObject([Member(TAG_NAME, JString(variant)), Member(VALUE_NAME, payload)])
  }

  function ToJson(v: Value): (j: Json)
    decreases v
  {
    match v
    case Unit => JNull
    case Bool(b) => JBool(b)
    case Int(n) => JNumber(n)
    case String(s) => JString(s)
    case ByteString(data) => JArray(Numbers(data))
    case Wrapped(value) => ToJson(value)
    case Sequence(items) => JArray(ToItems(items))
    case Map(fields) => JObject(ToMembers(fields))
    case Struct(fields) => JObject(ToMembers(fields))
    case UnitVariant(variant) => Tagged(variant, JNull)
    case NewtypeVariant(variant, value) => Tagged(variant, ToJson(value))
    case TupleVariant(variant, items) => Tagged(variant, JArray(ToItems(items)))
    case StructVariant(variant, fields) => Tagged(variant, JObject(ToMembers(fields)))
  }

  function ToItems(items: seq<Value>): (js: seq<Json>)
    ensures |js| == |items|
    decreases items
  {
    if items == [] then [] else [ToJson(items[0])] + ToItems(items[1..])
  }

  function ToMember(field: Field): (m: Member)
    decreases field
  {
    Member(KeyText(field.key), ToJson(field.value))
  }

  function ToMembers(fields: seq<Field>): (ms: seq<Member>)
    ensures |ms| == |fields|
    decreases fields
  {
    if fields == [] then [] else [ToMember(fields[0])] + ToMembers(fields[1..])
  }

  function Numbers(data: seq<byte>): (js: seq<Json>)
    ensures |js| == |data|
  {
    if data == [] then [] else [JNumber(data[0])] + Numbers(data[1..])
  }

  lemma {:induction false} ItemAt(items: seq<Value>, i: nat)
    requires i < |items|
    ensures ToItems(items)[i] == ToJson(items[i])
    decreases i
  {
    if i > 0 {
      ItemAt(items[1..], i - 1);
    }
  }

  lemma {:induction false} MemberAt(fields: seq<Field>, i: nat)
    requires i < |fields|
    ensures ToMembers(fields)[i] == ToMember(fields[i])
    decreases i
  {
    if i > 0 {
      MemberAt(fields[1..], i - 1);
    }
  }

  lemma {:induction false} NumberAt(data: seq<byte>, i: nat)
    requires i < |data|
    ensures Numbers(data)[i] == JNumber(data[i])
  {
    if i > 0 {
      NumberAt(data[1..], i - 1);
    }
  }

  const TAG_TEXT: seq<byte> := [QUOTE, 0x74, QUOTE, COLON]
  const VALUE_TEXT: seq<byte> := [COMMA, QUOTE, 0x76, QUOTE, COLON]

  lemma QuotedLetter(b: byte)
    requires IsPlain(b)
    ensures Quoted([b]) == [QUOTE, b, QUOTE]
  {
    var one, none: seq<byte> := [b], [];
    assert one[1..] == none;
    assert EscapedBy(EscapedByte, one) == EscapedByte(b) + EscapedBy(EscapedByte, none);
  }

  lemma {:induction false} TwoMembers(first: Member, second: Member)
    ensures Print(JObject([first, second])) ==
            [OPEN_BRACE] + (PrintMember(first) + ([COMMA] + PrintMember(second) + [CLOSE_BRACE]))
    ensures Writable(JObject([first, second])) <==>
            IsWritable(first.name) && Writable(first.value) && IsWritable(second.name) && Writable(second.value)
  {
    var both, last, none: seq<Member> := [first, second], [second], [];
    assert both[1..] == last && last[1..] == none;
    assert PrintMoreMembers(none) == [CLOSE_BRACE];
    assert PrintMoreMembers(last) == [COMMA] + PrintMember(second) + PrintMoreMembers(none);
    assert PrintMembers(both) == PrintMember(first) + PrintMoreMembers(last);
    assert AllMembers(none, IsWritable);
    assert AllMembers(last, IsWritable) == (IsWritable(second.name) && AllStrings(second.value, IsWritable));
    assert AllMembers(both, IsWritable) ==
           (IsWritable(first.name) && AllStrings(first.value, IsWritable) && AllMembers(last, IsWritable));
  }

  /** The text of an enum value, as the writer emits it piece by piece. */
  lemma {:induction false} TaggedText(variant: seq<byte>, payload: Json)
    ensures Print(Tagged(variant, payload)) ==
            [OPEN_BRACE] + TAG_TEXT + Quoted(variant) + VALUE_TEXT + Print(payload) + [CLOSE_BRACE]
    ensures Writable(Tagged(variant, payload)) <==> IsWritable(variant) && Writable(payload)
  {
    var tag, value := Member(TAG_NAME, JString(variant)), Member(VALUE_NAME, payload);
    QuotedLetter(0x74);
    QuotedLetter(0x76);
    assert PrintMember(tag) == TAG_TEXT + Quoted(variant);
    assert [COMMA] + PrintMember(value) == VALUE_TEXT + Print(payload);
    TwoMembers(tag, value);
    Regrouped([OPEN_BRACE], TAG_TEXT, Quoted(variant), VALUE_TEXT, Print(payload), [CLOSE_BRACE]);
  }

  lemma Regrouped(a: seq<byte>, b: seq<byte>, c: seq<byte>, d: seq<byte>, e: seq<byte>, f: seq<byte>)
    ensures a + ((b + c) + ((d + e) + f)) == a + b + c + d + e + f
  {
  }
}
