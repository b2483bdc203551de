/** Reading a JSON tree back as a value, given only the value's type. */
module JsonReading {
  import opened Bytes
  import opened Options
  import opened JsonText
  import opened JsonParser
  import opened JsonRoundTrip
  import opened JsonValues

  datatype KeyShape = BoolKeys | IntKeys | StringKeys | NoneKeys | UnitKeys | NameKeys

  /** What is known of a value before it is read: how it is built, but no content. */
  datatype Shape =
    | UnitShape
    | BoolShape
    | IntShape
    | StringShape
    | ByteStringShape
    | WrappedShape(inner: Shape)
    | SequenceShape(items: seq<Shape>)
    | MapShape(fields: seq<FieldShape>)
    | StructShape(fields: seq<FieldShape>)
    | UnitVariantShape
    | NewtypeVariantShape(inner: Shape)
    | TupleVariantShape(items: seq<Shape>)
    | StructVariantShape(fields: seq<FieldShape>)

  datatype FieldShape = FieldShape(key: KeyShape, value: Shape)

  // ---- the shape of a value ----

  function KeyShapeOf(key: Key): (shape: KeyShape)
  {
    match key
    case BoolKey(_) => BoolKeys
    case IntKey(_) => IntKeys
    case StringKey(_) => StringKeys
    case NoneKey => NoneKeys
    case UnitKey => UnitKeys
    case NameKey(_) => NameKeys
  }

  function ShapeOf(v: Value): (shape: Shape)
    decreases v
  {
    match v
    case Unit => UnitShape
    case Bool(_) => BoolShape
    case Int(_) => IntShape
    case String(_) => StringShape
    case ByteString(_) => ByteStringShape
    case Wrapped(value) => WrappedShape(ShapeOf(value))
    case Sequence(items) => SequenceShape(ShapesOf(items))
    case Map(fields) => MapShape(FieldShapesOf(fields))
    case Struct(fields) => StructShape(FieldShapesOf(fields))
    case UnitVariant(_) => UnitVariantShape
    case NewtypeVariant(_, value) => NewtypeVariantShape(ShapeOf(value))
    case TupleVariant(_, items) => TupleVariantShape(ShapesOf(items))
    case StructVariant(_, fields) => StructVariantShape(FieldShapesOf(fields))
  }

  function ShapesOf(items: seq<Value>): (shapes: seq<Shape>)
    decreases items
  {
    if items == [] then [] else [ShapeOf(items[0])] + ShapesOf(items[1..])
  }

  function FieldShapeOf(field: Field): (shape: FieldShape)
    decreases field
  {
    FieldShape(KeyShapeOf(field.key), ShapeOf(field.value))
  }

  function FieldShapesOf(fields: seq<Field>): (shapes: seq<FieldShape>)
    decreases fields
  {
    if fields == [] then [] else [FieldShapeOf(fields[0])] + FieldShapesOf(fields[1..])
  }

  // ---- reading ----

  function ReadKey(shape: KeyShape, text: seq<byte>): (key: Option<Key>)
  {
    match shape
    case BoolKeys =>
      if text == [0x74, 0x72, 0x75, 0x65] then Some(BoolKey(true))
      else if text == [0x66, 0x61, 0x6c, 0x73, 0x65] then Some(BoolKey(false)) else None
    case IntKeys =>
      var p := ParseNumber(text);
      if p.Done? && p.value.JNumber? && p.rest == [] && Decimal(p.value.n) == text then Some(IntKey(p.value.n))
      else None
    case StringKeys => Some(StringKey(text))
    case NoneKeys => if text == [0x6e, 0x75, 0x6c, 0x6c] then Some(NoneKey) else None
    case UnitKeys => if text == [] then Some(UnitKey) else None
    case NameKeys => Some(NameKey(text))
  }

  /** An object of two members, a string named `t` and anything named `v`. */
  predicate IsTagged(j: Json)
  {
    && j.JObject? && |j.members| == 2
    && j.members[0].name == [0x74] && j.members[0].value.JString? && j.members[1].name == [0x76]
  }

  function Read(shape: Shape, j: Json): (v: Option<Value>)
    decreases shape
  {
    match shape
    case UnitShape => if j.JNull? then Some(Unit) else None
    case BoolShape => if j.JBool? then Some(Bool(j.b)) else None
    case IntShape => if j.JNumber? then Some(Int(j.n)) else None
    case StringShape => if j.JString? then Some(String(j.s)) else None
    case ByteStringShape =>
      if !j.JArray? then None else
      var data := ReadBytes(j.items);
      if data.Some? then Some(ByteString(data.value)) else None
    case WrappedShape(inner) =>
      var value := Read(inner, j);
      if value.Some? then Some(Wrapped(value.value)) else None
    case SequenceShape(items) =>
      if !j.JArray? then None else
      var vs := ReadItems(items, j.items);
      if vs.Some? then Some(Sequence(vs.value)) else None
    case MapShape(fields) =>
      if !j.JObject? then None else
      var fs := ReadFields(fields, j.members);
      if fs.Some? then Some(Map(fs.value)) else None
    case StructShape(fields) =>
      if !j.JObject? then None else
      var fs := ReadFields(fields, j.members);
      if fs.Some? then Some(Struct(fs.value)) else None
    case UnitVariantShape =>
      if IsTagged(j) && j.members[1].value.JNull? then Some(UnitVariant(j.members[0].value.s)) else None
    case NewtypeVariantShape(inner) =>
      if !IsTagged(j) then None else
      var value := Read(inner, j.members[1].value);
      if value.Some? then Some(NewtypeVariant(j.members[0].value.s, value.value)) else None
    case TupleVariantShape(items) =>
      if !IsTagged(j) || !j.members[1].value.JArray? then None else
      var vs := ReadItems(items, j.members[1].value.items);
      if vs.Some? then Some(TupleVariant(j.members[0].value.s, vs.value)) else None
    case StructVariantShape(fields) =>
      if !IsTagged(j) || !j.members[1].value.JObject? then None else
      var fs := ReadFields(fields, j.members[1].value.members);
      if fs.Some? then Some(StructVariant(j.members[0].value.s, fs.value)) else None
  }

  function ReadBytes(items: seq<Json>): (data: Option<seq<byte>>)
  {
    if items == [] then Some([])
    else if !(items[0].JNumber? && 0 <= items[0].n < 256) then None
    else
      var rest := ReadBytes(items[1..]);
      if rest.Some? then Some([items[0].n] + rest.value) else None
  }

  function ReadItems(shapes: seq<Shape>, items: seq<Json>): (vs: Option<seq<Value>>)
    decreases shapes
  {
    if shapes == [] then (if items == [] then Some([]) else None)
    else if items == [] then None
    else
      var first, rest := Read(shapes[0], items[0]), ReadItems(shapes[1..], items[1..]);
      if first.Some? && rest.Some? then Some([first.value] + rest.value) else None
  }

  function ReadField(shape: FieldShape, m: Member): (field: Option<Field>)
    decreases shape
  {
    var key, value := ReadKey(shape.key, m.name), Read(shape.value, m.value);
    if key.Some? && value.Some? then Some(Field(key.value, value.value)) else None
  }

  function ReadFields(shapes: seq<FieldShape>, members: seq<Member>): (fields: Option<seq<Field>>)
    decreases shapes
  {
    if shapes == [] then (if members == [] then Some([]) else None)
    else if members == [] then None
    else
      var first, rest := ReadField(shapes[0], members[0]), ReadFields(shapes[1..], members[1..]);
      if first.Some? && rest.Some? then Some([first.value] + rest.value) else None
  }

  // ---- a value is read back from its own tree, and from no other ----

  lemma KeyReadExactly(key: Key, text: seq<byte>)
    ensures ReadKey(KeyShapeOf(key), text) == Some(key) <==> text == KeyText(key)
  {
    if key.IntKey? {
      NumberRoundTrip(key.n, []);
      assert Decimal(key.n) + [] == Decimal(key.n);
    }
  }

  lemma {:induction false} BytesReadExactly(data: seq<byte>, items: seq<Json>)
    ensures ReadBytes(items) == Some(data) <==> items == Numbers(data)
    decreases |data|
  {
    if data != [] && items != [] {
      var rest := ReadBytes(items[1..]);
      BytesReadExactly(data[1..], items[1..]);
      assert data == [data[0]] + data[1..] && items == [items[0]] + items[1..];
      ConsEqual(items[0], items[1..], JNumber(data[0]), Numbers(data[1..]));
      if items[0].JNumber? && 0 <= items[0].n < 256 && rest.Some? {
        ConsEqual<byte>(items[0].n, rest.value, data[0], data[1..]);
      }
    }
  }

  lemma ConsEqual<T>(a: T, s: seq<T>, b: T, t: seq<T>)
    ensures [a] + s == [b] + t <==> a == b && s == t
  {
    if [a] + s == [b] + t {
      assert ([a] + s)[0] == a && ([a] + s)[1..] == s && ([b] + t)[0] == b && ([b] + t)[1..] == t;
    }
  }

  lemma {:induction false} ItemsReadExactly(vs: seq<Value>, items: seq<Json>)
    ensures ReadItems(ShapesOf(vs), items) == Some(vs) <==> items == ToItems(vs)
    decreases vs
  {
    if vs != [] && items != [] {
      var shapes := ShapesOf(vs);
      assert shapes[0] == ShapeOf(vs[0]) && shapes[1..] == ShapesOf(vs[1..]);
      var first, rest := Read(shapes[0], items[0]), ReadItems(shapes[1..], items[1..]);
      ReadExactly(vs[0], items[0]);
      ItemsReadExactly(vs[1..], items[1..]);
      assert vs == [vs[0]] + vs[1..] && items == [items[0]] + items[1..];
      ConsEqual(items[0], items[1..], ToJson(vs[0]), ToItems(vs[1..]));
      if first.Some? && rest.Some? {
        ConsEqual(first.value, rest.value, vs[0], vs[1..]);
      }
    }
  }

  lemma {:induction false} FieldReadExactly(field: Field, m: Member)
    ensures ReadField(FieldShapeOf(field), m) == Some(field) <==> m == ToMember(field)
    decreases field
  {
    KeyReadExactly(field.key, m.name);
    ReadExactly(field.value, m.value);
  }

  lemma {:induction false} FieldsReadExactly(fields: seq<Field>, members: seq<Member>)
    ensures ReadFields(FieldShapesOf(fields), members) == Some(fields) <==> members == ToMembers(fields)
    decreases fields
  {
    if fields != [] && members != [] {
      var shapes := FieldShapesOf(fields);
      assert shapes[0] == FieldShapeOf(fields[0]) && shapes[1..] == FieldShapesOf(fields[1..]);
      var first, rest := ReadField(shapes[0], members[0]), ReadFields(shapes[1..], members[1..]);
      FieldReadExactly(fields[0], members[0]);
      FieldsReadExactly(fields[1..], members[1..]);
      assert fields == [fields[0]] + fields[1..] && members == [members[0]] + members[1..];
      ConsEqual(members[0], members[1..], ToMember(fields[0]), ToMembers(fields[1..]));
      if first.Some? && rest.Some? {
        ConsEqual(first.value, rest.value, fields[0], fields[1..]);
      }
    }
  }

  lemma TaggedExactly(variant: seq<byte>, payload: Json, j: Json)
    ensures j == Tagged(variant, payload) <==>
            IsTagged(j) && j.members[0].value.s == variant && j.members[1].value == payload
  {
    if IsTagged(j) && j.members[0].value.s == variant && j.members[1].value == payload {
      assert j.members == [Member([0x74], JString(variant)), Member([0x76], payload)];
    }
  }

  lemma {:induction false} VariantReadExactly(v: Value, j: Json)
    requires v.UnitVariant? || v.NewtypeVariant? || v.TupleVariant? || v.StructVariant?
    ensures Read(ShapeOf(v), j) == Some(v) <==> j == ToJson(v)
    decreases v, 0
  {
    match v {
      case UnitVariant(variant) => TaggedExactly(variant, JNull, j);
      case NewtypeVariant(variant, value) =>
        TaggedExactly(variant, ToJson(value), j);
        if IsTagged(j) { ReadExactly(value, j.members[1].value); }
      case TupleVariant(variant, items) =>
        TaggedExactly(variant, JArray(ToItems(items)), j);
        if IsTagged(j) && j.members[1].value.JArray? { ItemsReadExactly(items, j.members[1].value.items); }
      case StructVariant(variant, fields) =>
        TaggedExactly(variant, JObject(ToMembers(fields)), j);
        if IsTagged(j) && j.members[1].value.JObject? { FieldsReadExactly(fields, j.members[1].value.members); }
    }
  }

  /** Given its shape, a tree reads as a value if and only if it is the tree of that value. */
  lemma {:induction false} ReadExactly(v: Value, j: Json)
    ensures Read(ShapeOf(v), j) == Some(v) <==> j == ToJson(v)
    decreases v, 1
  {
    match v {
      case Unit =>
      case Bool(_) =>
      case Int(_) =>
      case String(_) =>
      case ByteString(data) =>
        if j.JArray? { BytesReadExactly(data, j.items); }
      case Wrapped(value) => ReadExactly(value, j);
      case Sequence(items) =>
        if j.JArray? { ItemsReadExactly(items, j.items); }
      case Map(fields) =>
        if j.JObject? { FieldsReadExactly(fields, j.members); }
      case Struct(fields) =>
        if j.JObject? { FieldsReadExactly(fields, j.members); }
      case _ => VariantReadExactly(v, j);
    }
  }
}
