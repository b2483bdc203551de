/** The streaming serializer: a chunk buffer, run-based escaping, and a comma state per compound value. */
module JsonSerializer {
  import opened Bytes
  import opened JsonText
  import opened JsonValues

  const CHUNK_SIZE: nat := 8192

  function Flatten(chunks: seq<seq<byte>>): (text: seq<byte>)
  {
    if chunks == [] then [] else Flatten(chunks[..|chunks| - 1]) + chunks[|chunks| - 1]
  }

  /** Every chunk but the last is full, and the last is not empty. */
  ghost predicate IsChunking(chunks: seq<seq<byte>>)
  {
    && (forall i :: 0 <= i < |chunks| - 1 ==> |chunks[i]| == CHUNK_SIZE)
    && (chunks != [] ==> 0 < |chunks[|chunks| - 1]| <= CHUNK_SIZE)
  }

  lemma {:induction false} FlattenHead(chunks: seq<seq<byte>>)
    requires chunks != []
    ensures Flatten(chunks) == chunks[0] + Flatten(chunks[1..])
  {
    var n := |chunks| - 1;
    if n > 0 {
      FlattenHead(chunks[..n]);
      assert chunks[..n][1..] == chunks[1..][..n - 1];
    }
  }

  /** The text alone determines its chunks. */
  lemma {:induction false} ChunkingUnique(chunks: seq<seq<byte>>, others: seq<seq<byte>>)
    requires IsChunking(chunks) && IsChunking(others) && Flatten(chunks) == Flatten(others)
    ensures chunks == others
  {
    if chunks != [] && others != [] {
      FlattenHead(chunks);
      FlattenHead(others);
      FirstChunk(chunks);
      FirstChunk(others);
      assert chunks[0] == Flatten(chunks)[..|chunks[0]|];
      assert Flatten(chunks)[|chunks[0]|..] == Flatten(chunks[1..]);
      assert Flatten(others)[|others[0]|..] == Flatten(others[1..]);
      ChunkingUnique(chunks[1..], others[1..]);
    } else if chunks != [] {
      FlattenHead(chunks);
    } else if others != [] {
      FlattenHead(others);
    }
  }

  lemma {:induction false} FirstChunk(chunks: seq<seq<byte>>)
    requires IsChunking(chunks) && chunks != []
    ensures |chunks[0]| == if |Flatten(chunks)| < CHUNK_SIZE then |Flatten(chunks)| else CHUNK_SIZE
    ensures IsChunking(chunks[1..])
  {
    FlattenHead(chunks);
    assert |chunks| == 1 ==> Flatten(chunks[1..]) == [];
  }

  // ---- run-based escaping ----

  lemma {:induction false} EscapedAppend(escape: byte -> seq<byte>, s: seq<byte>, t: seq<byte>)
    ensures EscapedBy(escape, s + t) == EscapedBy(escape, s) + EscapedBy(escape, t)
  {
    if s == [] {
      assert s + t == t;
    } else {
      assert (s + t)[1..] == s[1..] + t;
      EscapedAppend(escape, s[1..], t);
    }
  }

  lemma {:induction false} EscapedPlain(escape: byte -> seq<byte>, s: seq<byte>)
    requires forall i :: 0 <= i < |s| ==> escape(s[i]) == [s[i]]
    ensures EscapedBy(escape, s) == s
  {
    if s != [] {
      EscapedPlain(escape, s[1..]);
    }
  }

  /** A run of plain bytes and one escaped byte extend the text by the run and the escape. */
  lemma EscapedRun(escape: byte -> seq<byte>, s: seq<byte>, start: nat, i: nat)
    requires start <= i < |s| && forall k :: start <= k < i ==> escape(s[k]) == [s[k]]
    ensures EscapedBy(escape, s[..i + 1]) == EscapedBy(escape, s[..start]) + s[start..i] + escape(s[i])
  {
    var done, run, one := s[..start], s[start..i], [s[i]];
    EscapedPlain(escape, run);
    EscapedAppend(escape, done, run);
    EscapedAppend(escape, done + run, one);
    assert one[1..] == [];
    assert done + run + one == s[..i + 1];
  }

  lemma {:induction false} EscapedTail(escape: byte -> seq<byte>, s: seq<byte>, start: nat)
    requires start <= |s| && forall k :: start <= k < |s| ==> escape(s[k]) == [s[k]]
    ensures EscapedBy(escape, s) == EscapedBy(escape, s[..start]) + s[start..]
  {
    var done, run := s[..start], s[start..];
    EscapedPlain(escape, run);
    EscapedAppend(escape, done, run);
    assert done + run == s;
  }

  datatype Escape = Verbatim | Escape(bytes: seq<byte>) | OutOfRange

  /** The choice the string loop makes for each byte. */
  method EscapeFor(b: byte) returns (escape: Escape)
    ensures escape.OutOfRange? <==> Panics(b)
    ensures escape.Verbatim? ==> EscapedByte(b) == [b]
    ensures escape.Escape? ==> EscapedByte(b) == escape.bytes
  {
    if IsShort(b) {
      return Escape([BACKSLASH, ShortEscape(b)]);
    }
    if b > 0x1f {
      return Verbatim;
    }
    ControlTable();
    var at := 6 * b;
    if at + 6 > |CONTROL| {
      return OutOfRange;
    }
    escape := Escape(CONTROL[at..at + 6]);
  }

  /** The state of a compound value: nothing written, one element written, or more. */
  datatype State = Empty | First | Rest

  function NextState(state: State): (state': State)
  {
    if state.Empty? then First else Rest
  }

  // ---- what is left to write of a compound value ----

  function ItemsFrom(items: seq<Json>, i: nat): (text: seq<byte>)
    requires i <= |items|
  {
    if i == 0 then PrintItems(items) else PrintMoreItems(items[i..])
  }

  function MembersFrom(members: seq<Member>, i: nat): (text: seq<byte>)
    requires i <= |members|
  {
    if i == 0 then PrintMembers(members) else PrintMoreMembers(members[i..])
  }

  function Separator(i: nat): (text: seq<byte>)
  {
    if i == 0 then [] else [COMMA]
  }

  lemma NextItem(items: seq<Json>, i: nat)
    requires i < |items|
    ensures ItemsFrom(items, i) == Separator(i) + Print(items[i]) + ItemsFrom(items, i + 1)
    ensures AllItems(items[i..], IsWritable) <==> Writable(items[i]) && AllItems(items[i + 1..], IsWritable)
  {
    var left := items[i..];
    assert left[0] == items[i] && left[1..] == items[i + 1..];
  }

  lemma NextMember(members: seq<Member>, i: nat)
    requires i < |members|
    ensures MembersFrom(members, i) == Separator(i) + PrintMember(members[i]) + MembersFrom(members, i + 1)
    ensures AllMembers(members[i..], IsWritable) <==>
            IsWritable(members[i].name) && Writable(members[i].value) && AllMembers(members[i + 1..], IsWritable)
  {
    var left := members[i..];
    assert left[0] == members[i] && left[1..] == members[i + 1..];
  }

  lemma Shift(done: seq<byte>, a: seq<byte>, b: seq<byte>, rest: seq<byte>)
    ensures done + (a + b + rest) == done + a + b + rest
  {
  }

  lemma Prepend(done: seq<byte>, a: seq<byte>, rest: seq<byte>)
    ensures done + (a + rest) == done + a + rest
  {
  }

  lemma {:induction false} ArrayText(done: seq<byte>, items: seq<Json>)
    ensures done + Print(JArray(items)) == done + [OPEN_BRACKET] + PrintItems(items)
    ensures Writable(JArray(items)) == AllItems(items, IsWritable)
  {
    Prepend(done, [OPEN_BRACKET], PrintItems(items));
  }

  lemma {:induction false} ObjectText(done: seq<byte>, members: seq<Member>)
    ensures done + Print(JObject(members)) == done + [OPEN_BRACE] + PrintMembers(members)
    ensures Writable(JObject(members)) == AllMembers(members, IsWritable)
  {
    Prepend(done, [OPEN_BRACE], PrintMembers(members));
  }

  lemma {:induction false} NumbersAreWritable(data: seq<byte>)
    ensures AllItems(Numbers(data), IsWritable)
  {
    if data != [] {
      NumbersAreWritable(data[1..]);
    }
  }

  predicate IsVariant(v: Value)
  {
    v.UnitVariant? || v.NewtypeVariant? || v.TupleVariant? || v.StructVariant?
  }

  function PayloadOf(v: Value): (j: Json)
    requires IsVariant(v)
    ensures ToJson(v) == Tagged(v.variant, j)
  {
    match v
    case UnitVariant(_) => JNull
    case NewtypeVariant(_, value) => ToJson(value)
    case TupleVariant(_, items) => JArray(ToItems(items))
    case StructVariant(_, fields) => JObject(ToMembers(fields))
  }

  function StateAfter(i: nat): (state: State)
  {
    if i == 0 then Empty else if i == 1 then First else Rest
  }

  class Serializer {
    var completed: seq<seq<byte>>
    var current: seq<byte>

    ghost predicate Valid()
      reads this
    {
      |current| < CHUNK_SIZE && forall i :: 0 <= i < |completed| ==> |completed[i]| == CHUNK_SIZE
    }

    /** Everything written so far. */
    ghost function Contents(): (text: seq<byte>)
      reads this
    {
      Flatten(completed) + current
    }

    constructor ()
      ensures Valid() && Contents() == []
    {
      completed, current := [], [];
    }

    method WriteBytes(bytes: seq<byte>)
      requires Valid()
      modifies this
      ensures Valid() && Contents() == old(Contents()) + bytes
    {
      var left := bytes;
      while left != []
        invariant Valid() && Contents() + left == old(Contents()) + bytes
        decreases |left|
      {
        ghost var before := Contents();
        var remaining := CHUNK_SIZE - |current|;
        var n := if remaining <= |left| then remaining else |left|;
        current := current + left[..n];
        assert before + left == Contents() + left[n..] by {
          assert left == left[..n] + left[n..];
        }
        left := left[n..];
        if |current| == CHUNK_SIZE {
          assert (completed + [current])[..|completed|] == completed;
          completed := completed + [current];
          current := [];
        }
      }
    }

    /** Flushes the run of plain bytes before an escape, then writes the escape. */
    method WriteEscape(s: seq<byte>, start: nat, i: nat, escape: seq<byte>,
                       ghost rule: byte -> seq<byte>, ghost text: seq<byte>)
      requires Valid() && start <= i < |s| && escape == rule(s[i])
      requires Contents() == text + EscapedBy(rule, s[..start])
      requires forall k :: start <= k < i ==> rule(s[k]) == [s[k]]
      modifies this
      ensures Valid() && Contents() == text + EscapedBy(rule, s[..i + 1])
    {
      EscapedRun(rule, s, start, i);
      if start < i {
        WriteBytes(s[start..i]);
      }
      WriteBytes(escape);
    }

    /** The loop over the bytes of a string; each run of plain bytes is written at once, the last one later. */
    method WriteRuns(s: seq<byte>, ghost rule: byte -> seq<byte>) returns (ok: bool, start: nat)
      requires Valid() && rule == EscapedByte
      modifies this
      ensures Valid()
      ensures ok <==> IsWritable(s)
      ensures ok ==> start <= |s| && Contents() == old(Contents()) + EscapedBy(rule, s[..start])
      ensures ok ==> forall k :: start <= k < |s| ==> rule(s[k]) == [s[k]]
    {
      ghost var text := Contents();
      start := 0;
      for i := 0 to |s|
        invariant Valid() && start <= i
        invariant Contents() == text + EscapedBy(rule, s[..start])
        invariant forall k :: start <= k < i ==> rule(s[k]) == [s[k]]
        invariant forall k :: 0 <= k < i ==> !Panics(s[k])
      {
        var escape := EscapeFor(s[i]);
        match escape {
          case OutOfRange =>
            return false, start;
          case Escape(bytes) =>
            WriteEscape(s, start, i, bytes, rule, text);
            start := i + 1;
          case Verbatim =>
        }
      }
      ok := true;
    }

    method WriteEscaped(s: seq<byte>) returns (ok: bool)
      requires Valid()
      modifies this
      ensures Valid()
      ensures ok <==> IsWritable(s)
      ensures ok ==> Contents() == old(Contents()) + Escaped(s)
    {
      ghost var rule := EscapedByte;
      var start;
      ok, start := WriteRuns(s, rule);
      if ok {
        EscapedTail(rule, s, start);
        if start != |s| {
          WriteBytes(s[start..]);
        }
      }
    }

    /** `false` when the table slice is out of range, which panics. */
    method WriteStringValue(s: seq<byte>) returns (ok: bool)
      requires Valid()
      modifies this
      ensures Valid()
      ensures ok <==> IsWritable(s)
      ensures ok ==> Contents() == old(Contents()) + Quoted(s)
    {
      WriteBytes([QUOTE]);
      ok := WriteEscaped(s);
      if ok {
        WriteBytes([QUOTE]);
      }
    }

    /** Before each element: the state advances, and a comma is written unless the element is the first. */
    method Separate(state: State, ghost i: nat) returns (state': State)
      requires Valid() && state == StateAfter(i)
      modifies this
      ensures Valid() && state' == StateAfter(i + 1)
      ensures Contents() == old(Contents()) + Separator(i)
    {
      state' := NextState(state);
      if !state'.First? {
        WriteBytes([COMMA]);
      }
    }

    /** The elements of a sequence, tuple or tuple variant, and the closing bracket. */
    method SerializeItems(items: seq<Value>) returns (ok: bool)
      requires Valid()
      modifies this
      ensures Valid()
      ensures ok <==> AllItems(ToItems(items), IsWritable)
      ensures ok ==> Contents() == old(Contents()) + PrintItems(ToItems(items))
      decreases items, 0
    {
      ghost var js := ToItems(items);
      ghost var whole := Contents() + PrintItems(js);
      var state := Empty;
      assert js[0..] == js;
      for i := 0 to |items|
        invariant Valid() && state == StateAfter(i)
        invariant Contents() + ItemsFrom(js, i) == whole
        invariant AllItems(js, IsWritable) <==> AllItems(js[i..], IsWritable)
      {
        NextItem(js, i);
        ItemAt(items, i);
        Shift(Contents(), Separator(i), Print(js[i]), ItemsFrom(js, i + 1));
        state := Separate(state, i);
        ok := Serialize(items[i]);
        if !ok {
          return;
        }
      }
      WriteBytes([CLOSE_BRACKET]);
      ok := true;
    }

    /** The fields of a map or struct, and the closing brace. */
    method SerializeFields(fields: seq<Field>) returns (ok: bool)
      requires Valid()
      modifies this
      ensures Valid()
      ensures ok <==> AllMembers(ToMembers(fields), IsWritable)
      ensures ok ==> Contents() == old(Contents()) + PrintMembers(ToMembers(fields))
      decreases fields, 0
    {
      ghost var ms := ToMembers(fields);
      ghost var whole := Contents() + PrintMembers(ms);
      var state := Empty;
      assert ms[0..] == ms;
      for i := 0 to |fields|
        invariant Valid() && state == StateAfter(i)
        invariant Contents() + MembersFrom(ms, i) == whole
        invariant AllMembers(ms, IsWritable) <==> AllMembers(ms[i..], IsWritable)
      {
        NextMember(ms, i);
        MemberAt(fields, i);
        Shift(Contents(), Separator(i), PrintMember(ms[i]), MembersFrom(ms, i + 1));
        state := Separate(state, i);
        ok := SerializeField(fields[i]);
        if !ok {
          return;
        }
      }
      WriteBytes([CLOSE_BRACE]);
      ok := true;
    }

    method SerializeArray(items: seq<Value>) returns (ok: bool)
      requires Valid()
      modifies this
      ensures Valid()
      ensures ok <==> Writable(JArray(ToItems(items)))
      ensures ok ==> Contents() == old(Contents()) + Print(JArray(ToItems(items)))
      decreases items, 1
    {
      ArrayText(Contents(), ToItems(items));
      WriteBytes([OPEN_BRACKET]);
      ok := SerializeItems(items);
    }

    method SerializeObject(fields: seq<Field>) returns (ok: bool)
      requires Valid()
      modifies this
      ensures Valid()
      ensures ok <==> Writable(JObject(ToMembers(fields)))
      ensures ok ==> Contents() == old(Contents()) + Print(JObject(ToMembers(fields)))
      decreases fields, 1
    {
      ObjectText(Contents(), ToMembers(fields));
      WriteBytes([OPEN_BRACE]);
      ok := SerializeFields(fields);
    }

    method SerializeField(field: Field) returns (ok: bool)
      requires Valid()
      modifies this
      ensures Valid()
      ensures ok <==> IsWritable(ToMember(field).name) && Writable(ToMember(field).value)
      ensures ok ==> Contents() == old(Contents()) + PrintMember(ToMember(field))
      decreases field
    {
      ghost var m := ToMember(field);
      Shift(Contents(), Quoted(m.name), [COLON], Print(m.value));
      ok := WriteStringValue(KeyText(field.key));
      if ok {
        WriteBytes([COLON]);
        ok := Serialize(field.value);
      }
    }

    method SerializeNumbers(data: seq<byte>)
      requires Valid()
      modifies this
      ensures Valid()
      ensures Contents() == old(Contents()) + PrintItems(Numbers(data))
    {
      ghost var js := Numbers(data);
      ghost var whole := Contents() + PrintItems(js);
      var state := Empty;
      for i := 0 to |data|
        invariant Valid() && state == StateAfter(i)
        invariant Contents() + ItemsFrom(js, i) == whole
      {
        NextItem(js, i);
        NumberAt(data, i);
        Shift(Contents(), Separator(i), Print(js[i]), ItemsFrom(js, i + 1));
        state := Separate(state, i);
        WriteBytes(Decimal(data[i]));
      }
      WriteBytes([CLOSE_BRACKET]);
    }

    /** Raw bytes are a sequence of numbers. */
    method SerializeByteString(data: seq<byte>)
      requires Valid()
      modifies this
      ensures Valid()
      ensures Writable(JArray(Numbers(data)))
      ensures Contents() == old(Contents()) + Print(JArray(Numbers(data)))
    {
      NumbersAreWritable(data);
      ArrayText(Contents(), Numbers(data));
      WriteBytes([OPEN_BRACKET]);
      SerializeNumbers(data);
    }

    /** The opening of an enum value, up to its payload. */
    method OpenVariant(variant: seq<byte>) returns (ok: bool)
      requires Valid()
      modifies this
      ensures Valid()
      ensures ok <==> IsWritable(variant)
      ensures ok ==> Contents() == old(Contents()) + ([OPEN_BRACE] + TAG_TEXT + Quoted(variant) + VALUE_TEXT)
    {
      WriteBytes([OPEN_BRACE]);
      WriteBytes(TAG_TEXT);
      ok := WriteStringValue(variant);
      if ok {
        WriteBytes(VALUE_TEXT);
      }
    }

    method SerializePayload(v: Value) returns (ok: bool)
      requires Valid() && IsVariant(v)
      modifies this
      ensures Valid()
      ensures ok <==> Writable(PayloadOf(v))
      ensures ok ==> Contents() == old(Contents()) + Print(PayloadOf(v))
      decreases v, 0
    {
      match v {
        case UnitVariant(_) =>
          WriteBytes(NULL);
          ok := true;
        case NewtypeVariant(_, value) =>
          ok := Serialize(value);
        case TupleVariant(_, items) =>
          ok := SerializeArray(items);
        case StructVariant(_, fields) =>
          ok := SerializeObject(fields);
      }
    }

    /** An enum value: its opening, its payload, and the closing brace. */
    method SerializeVariant(v: Value) returns (ok: bool)
      requires Valid() && IsVariant(v)
      modifies this
      ensures Valid()
      ensures ok <==> Writable(ToJson(v))
      ensures ok ==> Contents() == old(Contents()) + Print(ToJson(v))
      decreases v, 1
    {
      TaggedText(v.variant, PayloadOf(v));
      Shift(Contents(), [OPEN_BRACE] + TAG_TEXT + Quoted(v.variant) + VALUE_TEXT, Print(PayloadOf(v)), [CLOSE_BRACE]);
      ok := OpenVariant(v.variant);
      if ok {
        ok := SerializePayload(v);
        if ok {
          WriteBytes([CLOSE_BRACE]);
        }
      }
    }

    /** `false` when some string makes the writer panic. */
    method Serialize(v: Value) returns (ok: bool)
      requires Valid()
      modifies this
      ensures Valid()
      ensures ok <==> Writable(ToJson(v))
      ensures ok ==> Contents() == old(Contents()) + Print(ToJson(v))
      decreases v, 2
    {
      ok := true;
      match v {
        case Unit =>
          WriteBytes(NULL);
        case Bool(b) =>
          WriteBytes(if b then TRUE else FALSE);
        case Int(n) =>
          WriteBytes(Decimal(n));
        case String(s) =>
          ok := WriteStringValue(s);
        case ByteString(data) =>
          SerializeByteString(data);
        case Wrapped(value) =>
          ok := Serialize(value);
        case Sequence(items) =>
          ok := SerializeArray(items);
        case Map(fields) =>
          ok := SerializeObject(fields);
        case Struct(fields) =>
          ok := SerializeObject(fields);
        case _ =>
          ok := SerializeVariant(v);
      }
    }

    method IntoStream() returns (chunks: seq<seq<byte>>)
      requires Valid()
      ensures Flatten(chunks) == Contents() && IsChunking(chunks)
    {
      chunks := completed;
      if current != [] {
        chunks := chunks + [current];
        assert chunks[..|completed|] == completed;
      }
    }
  }
}
