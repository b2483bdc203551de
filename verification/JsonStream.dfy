/** The public entry point: a value to a stream of chunks. */
module JsonStream {
  import opened Bytes
  import opened JsonText
  import opened JsonParser
  import opened JsonRoundTrip
  import opened JsonValues
  import opened JsonSerializer
  import opened JsonReading
  import opened JsonCompact
  import opened Options

  lemma CleanIsWritableString(s: seq<byte>)
    requires IsClean(s)
    ensures IsWritable(s)
  {
  }

  lemma {:induction false} CleanIsWritable(j: Json)
    requires Clean(j)
    ensures Writable(j)
    decreases j
  {
    match j {
      case JString(s) => CleanIsWritableString(s);
      case JArray(items) => CleanItems(items);
      case JObject(members) => CleanMembers(members);
      case _ =>
    }
  }

  lemma {:induction false} CleanItems(items: seq<Json>)
    requires AllItems(items, IsClean)
    ensures AllItems(items, IsWritable)
    decreases items
  {
    if items != [] {
      CleanIsWritable(items[0]);
      CleanItems(items[1..]);
    }
  }

  lemma {:induction false} CleanMembers(members: seq<Member>)
    requires AllMembers(members, IsClean)
    ensures AllMembers(members, IsWritable)
    decreases members
  {
    if members != [] {
      CleanIsWritableString(members[0].name);
      CleanMemberValue(members[0]);
      CleanMembers(members[1..]);
    }
  }

  lemma {:induction false} CleanMemberValue(m: Member)
    requires Clean(m.value)
    ensures Writable(m.value)
    decreases m
  {
    CleanIsWritable(m.value);
  }

  lemma {:induction false} ReadBackExactly(v: Value)
    requires Writable(ToJson(v))
    ensures var p := Parse(Print(ToJson(v)));
            p.Done? && p.rest == [] && Read(ShapeOf(v), p.value) == Some(v) <==> Clean(ToJson(v))
  {
    RoundTrip(ToJson(v));
    var p := Parse(Print(ToJson(v)));
    if p.Done? {
      ReadExactly(v, p.value);
    }
  }

  /**
   The chunks concatenate to the printed tree; each holds 8192 bytes but the last, which holds at least one. The
   call panics exactly when a string holds 0x1d, 0x1e or 0x1f. It succeeds with a text from which the grammar and
   the type of the value give the value back exactly when no string holds 0x0b or 0x0e to 0x1f; and then the text
   has no white space outside strings.
   */
  method ToStream(v: Value) returns (ok: bool, chunks: seq<seq<byte>>)
    ensures ok <==> Writable(ToJson(v))
    ensures ok ==> Flatten(chunks) == Print(ToJson(v))
    ensures ok ==> forall i :: 0 <= i < |chunks| ==>
              if i < |chunks| - 1 then |chunks[i]| == 8192 else 1 <= |chunks[i]| <= 8192
    ensures var p := Parse(Flatten(chunks));
            ok && p.Done? && p.rest == [] && Read(ShapeOf(v), p.value) == Some(v) <==> Clean(ToJson(v))
    ensures Clean(ToJson(v)) ==> NoSpaces(Outside, Flatten(chunks))
  {
    var ser := new Serializer();
    ok := ser.Serialize(v);
    chunks := [];
    if ok {
      chunks := ser.IntoStream();
      ReadBackExactly(v);
    }
    if Clean(ToJson(v)) {
      CleanIsWritable(ToJson(v));
      PrintIsCompact(ToJson(v));
    }
  }
}
