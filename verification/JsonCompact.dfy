/** The printed text holds no white space outside strings. */
module JsonCompact {
  import opened Bytes
  import opened JsonText

  /** Where a reader of the text is with respect to strings. */
  datatype Place = Outside | Inside | AfterBackslash

  function NextPlace(place: Place, b: byte): (place': Place)
  {
    match place
    case Outside => if b == 0x22 then Inside else Outside
    case Inside => if b == 0x22 then Outside else if b == 0x5c then AfterBackslash else Inside
    case AfterBackslash => Inside
  }

  function PlaceAfter(place: Place, text: seq<byte>): (place': Place)
    decreases |text|
  {
    if text == [] then place else PlaceAfter(NextPlace(place, text[0]), text[1..])
  }

  /** No byte outside a string is a space, a tab, a line feed or a carriage return. */
  predicate NoSpaces(place: Place, text: seq<byte>)
    decreases |text|
  {
    text == []
    || ((place == Outside ==> text[0] !in {0x20, 0x09, 0x0a, 0x0d}) && NoSpaces(NextPlace(place, text[0]), text[1..]))
  }

  ghost predicate Leads(text: seq<byte>, place: Place, place': Place)
  {
    NoSpaces(place, text) && PlaceAfter(place, text) == place'
  }

  lemma {:induction false} LeadsOn(a: seq<byte>, b: seq<byte>, p: Place, q: Place, r: Place)
    requires Leads(a, p, q) && Leads(b, q, r)
    ensures Leads(a + b, p, r)
    decreases |a|
  {
    if a == [] {
      assert a + b == b;
    } else {
      assert (a + b)[0] == a[0] && (a + b)[1..] == a[1..] + b;
      LeadsOn(a[1..], b, NextPlace(p, a[0]), q, r);
    }
  }

  lemma LeadsOne(b: byte, p: Place)
    requires p == Outside ==> b !in {0x20, 0x09, 0x0a, 0x0d}
    ensures Leads([b], p, NextPlace(p, b))
  {
    assert [b][1..] == [];
  }

  // ---- strings ----

  lemma LeadsTwo(a: byte, b: byte)
    requires a == 0x5c
    ensures Leads([a, b], Inside, Inside)
  {
    LeadsOne(a, Inside);
    LeadsOne(b, AfterBackslash);
    LeadsOn([a], [b], Inside, AfterBackslash, Inside);
    assert [a] + [b] == [a, b];
  }

  lemma {:induction false} LeadsPlain(text: seq<byte>)
    requires forall i :: 0 <= i < |text| ==> text[i] != 0x22 && text[i] != 0x5c
    ensures Leads(text, Inside, Inside)
    decreases |text|
  {
    if text != [] {
      LeadsPlain(text[1..]);
    }
  }

  lemma CharStaysInside(b: byte)
    requires !IsMisprinted(b)
    ensures Leads(EscapedByte(b), Inside, Inside)
  {
    EscapesExactly(b);
    if b < 8 {
      LeadsTwo(0x5c, 0x75);
      LeadsPlain([0x30, 0x30, 0x30, 0x30 + b]);
      LeadsOn([0x5c, 0x75], [0x30, 0x30, 0x30, 0x30 + b], Inside, Inside, Inside);
      assert EscapedByte(b) == [0x5c, 0x75] + [0x30, 0x30, 0x30, 0x30 + b];
    } else if IsShort(b) {
      LeadsTwo(0x5c, ShortEscape(b));
    } else {
      LeadsOne(b, Inside);
    }
  }

  lemma {:induction false} CharsStayInside(s: seq<byte>)
    requires IsClean(s)
    ensures Leads(Escaped(s), Inside, Inside)
    decreases |s|
  {
    if s != [] {
      CharStaysInside(s[0]);
      CharsStayInside(s[1..]);
      LeadsOn(EscapedByte(s[0]), Escaped(s[1..]), Inside, Inside, Inside);
    }
  }

  lemma QuotedIsCompact(s: seq<byte>)
    requires IsClean(s)
    ensures Leads(Quoted(s), Outside, Outside)
  {
    CharsStayInside(s);
    LeadsOne(0x22, Outside);
    LeadsOne(0x22, Inside);
    LeadsOn([QUOTE], Escaped(s), Outside, Inside, Inside);
    LeadsOn([QUOTE] + Escaped(s), [QUOTE], Outside, Inside, Outside);
  }

  // ---- everything else ----

  ghost predicate IsBare(text: seq<byte>)
  {
    forall i :: 0 <= i < |text| ==> text[i] != 0x22 && text[i] !in {0x20, 0x09, 0x0a, 0x0d}
  }

  lemma {:induction false} BareIsCompact(text: seq<byte>)
    requires IsBare(text)
    ensures Leads(text, Outside, Outside)
    decreases |text|
  {
    if text != [] {
      BareIsCompact(text[1..]);
    }
  }

  lemma {:induction false} DigitsAreBare(n: nat)
    ensures IsBare(Digits(n))
  {
    if n >= 10 {
      DigitsAreBare(n / 10);
    }
  }

  lemma NumberIsCompact(n: int)
    ensures Leads(Decimal(n), Outside, Outside)
  {
    DigitsAreBare(if n < 0 then -n else n);
    BareIsCompact(Decimal(n));
  }

  /** Two compact texts in a row. */
  lemma Both(a: seq<byte>, b: seq<byte>)
    requires Leads(a, Outside, Outside) && Leads(b, Outside, Outside)
    ensures Leads(a + b, Outside, Outside)
  {
    LeadsOn(a, b, Outside, Outside, Outside);
  }

  lemma Mark(b: byte)
    requires b in {0x2c, 0x3a, 0x5b, 0x5d, 0x7b, 0x7d}
    ensures Leads([b], Outside, Outside)
  {
    LeadsOne(b, Outside);
  }

  /** The printed text of a clean tree holds no white space outside strings, and closes every string. */
  lemma {:induction false} PrintIsCompact(j: Json)
    requires Clean(j)
    ensures Leads(Print(j), Outside, Outside)
    decreases j
  {
    match j {
      case JNull => BareIsCompact(Print(j));
      case JBool(_) => BareIsCompact(Print(j));
      case JNumber(n) => NumberIsCompact(n);
      case JString(s) => QuotedIsCompact(s);
      case JArray(items) =>
        ItemsAreCompact(items);
        Mark(OPEN_BRACKET);
        Both([OPEN_BRACKET], PrintItems(items));
      case JObject(members) =>
        MembersAreCompact(members);
        Mark(OPEN_BRACE);
        Both([OPEN_BRACE], PrintMembers(members));
    }
  }

  lemma {:induction false} ItemsAreCompact(items: seq<Json>)
    requires AllItems(items, IsClean)
    ensures Leads(PrintItems(items), Outside, Outside) && Leads(PrintMoreItems(items), Outside, Outside)
    decreases items
  {
    Mark(CLOSE_BRACKET);
    Mark(COMMA);
    if items != [] {
      PrintIsCompact(items[0]);
      ItemsAreCompact(items[1..]);
      Both(Print(items[0]), PrintMoreItems(items[1..]));
      Both([COMMA], Print(items[0]));
      Both([COMMA] + Print(items[0]), PrintMoreItems(items[1..]));
    }
  }

  lemma {:induction false} MemberIsCompact(m: Member)
    requires IsClean(m.name) && Clean(m.value)
    ensures Leads(PrintMember(m), Outside, Outside)
    decreases m
  {
    QuotedIsCompact(m.name);
    Mark(COLON);
    PrintIsCompact(m.value);
    Both(Quoted(m.name), [COLON]);
    Both(Quoted(m.name) + [COLON], Print(m.value));
  }

  lemma {:induction false} MembersAreCompact(members: seq<Member>)
    requires AllMembers(members, IsClean)
    ensures Leads(PrintMembers(members), Outside, Outside) && Leads(PrintMoreMembers(members), Outside, Outside)
    decreases members
  {
    Mark(CLOSE_BRACE);
    Mark(COMMA);
    if members != [] {
      MemberIsCompact(members[0]);
      MembersAreCompact(members[1..]);
      Both(PrintMember(members[0]), PrintMoreMembers(members[1..]));
      Both([COMMA], PrintMember(members[0]));
      Both([COMMA] + PrintMember(members[0]), PrintMoreMembers(members[1..]));
    }
  }
}
