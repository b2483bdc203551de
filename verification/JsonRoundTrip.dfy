/** What the writer prints, the grammar reads back, exactly when no misprinted control byte occurs. */
module JsonRoundTrip {
  import opened Bytes
  import opened JsonText
  import opened JsonParser

  /** Read back in full when clean; otherwise refused, or read as something else. */
  ghost predicate Faithful<T>(p: Parsed<T>, value: T, clean: bool, rest: seq<byte>)
  {
    if clean then p == Done(value, rest) else p.Fail? || p.value != value
  }

  // ---- strings ----

  lemma UnicodeRead(b: byte, r: seq<byte>)
    requires b <= 7
    ensures ParseChar(UnicodeEscape(b) + r) == Done([b], r)
  {
    var digits := [ZERO, ZERO, ZERO, ZERO + b];
    assert (UnicodeEscape(b) + r)[1..] == [0x75] + (digits + r);
    assert ([0x75] + (digits + r))[1..] == digits + r;
    assert (digits + r)[4..] == r;
  }

  lemma CharRoundTrip(b: byte, r: seq<byte>)
    requires !IsMisprinted(b)
    ensures ParseChar(EscapedByte(b) + r) == Done([b], r)
    ensures EscapedByte(b) != [] && EscapedByte(b)[0] != QUOTE
  {
    var text := EscapedByte(b);
    if b <= 7 {
      LowControls(b);
      UnicodeRead(b, r);
    } else if IsShort(b) {
      assert (text + r)[1..] == [ShortEscape(b)] + r;
      assert ([ShortEscape(b)] + r)[1..] == r;
    } else {
      assert (text + r)[1..] == r;
    }
  }

  lemma CharMisprinted(b: byte, r: seq<byte>)
    requires IsMisprinted(b) && !Panics(b)
    ensures EscapedByte(b) != [] && EscapedByte(b)[0] != QUOTE
    ensures var p := ParseChar(EscapedByte(b) + r); p.Done? && p.value[0] != b
  {
    var text := EscapedByte(b);
    if b == 0x0b {
      VerticalTab();
      assert (text + r)[1..][0] == 0x72;
    } else {
      HighControls(b);
      assert text[0] == ZERO + 1;
    }
  }

  lemma {:induction false} CharsRoundTrip(s: seq<byte>, r: seq<byte>)
    requires IsWritable(s)
    ensures Faithful(ParseChars(Escaped(s) + [QUOTE] + r), s, IsClean(s), r)
  {
    if s == [] {
      assert Escaped(s) + [QUOTE] + r == [QUOTE] + r;
      assert ([QUOTE] + r)[1..] == r;
    } else {
      var b := s[0];
      var more := Escaped(s[1..]) + [QUOTE] + r;
      assert Escaped(s) + [QUOTE] + r == EscapedByte(b) + more;
      assert s == [b] + s[1..];
      if IsMisprinted(b) {
        CharMisprinted(b, more);
      } else {
        CharRoundTrip(b, more);
        CharsRoundTrip(s[1..], r);
        CleanTail(s);
      }
    }
  }

  lemma CleanTail(s: seq<byte>)
    requires s != [] && !IsMisprinted(s[0])
    ensures IsClean(s) <==> IsClean(s[1..])
  {
    if IsClean(s[1..]) {
      assert forall i :: 1 <= i < |s| ==> s[i] == s[1..][i - 1];
    }
  }

  // ---- numbers ----

  lemma {:induction false} DigitsRead(n: nat, r: seq<byte>)
    ensures ParseDigits(Digits(n) + r, 0) == ParseDigits(r, n)
  {
    if n < 10 {
      assert ([ZERO + n] + r)[1..] == r;
    } else {
      var last := [ZERO + n % 10];
      assert Digits(n) + r == Digits(n / 10) + (last + r);
      DigitsRead(n / 10, last + r);
      assert (last + r)[1..] == r;
    }
  }

  predicate EndsValue(r: seq<byte>)
  {
    r == [] || r[0] in {COMMA, CLOSE_BRACKET, CLOSE_BRACE}
  }

  lemma {:induction false} NaturalRoundTrip(n: nat, r: seq<byte>)
    requires EndsValue(r)
    ensures ParseNatural(Digits(n) + r) == Done(n, r)
  {
    if n == 0 {
      assert ([ZERO] + r)[1..] == r;
    } else {
      DigitsRead(n, r);
      assert (Digits(n) + r)[0] == Digits(n)[0];
    }
  }

  lemma NegativeRead(digits: seq<byte>, n: nat, r: seq<byte>)
    requires ParseNatural(digits + r) == Done(n, r)
    ensures ParseNumber([MINUS] + digits + r) == Done(JNumber(0 - n), r)
  {
    assert ([MINUS] + digits + r)[1..] == digits + r;
  }

  lemma PositiveRead(digits: seq<byte>, n: nat, r: seq<byte>)
    requires digits != [] && IsDigit(digits[0]) && ParseNatural(digits + r) == Done(n, r)
    ensures ParseNumber(digits + r) == Done(JNumber(n), r)
  {
    assert (digits + r)[0] == digits[0];
  }

  lemma NumberRoundTrip(n: int, r: seq<byte>)
    requires EndsValue(r)
    ensures ParseNumber(Decimal(n) + r) == Done(JNumber(n), r)
  {
    if n < 0 {
      NaturalRoundTrip(-n, r);
      NegativeRead(Digits(-n), -n, r);
    } else {
      NaturalRoundTrip(n, r);
      PositiveRead(Digits(n), n, r);
    }
  }

  // ---- values ----

  /** The first byte of a printed value tells it from white space and from a closing bracket. */
  lemma {:induction false} PrintHead(j: Json, r: seq<byte>)
    ensures Print(j) != []
    ensures !IsSpace(Print(j)[0]) && Print(j)[0] !in {CLOSE_BRACKET, CLOSE_BRACE, COMMA}
    ensures SkipSpace(Print(j) + r) == Print(j) + r
  {
    assert (Print(j) + r)[0] == Print(j)[0];
  }

  lemma {:induction false} StringRoundTrip(s: seq<byte>, r: seq<byte>)
    requires IsWritable(s)
    ensures Faithful(ParseValue(Quoted(s) + r), JString(s), IsClean(s), r)
  {
    var text := Quoted(s) + r;
    assert text[0] == QUOTE && SkipSpace(text) == text;
    assert text[1..] == Escaped(s) + [QUOTE] + r;
    CharsRoundTrip(s, r);
  }

  lemma {:induction false} ScalarRoundTrip(j: Json, r: seq<byte>)
    requires j.JNull? || j.JBool? || j.JNumber?
    requires EndsValue(r)
    ensures ParseValue(Print(j) + r) == Done(j, r)
  {
    var text := Print(j) + r;
    PrintHead(j, r);
    assert text[0] == Print(j)[0];
    assert text[|Print(j)|..] == r && Print(j) <= text;
    if j.JNumber? {
      NumberRoundTrip(j.n, r);
    }
  }

  lemma {:induction false} ArraySteps(t: seq<byte>)
    ensures var p := ParseItems(t);
            ParseValue([OPEN_BRACKET] + t) == if p.Fail? then Fail else Done(JArray(p.value), p.rest)
  {
    assert ([OPEN_BRACKET] + t)[1..] == t;
  }

  lemma {:induction false} ObjectSteps(t: seq<byte>)
    ensures var p := ParseMembers(t);
            ParseValue([OPEN_BRACE] + t) == if p.Fail? then Fail else Done(JObject(p.value), p.rest)
  {
    assert ([OPEN_BRACE] + t)[1..] == t;
  }

  lemma {:induction false} ArrayFaithful(items: seq<Json>, clean: bool, r: seq<byte>)
    requires Faithful(ParseItems(PrintItems(items) + r), items, clean, r)
    ensures Faithful(ParseValue(Print(JArray(items)) + r), JArray(items), clean, r)
  {
    var t := PrintItems(items) + r;
    ArraySteps(t);
    assert Print(JArray(items)) + r == [OPEN_BRACKET] + t;
  }

  lemma {:induction false} ObjectFaithful(members: seq<Member>, clean: bool, r: seq<byte>)
    requires Faithful(ParseMembers(PrintMembers(members) + r), members, clean, r)
    ensures Faithful(ParseValue(Print(JObject(members)) + r), JObject(members), clean, r)
  {
    var t := PrintMembers(members) + r;
    ObjectSteps(t);
    assert Print(JObject(members)) + r == [OPEN_BRACE] + t;
  }

  lemma {:induction false} ValueRoundTrip(j: Json, r: seq<byte>)
    requires Writable(j) && EndsValue(r)
    ensures Faithful(ParseValue(Print(j) + r), j, Clean(j), r)
    decreases j
  {
    match j {
      case JString(s) => StringRoundTrip(s, r);
      case JArray(items) =>
        ItemsRoundTrip(items, r);
        ArrayFaithful(items, Clean(j), r);
      case JObject(members) =>
        MembersRoundTrip(members, r);
        ObjectFaithful(members, Clean(j), r);
      case _ => ScalarRoundTrip(j, r);
    }
  }

  // ---- arrays ----

  lemma {:induction false} ItemsRoundTrip(items: seq<Json>, r: seq<byte>)
    requires AllItems(items, IsWritable)
    ensures Faithful(ParseItems(PrintItems(items) + r), items, AllItems(items, IsClean), r)
    decreases items, 1
  {
    var text := PrintItems(items) + r;
    if items == [] {
      assert text[0] == CLOSE_BRACKET && text[1..] == r;
    } else {
      var more := PrintMoreItems(items[1..]) + r;
      assert text == Print(items[0]) + more;
      PrintHead(items[0], more);
      assert text[0] == Print(items[0])[0];
      ItemAndMoreRoundTrip(items, r);
    }
  }

  lemma {:induction false} ItemAndMoreRoundTrip(items: seq<Json>, r: seq<byte>)
    requires items != [] && AllItems(items, IsWritable)
    ensures Faithful(ParseItemAndMore(Print(items[0]) + (PrintMoreItems(items[1..]) + r)),
                     items, AllItems(items, IsClean), r)
    decreases items, 0
  {
    var more := PrintMoreItems(items[1..]) + r;
    assert EndsValue(more);
    ValueRoundTrip(items[0], more);
    MoreItemsRoundTrip(items[1..], r);
    assert items == [items[0]] + items[1..];
  }

  lemma {:induction false} CommaItem(t: seq<byte>)
    ensures ParseMoreItems([COMMA] + t) == ParseItemAndMore(t)
  {
    assert ([COMMA] + t)[1..] == t;
  }

  lemma {:induction false} MoreItemsRoundTrip(items: seq<Json>, r: seq<byte>)
    requires AllItems(items, IsWritable)
    ensures Faithful(ParseMoreItems(PrintMoreItems(items) + r), items, AllItems(items, IsClean), r)
    decreases items, 1
  {
    var text := PrintMoreItems(items) + r;
    if items == [] {
      assert text[0] == CLOSE_BRACKET && text[1..] == r;
    } else {
      var next := Print(items[0]) + (PrintMoreItems(items[1..]) + r);
      assert text == [COMMA] + next;
      CommaItem(next);
      ItemAndMoreRoundTrip(items, r);
    }
  }

  // ---- objects ----

  ghost predicate CleanMember(m: Member)
  {
    IsClean(m.name) && Clean(m.value)
  }

  lemma {:induction false} MemberSteps(t: seq<byte>)
    ensures var p := ParseChars(t);
            ParseMember([QUOTE] + t) == if p.Fail? then Fail else ParseMemberValue(p.value, p.rest)
  {
    assert ([QUOTE] + t)[1..] == t;
  }

  lemma {:induction false} MemberValueSteps(name: seq<byte>, t: seq<byte>)
    ensures var p := ParseValue(t);
            ParseMemberValue(name, [COLON] + t) == if p.Fail? then Fail else Done(Member(name, p.value), p.rest)
  {
    assert ([COLON] + t)[1..] == t;
  }

  lemma Regroup(a: seq<byte>, b: seq<byte>, c: seq<byte>, d: seq<byte>, e: seq<byte>, r: seq<byte>)
    ensures a + b + c + d + e + r == a + (b + c + (d + (e + r)))
  {
  }

  lemma {:induction false} PrintedMember(m: Member, r: seq<byte>)
    ensures PrintMember(m) + r == [QUOTE] + (Escaped(m.name) + [QUOTE] + ([COLON] + (Print(m.value) + r)))
  {
    Regroup([QUOTE], Escaped(m.name), [QUOTE], [COLON], Print(m.value), r);
  }

  lemma {:induction false} MemberRoundTrip(m: Member, r: seq<byte>)
    requires IsWritable(m.name) && Writable(m.value) && EndsValue(r)
    ensures Faithful(ParseMember(PrintMember(m) + r), m, CleanMember(m), r)
    decreases m, 2
  {
    var value := Print(m.value) + r;
    PrintedMember(m, r);
    MemberSteps(Escaped(m.name) + [QUOTE] + ([COLON] + value));
    CharsRoundTrip(m.name, [COLON] + value);
    MemberValueSteps(m.name, value);
    ValueRoundTrip(m.value, r);
  }

  lemma {:induction false} MembersRoundTrip(members: seq<Member>, r: seq<byte>)
    requires AllMembers(members, IsWritable)
    ensures Faithful(ParseMembers(PrintMembers(members) + r), members, AllMembers(members, IsClean), r)
    decreases members, 1
  {
    var text := PrintMembers(members) + r;
    if members == [] {
      assert text[0] == CLOSE_BRACE && text[1..] == r;
    } else {
      assert text == PrintMember(members[0]) + (PrintMoreMembers(members[1..]) + r);
      assert text[0] == QUOTE && SkipSpace(text) == text;
      MemberAndMoreRoundTrip(members, r);
    }
  }

  lemma {:induction false} MemberAndMoreRoundTrip(members: seq<Member>, r: seq<byte>)
    requires members != [] && AllMembers(members, IsWritable)
    ensures Faithful(ParseMemberAndMore(PrintMember(members[0]) + (PrintMoreMembers(members[1..]) + r)),
                     members, AllMembers(members, IsClean), r)
    decreases members, 0
  {
    var more := PrintMoreMembers(members[1..]) + r;
    assert EndsValue(more);
    MemberRoundTrip(members[0], more);
    MoreMembersRoundTrip(members[1..], r);
    assert members == [members[0]] + members[1..];
  }

  lemma {:induction false} CommaMember(t: seq<byte>)
    ensures ParseMoreMembers([COMMA] + t) == ParseMemberAndMore(t)
  {
    assert ([COMMA] + t)[1..] == t;
  }

  lemma {:induction false} MoreMembersRoundTrip(members: seq<Member>, r: seq<byte>)
    requires AllMembers(members, IsWritable)
    ensures Faithful(ParseMoreMembers(PrintMoreMembers(members) + r), members, AllMembers(members, IsClean), r)
    decreases members, 1
  {
    var text := PrintMoreMembers(members) + r;
    if members == [] {
      assert text[0] == CLOSE_BRACE && text[1..] == r;
    } else {
      var next := PrintMember(members[0]) + (PrintMoreMembers(members[1..]) + r);
      assert text == [COMMA] + next;
      CommaMember(next);
      MemberAndMoreRoundTrip(members, r);
    }
  }

  /**
   A tree that can be printed is read back as itself, the whole text consumed, if and only if none of its
   strings and names holds 0x0b or 0x0e to 0x1f.
   */
  lemma {:induction false} RoundTrip(j: Json)
    requires Writable(j)
    ensures Parse(Print(j)) == Done(j, []) <==> Clean(j)
  {
    ValueRoundTrip(j, []);
    assert Print(j) + [] == Print(j);
  }
}
