/** The 45-byte wire record of the warm-up map: node id, IPv4 address, code id, timestamp, liveness. */
module PresenceCodec {
  import opened Bytes
  import opened ByteOrder

  datatype Presence = Presence(id: U128, updatedAt: U64, alive: bool)

  datatype Record = Record(code: U128, addr: U32, node: Presence)

  const RECORD_SIZE := 45

  function Encode(r: Record): (bytes: seq<byte>)
    ensures |bytes| == RECORD_SIZE
  {
    Put(r.node.id, 16) + Put(r.addr, 4) + Put(r.code, 16) + Put(r.node.updatedAt, 8)
    + [if r.node.alive then 1 else 0]
  }

  function Decode(bytes: seq<byte>): (r: Record)
    requires |bytes| == RECORD_SIZE
  {
    Record(Get(bytes[20..36]), Get(bytes[16..20]),
           Presence(Get(bytes[..16]), Get(bytes[36..44]), bytes[44] == 1))
  }

  lemma DecodeEncode(r: Record)
    ensures Decode(Encode(r)) == r
  {
    var bytes := Encode(r);
    assert bytes[..16] == Put(r.node.id, 16);
    assert bytes[16..20] == Put(r.addr, 4);
    assert bytes[20..36] == Put(r.code, 16);
    assert bytes[36..44] == Put(r.node.updatedAt, 8);
    GetPut(r.node.id, 16);
    GetPut(r.addr, 4);
    GetPut(r.code, 16);
    GetPut(r.node.updatedAt, 8);
  }

  /** Where each field lies: any byte of the record is a base-256 digit of its field, most significant first. */
  lemma {:induction false} RecordLayout(r: Record, i: nat)
    ensures i < 16 ==> Encode(r)[15 - i] == Digit(r.node.id, i)
    ensures i < 4 ==> Encode(r)[19 - i] == Digit(r.addr, i)
    ensures i < 16 ==> Encode(r)[35 - i] == Digit(r.code, i)
    ensures i < 8 ==> Encode(r)[43 - i] == Digit(r.node.updatedAt, i)
    ensures Encode(r)[44] == if r.node.alive then 1 else 0
  {
    if i < 16 {
      PutDigit(r.node.id, 16, i);
      PutDigit(r.code, 16, i);
    }
    if i < 8 { PutDigit(r.node.updatedAt, 8, i); }
    if i < 4 { PutDigit(r.addr, 4, i); }
  }

  lemma FieldsOfDecoded(bytes: seq<byte>, flag: byte)
    requires |bytes| == RECORD_SIZE && flag == if bytes[44] == 1 then 1 else 0
    ensures Encode(Decode(bytes)) == bytes[..16] + bytes[16..20] + bytes[20..36] + bytes[36..44] + [flag]
  {
    PutGet(bytes[..16]);
    PutGet(bytes[16..20]);
    PutGet(bytes[20..36]);
    PutGet(bytes[36..44]);
  }

  lemma FiveParts(bytes: seq<byte>)
    requires |bytes| == RECORD_SIZE
    ensures bytes == bytes[..16] + bytes[16..20] + bytes[20..36] + bytes[36..44] + [bytes[44]]
  {
  }

  /** Every 45 bytes decode, but only a liveness byte of 0 or 1 is reproduced: the reader maps all others to "dead". */
  lemma EncodeDecode(bytes: seq<byte>)
    requires |bytes| == RECORD_SIZE
    ensures Encode(Decode(bytes)) == bytes <==> bytes[44] <= 1
  {
    var flag: byte := if bytes[44] == 1 then 1 else 0;
    FieldsOfDecoded(bytes, flag);
    FiveParts(bytes);
    assert Encode(Decode(bytes))[44] == flag;
  }

  /** A message is a run of records; a trailing fragment shorter than a record holds none. */
  function Records(message: seq<byte>): (rs: seq<Record>)
    ensures |rs| == |message| / RECORD_SIZE
  {
    if |message| < RECORD_SIZE then []
    else [Decode(message[..RECORD_SIZE])] + Records(message[RECORD_SIZE..])
  }

  function EncodeAll(rs: seq<Record>): (message: seq<byte>)
    ensures |message| == RECORD_SIZE * |rs|
  {
    if rs == [] then [] else Encode(rs[0]) + EncodeAll(rs[1..])
  }

  /** A message of encoded records reads back as them, and a fragment behind them adds nothing. */
  lemma {:induction false} RecordsBeforeFragment(rs: seq<Record>, fragment: seq<byte>)
    requires |fragment| < 45
    ensures Records(EncodeAll(rs) + fragment) == rs
    decreases |rs|
  {
    if rs == [] {
      assert EncodeAll(rs) + fragment == fragment;
    } else {
      var message := EncodeAll(rs) + fragment;
      assert message[..RECORD_SIZE] == Encode(rs[0]);
      assert message[RECORD_SIZE..] == EncodeAll(rs[1..]) + fragment;
      DecodeEncode(rs[0]);
      RecordsBeforeFragment(rs[1..], fragment);
    }
  }

  lemma {:induction false} RecordsEncodeAll(rs: seq<Record>)
    ensures Records(EncodeAll(rs)) == rs
  {
    RecordsBeforeFragment(rs, []);
    assert EncodeAll(rs) + [] == EncodeAll(rs);
  }

  lemma {:induction false} EncodeAllAppend(rs: seq<Record>, more: seq<Record>)
    ensures EncodeAll(rs + more) == EncodeAll(rs) + EncodeAll(more)
  {
    if rs == [] {
      assert rs + more == more;
    } else {
      assert (rs + more)[1..] == rs[1..] + more;
      EncodeAllAppend(rs[1..], more);
    }
  }
}
