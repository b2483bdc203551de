/** Presences by code id and address, and the list of records such a table holds in (code id, address) order. */
module PresenceTable {
  import opened ByteOrder
  import opened Options
  import opened PresenceCodec

  /** A presence set is keyed by address, because presences compare by address alone. */
  type PresenceSet = map<U32, Presence>
  type Table = map<U128, PresenceSet>

  function Lookup(t: Table, code: U128, addr: U32): (entry: Option<Presence>)
  {
    if code in t && addr in t[code] then Some(t[code][addr]) else None
  }

  predicate Holds(t: Table, r: Record)
  {
    Lookup(t, r.code, r.addr) == Some(r.node)
  }

  function Insert(t: Table, r: Record): (t': Table)
    ensures t'.Keys == t.Keys + {r.code}
    ensures forall code, addr ::
              Lookup(t', code, addr) ==
              if code == r.code && addr == r.addr then Some(r.node) else Lookup(t, code, addr)
  {
    t[r.code := (if r.code in t then t[r.code] else map[])[r.addr := r.node]]
  }

  ghost predicate NoEmptySet(t: Table)
  {
    forall code :: code in t ==> t[code] != map[]
  }

  lemma EqualTables(t: Table, u: Table)
    requires t.Keys == u.Keys
    requires forall code, addr :: Lookup(t, code, addr) == Lookup(u, code, addr)
    ensures t == u
  {
    forall code | code in t
      ensures t[code] == u[code]
    {
      forall addr: U32
        ensures addr in t[code] <==> addr in u[code]
        ensures addr in t[code] ==> t[code][addr] == u[code][addr]
      {
        assert Lookup(t, code, addr) == Lookup(u, code, addr);
      }
    }
  }

  // ---- iteration order ----

  lemma {:induction false} FindLeast(s: set<nat>) returns (m: nat)
    requires s != {}
    ensures m in s && forall x :: x in s ==> m <= x
  {
    m :| m in s;
    var rest := s - {m};
    assert forall x :: x in s <==> x == m || x in rest;
    if rest != {} {
      var n := FindLeast(rest);
      m := if m <= n then m else n;
    }
  }

  lemma LeastExists(s: set<nat>)
    requires s != {}
    ensures exists m :: m in s && forall x :: x in s ==> m <= x
  {
    var m := FindLeast(s);
  }

  function Least(s: set<nat>): (m: nat)
    requires s != {}
    ensures m in s && forall x :: x in s ==> m <= x
  {
    LeastExists(s);
    var m :| m in s && forall x :: x in s ==> m <= x;
    m
  }

  function SetRecords(code: U128, nodes: PresenceSet): (rs: seq<Record>)
    decreases nodes.Keys
  {
    if nodes == map[] then [] else
    var addr := Least(nodes.Keys);
    [Record(code, addr, nodes[addr])] + SetRecords(code, nodes - {addr})
  }

  /** The records of a table in the order a nested ordered-map iteration visits them. */
  function TableRecords(t: Table): (rs: seq<Record>)
    decreases t.Keys
  {
    if t == map[] then [] else
    var code := Least(t.Keys);
    SetRecords(code, t[code]) + TableRecords(t - {code})
  }

  predicate Before(r: Record, s: Record)
  {
    r.code < s.code || (r.code == s.code && r.addr < s.addr)
  }

  ghost predicate Ascending(rs: seq<Record>)
  {
    forall i, j :: 0 <= i < j < |rs| ==> Before(rs[i], rs[j])
  }

  lemma {:induction false} SetRecordsOrdered(code: U128, nodes: PresenceSet)
    ensures Ascending(SetRecords(code, nodes))
    ensures forall r :: r in SetRecords(code, nodes) <==> r.code == code && r.addr in nodes && nodes[r.addr] == r.node
    decreases nodes.Keys
  {
    if nodes != map[] {
      var addr := Least(nodes.Keys);
      SetRecordsOrdered(code, nodes - {addr});
    }
  }

  /** The record list is the table: strictly ascending, and its members are exactly the entries. */
  lemma {:induction false} TableRecordsExact(t: Table)
    ensures Ascending(TableRecords(t))
    ensures forall r :: r in TableRecords(t) <==> Holds(t, r)
    decreases t.Keys
  {
    if t != map[] {
      var code := Least(t.Keys);
      var rest := t - {code};
      var first, others := SetRecords(code, t[code]), TableRecords(rest);
      SetRecordsOrdered(code, t[code]);
      TableRecordsExact(rest);
      forall i, j | 0 <= i < |first| && 0 <= j < |others|
        ensures Before(first[i], others[j])
      {
        assert first[i] in first && others[j] in others;
        assert Holds(rest, others[j]);
      }
      forall r: Record
        ensures r in TableRecords(t) <==> Holds(t, r)
      {
        assert r in TableRecords(t) <==> r in first || r in others;
        assert r in others <==> Holds(rest, r);
      }
    }
  }

  /** Two strictly ascending lists with the same members are the same list. */
  lemma {:induction false} AscendingUnique(rs: seq<Record>, ss: seq<Record>)
    requires Ascending(rs) && Ascending(ss)
    requires forall r :: r in rs <==> r in ss
    ensures rs == ss
  {
    assert ss == [] || ss[0] in ss;
    if rs != [] {
      assert rs[0] in ss;
      assert ss[0] in rs;
      assert rs[0] == ss[0];
      forall r: Record
        ensures r in rs[1..] <==> r in ss[1..]
      {
        assert r in rs <==> r == rs[0] || r in rs[1..];
        assert r in ss <==> r == ss[0] || r in ss[1..];
        assert rs[0] !in rs[1..];
        assert ss[0] !in ss[1..];
      }
      AscendingUnique(rs[1..], ss[1..]);
    }
  }

  /** The table with exactly these records and no empty set. */
  function FromRecords(rs: seq<Record>): (t: Table)
    ensures NoEmptySet(t)
  {
    if rs == [] then map[] else
    var rest := FromRecords(rs[1..]);
    var t := Insert(rest, rs[0]);
    assert rs[0].addr in t[rs[0].code];
    t
  }

  lemma HeadComesFirst(rs: seq<Record>, r: Record)
    requires Ascending(rs) && rs != [] && r in rs[1..]
    ensures Before(rs[0], r)
  {
    var i :| 0 <= i < |rs[1..]| && rs[1..][i] == r;
    assert rs[i + 1] == r;
  }

  lemma {:induction false} FromRecordsLookup(rs: seq<Record>, code: U128, addr: U32)
    requires Ascending(rs)
    ensures forall node :: Lookup(FromRecords(rs), code, addr) == Some(node) <==> Record(code, addr, node) in rs
  {
    if rs != [] {
      FromRecordsLookup(rs[1..], code, addr);
      forall node: Presence
        ensures Lookup(FromRecords(rs), code, addr) == Some(node) <==> Record(code, addr, node) in rs
      {
        var r := Record(code, addr, node);
        assert r in rs <==> r == rs[0] || r in rs[1..];
        if r in rs[1..] {
          HeadComesFirst(rs, r);
        }
      }
    }
  }

  /** Listing and rebuilding are inverse, on ascending lists and on tables without empty sets. */
  lemma {:induction false} FromRecordsInverse(rs: seq<Record>)
    requires Ascending(rs)
    ensures TableRecords(FromRecords(rs)) == rs
  {
    var t := FromRecords(rs);
    TableRecordsExact(t);
    forall r: Record
      ensures r in TableRecords(t) <==> r in rs
    {
      FromRecordsLookup(rs, r.code, r.addr);
    }
    AscendingUnique(TableRecords(t), rs);
  }

  lemma CodesOfNoEmptySet(t: Table, code: U128)
    requires NoEmptySet(t)
    ensures code in t <==> exists addr :: Lookup(t, code, addr).Some?
  {
    if code in t {
      var addr :| addr in t[code];
      assert Lookup(t, code, addr).Some?;
    }
  }

  lemma {:induction false} TableRecordsInverse(t: Table)
    requires NoEmptySet(t)
    ensures FromRecords(TableRecords(t)) == t
  {
    var rs := TableRecords(t);
    var u := FromRecords(rs);
    forall code: U128, addr: U32
      ensures Lookup(u, code, addr) == Lookup(t, code, addr)
    {
      TableRecordsExact(t);
      FromRecordsLookup(rs, code, addr);
      var entry, rebuilt := Lookup(t, code, addr), Lookup(u, code, addr);
      assert entry.Some? ==> Record(code, addr, entry.value) in rs;
      assert rebuilt.Some? ==> Record(code, addr, rebuilt.value) in rs;
    }
    forall code: U128
      ensures code in u <==> code in t
    {
      CodesOfNoEmptySet(t, code);
      CodesOfNoEmptySet(u, code);
    }
    EqualTables(u, t);
  }
}
