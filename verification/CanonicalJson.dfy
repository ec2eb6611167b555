/** Canonical JSON: every object's keys in sorted order, at every level of nesting.

    Objects keep their members in insertion order, which is the case the canonical form is
    there to neutralise; a repeated key means its last value. */
module CanonicalJson {
  import opened Texts
  import Json

  datatype Value =
    | Null
    | Bool(b: bool)
    | Number(text: string)
    | Str(s: string)
    | Arr(items: seq<Value>)
    | Obj(members: seq<Member>)

  datatype Member = Member(key: string, value: Value)

  /** Puts a member into a sorted table, over the one with the same key if there is one. */
  function InsertMember(table: seq<Member>, m: Member): seq<Member> {
    if table == [] || TextLess(m.key, table[0].key) then [m] + table
    else if m.key == table[0].key then [m] + table[1..]
    else [table[0]] + InsertMember(table[1..], m)
  }

  function SortKeys(v: Value): Value {
    match v
    case Obj(members) => Obj(SortMembers(members))
    case Arr(items) => Arr(seq(|items|, i requires 0 <= i < |items| => SortKeys(items[i])))
    case _ => v
  }

  function SortMembers(members: seq<Member>): seq<Member> {
    if members == [] then []
    else
      var last := members[|members| - 1];
      InsertMember(SortMembers(members[..|members| - 1]), Member(last.key, SortKeys(last.value)))
  }

  // ---------- What a value means ----------

  /** The value with its objects as tables, which have no order. */
  function Meaning(v: Value): Json.Json {
    match v
    case Null => Json.Null
    case Bool(b) => Json.Bool(b)
    case Number(text) => Json.Number(text)
    case Str(s) => Json.Str(s)
    case Arr(items) => Json.Arr(seq(|items|, i requires 0 <= i < |items| => Meaning(items[i])))
    case Obj(members) => Json.Obj(Table(members))
  }

  function Table(members: seq<Member>): map<string, Json.Json> {
    if members == [] then map[]
    else map[members[0].key := Meaning(members[0].value)] + Table(members[1..])
  }

  // ---------- Sorted values ----------

  ghost predicate SortedMembers(members: seq<Member>) {
    members != [] ==>
      && SortedMembers(members[1..])
      && (|members| > 1 ==> TextLess(members[0].key, members[1].key))
  }

  ghost predicate SortedDeep(v: Value) {
    match v
    case Obj(members) => SortedMembers(members) && forall i :: 0 <= i < |members| ==> SortedDeep(members[i].value)
    case Arr(items) => forall i :: 0 <= i < |items| ==> SortedDeep(items[i])
    case _ => true
  }

  lemma {:induction false} KeysAfterHead(members: seq<Member>, k: string)
    requires SortedMembers(members) && members != [] && k in Table(members[1..])
    ensures TextLess(members[0].key, k) && k != members[0].key
  {
    var rest := members[1..];
    if k != rest[0].key {
      KeysAfterHead(rest, k);
      TextLessTransitive(members[0].key, rest[0].key, k);
    }
    TextLessTotal(k, k);
  }

  lemma TableCons(h: Member, rest: seq<Member>)
    ensures Table([h] + rest) == map[h.key := Meaning(h.value)] + Table(rest)
  {
    assert ([h] + rest)[1..] == rest;
  }

  /** Laws of tables: a later entry goes in over what is there, and entries with other keys
      do not get in its way. */
  lemma UpdateBehind<K, V>(a: K, x: V, m: map<K, V>, k: K, v: V)
    ensures (map[a := x] + m)[k := v] == map[a := x] + m[k := v]
  {
  }

  lemma UpdateInFront<K, V>(m: map<K, V>, k: K, v: V)
    requires k !in m
    ensures m[k := v] == map[k := v] + m
    ensures forall x :: (map[k := x] + m)[k := v] == map[k := v] + m
  {
  }

  lemma {:induction false} TableSnoc(members: seq<Member>, m: Member)
    ensures Table(members + [m]) == Table(members)[m.key := Meaning(m.value)]
  {
    if members == [] {
      assert members + [m] == [m] + [];
      TableCons(m, []);
    } else {
      TableSnoc(members[1..], m);
      assert members + [m] == [members[0]] + (members[1..] + [m]);
      TableCons(members[0], members[1..] + [m]);
      UpdateBehind(members[0].key, Meaning(members[0].value), Table(members[1..]), m.key, Meaning(m.value));
    }
  }

  lemma {:induction false} InsertMemberSorted(table: seq<Member>, m: Member)
    requires SortedMembers(table)
    ensures SortedMembers(InsertMember(table, m))
  {
    if table != [] {
      TextLessTotal(m.key, table[0].key);
      if TextLess(m.key, table[0].key) {
        assert ([m] + table)[1..] == table;
      } else if m.key == table[0].key {
        assert ([m] + table[1..])[1..] == table[1..];
      } else {
        var rest := InsertMember(table[1..], m);
        InsertMemberSorted(table[1..], m);
        assert ([table[0]] + rest)[1..] == rest;
        assert rest[0] == m || rest[0] == table[1];
      }
    }
  }

  lemma {:induction false} InsertMemberTable(table: seq<Member>, m: Member)
    requires SortedMembers(table)
    ensures Table(InsertMember(table, m)) == Table(table)[m.key := Meaning(m.value)]
  {
    if table == [] {
      TableCons(m, []);
    } else {
      var h, rest := table[0], table[1..];
      assert table == [h] + rest;
      TableCons(h, rest);
      TextLessTotal(m.key, h.key);
      if TextLess(m.key, h.key) {
        KeyBelowIsAbsent(table, m.key);
        TableCons(m, table);
        UpdateInFront(Table(table), m.key, Meaning(m.value));
      } else if m.key == h.key {
        KeyOfHeadIsElsewhereAbsent(table);
        TableCons(m, rest);
        UpdateInFront(Table(rest), m.key, Meaning(m.value));
      } else {
        InsertMemberTable(rest, m);
        TableCons(h, InsertMember(rest, m));
        UpdateBehind(h.key, Meaning(h.value), Table(rest), m.key, Meaning(m.value));
      }
    }
  }

  lemma KeyBelowIsAbsent(members: seq<Member>, k: string)
    requires SortedMembers(members) && members != [] && TextLess(k, members[0].key)
    ensures k !in Table(members)
  {
    if k in Table(members) {
      HeadIsLeastKey(members, k);
    }
  }

  lemma KeyOfHeadIsElsewhereAbsent(members: seq<Member>)
    requires SortedMembers(members) && members != []
    ensures members[0].key !in Table(members[1..])
  {
    if members[0].key in Table(members[1..]) {
      KeysAfterHead(members, members[0].key);
    }
  }

  lemma {:induction false} InsertMemberMembers(table: seq<Member>, m: Member)
    ensures forall x :: x in InsertMember(table, m) ==> x == m || x in table
  {
    if table != [] && m.key != table[0].key && !TextLess(m.key, table[0].key) {
      InsertMemberMembers(table[1..], m);
    }
  }

  lemma HeadIsLeastKey(members: seq<Member>, k: string)
    requires SortedMembers(members) && k in Table(members)
    ensures members[0].key == k || TextLess(members[0].key, k)
    ensures !TextLess(k, members[0].key)
  {
    if k in Table(members[1..]) {
      KeysAfterHead(members, k);
    }
    TextLessTotal(k, members[0].key);
  }

  /** Sorting changes no value, only the order of members, and leaves every object sorted. */
  lemma {:induction false} SortKeysKeepsMeaning(v: Value)
    ensures Meaning(SortKeys(v)) == Meaning(v)
    ensures SortedDeep(SortKeys(v))
  {
    match v
    case Obj(members) => SortMembersKeepsTable(members);
    case Arr(items) =>
      forall i | 0 <= i < |items|
        ensures Meaning(SortKeys(items[i])) == Meaning(items[i]) && SortedDeep(SortKeys(items[i]))
      {
        SortKeysKeepsMeaning(items[i]);
      }
      assert Meaning(SortKeys(v)).items == Meaning(v).items;
    case _ =>
  }

  lemma {:induction false} SortMembersKeepsTable(members: seq<Member>)
    ensures Table(SortMembers(members)) == Table(members)
    ensures SortedMembers(SortMembers(members))
    ensures forall x :: x in SortMembers(members) ==> SortedDeep(x.value)
  {
    if members != [] {
      var last := members[|members| - 1];
      var front := members[..|members| - 1];
      assert members == front + [last];
      SortMembersKeepsTable(front);
      SortKeysKeepsMeaning(last.value);
      InsertMemberSorted(SortMembers(front), Member(last.key, SortKeys(last.value)));
      InsertMemberTable(SortMembers(front), Member(last.key, SortKeys(last.value)));
      InsertMemberMembers(SortMembers(front), Member(last.key, SortKeys(last.value)));
      TableSnoc(front, last);
    }
  }

  // ---------- One form for each meaning ----------

  lemma {:induction false} SortedIsUnique(v: Value, w: Value)
    requires SortedDeep(v) && SortedDeep(w) && Meaning(v) == Meaning(w)
    ensures v == w
  {
    match v
    case Obj(members) => SortedMembersUnique(members, w.members);
    case Arr(items) =>
      var m := Meaning(v).items;
      forall i | 0 <= i < |items|
        ensures items[i] == w.items[i]
      {
        assert m[i] == Meaning(items[i]) && Meaning(w).items[i] == Meaning(w.items[i]);
        SortedIsUnique(items[i], w.items[i]);
      }
    case _ =>
  }

  lemma EmptyTable(s: seq<Member>)
    ensures Table(s) == map[] <==> s == []
  {
    if s != [] {
      assert s[0].key in Table(s);
    }
  }

  lemma {:induction false} SortedMembersUnique(s: seq<Member>, t: seq<Member>)
    requires SortedMembers(s) && SortedMembers(t) && Table(s) == Table(t)
    requires forall i :: 0 <= i < |s| ==> SortedDeep(s[i].value)
    requires forall i :: 0 <= i < |t| ==> SortedDeep(t[i].value)
    ensures s == t
  {
    EmptyTable(s);
    EmptyTable(t);
    if s != [] {
      assert s[0].key in Table(s) && t[0].key in Table(t);
      HeadIsLeastKey(t, s[0].key);
      HeadIsLeastKey(s, t[0].key);
      TextLessTotal(s[0].key, t[0].key);
      var k := s[0].key;
      HeadOfTable(s);
      HeadOfTable(t);
      SortedIsUnique(s[0].value, t[0].value);
      SortedMembersUnique(s[1..], t[1..]);
      assert s == [s[0]] + s[1..] && t == [t[0]] + t[1..];
    }
  }

  lemma HeadOfTable(s: seq<Member>)
    requires SortedMembers(s) && s != []
    ensures Table(s)[s[0].key] == Meaning(s[0].value)
    ensures Table(s[1..]) == Table(s) - {s[0].key}
  {
    if s[0].key in Table(s[1..]) {
      KeysAfterHead(s, s[0].key);
    }
  }

  /** The canonical form decides equality up to key order at every level. */
  lemma SameFormIffSameMeaning(v: Value, w: Value)
    ensures SortKeys(v) == SortKeys(w) <==> Meaning(v) == Meaning(w)
  {
    SortKeysKeepsMeaning(v);
    SortKeysKeepsMeaning(w);
    if Meaning(v) == Meaning(w) {
      SortedIsUnique(SortKeys(v), SortKeys(w));
    }
  }

  lemma SortKeysIsIdempotent(v: Value)
    ensures SortKeys(SortKeys(v)) == SortKeys(v)
    ensures SortKeys(v) == v <==> SortedDeep(v)
  {
    SortKeysKeepsMeaning(v);
    SameFormIffSameMeaning(SortKeys(v), v);
    if SortedDeep(v) {
      SortedIsUnique(SortKeys(v), v);
    }
  }
}
