/** Row keys: namespace, two length-prefixed names, primary key (internal/bridge/encoding/encoding.go). */
module RowKeys {
  import opened ByteStrings
  import opened KeyErrors

  const NAMESPACE_USER: byte := 1
  const MAX_NAME: nat := 0xFFFF

  predicate ValidNames(db: Bytes, table: Bytes) {
    0 < |db| <= MAX_NAME && 0 < |table| <= MAX_NAME && 0 !in db && 0 !in table
  }

  function NameError(db: Bytes, table: Bytes): KeyError
    requires !ValidNames(db, table)
  {
    if db == [] || table == [] then ErrNameEmpty
    else if |db| > MAX_NAME || |table| > MAX_NAME then ErrNameTooLong
    else ErrNulInString
  }

  /** A name behind its length on two bytes. */
  function Prefixed(name: Bytes): Bytes
    requires |name| <= MAX_NAME
  {
    BigEndian(|name|, 2) + name
  }

  function ScanPrefix(db: Bytes, table: Bytes): Bytes
    requires ValidNames(db, table)
  {
    [NAMESPACE_USER] + Prefixed(db) + Prefixed(table)
  }

  method EncodeScanPrefix(db: Bytes, table: Bytes) returns (res: Result<Bytes>)
    ensures res == if ValidNames(db, table) then Success(ScanPrefix(db, table)) else Failure(NameError(db, table))
    ensures res == Failure(ErrNameEmpty) <==> db == [] || table == []
    ensures res == Failure(ErrNameTooLong) <==> db != [] && table != [] && (|db| > 0xFFFF || |table| > 0xFFFF)
    ensures res == Failure(ErrNulInString) <==> 0 < |db| <= 0xFFFF && 0 < |table| <= 0xFFFF && (0 in db || 0 in table)
  {
    if db == [] || table == [] {
      return Failure(ErrNameEmpty);
    }
    if |db| > MAX_NAME {
      return Failure(ErrNameTooLong);
    }
    if |table| > MAX_NAME {
      return Failure(ErrNameTooLong);
    }
    if 0 in db || 0 in table {
      return Failure(ErrNulInString);
    }
    var buf: Bytes := [NAMESPACE_USER];
    buf := buf + BigEndian(|db|, 2);
    buf := buf + db;
    buf := buf + BigEndian(|table|, 2);
    buf := buf + table;
    assert buf == ScanPrefix(db, table);
    return Success(buf);
  }

  /** The prefix byte by byte. */
  lemma PrefixLayout(db: Bytes, table: Bytes)
    requires ValidNames(db, table)
    ensures ScanPrefix(db, table) == [1, |db| / 256, |db| % 256] + db + [|table| / 256, |table| % 256] + table
  {
    TwoBytes(|db|);
    TwoBytes(|table|);
    hide BigEndian;
  }

  lemma TwoBytes(n: nat)
    requires n < 0x1_0000
    ensures BigEndian(n, 2) == [n / 256, n % 256]
  {
    assert BigEndian(n / 256, 1) == BigEndian(n / 256 / 256, 0) + [n / 256 % 256];
  }

  function RowKey(db: Bytes, table: Bytes, pk: Bytes): Bytes
    requires ValidNames(db, table)
  {
    ScanPrefix(db, table) + pk
  }

  // ------------------------------------------------------------------ tables stay apart

  /** A length-prefixed name can be read off whatever follows it. */
  lemma PrefixedIsInjective(a: Bytes, x: Bytes, b: Bytes, y: Bytes)
    requires |a| <= MAX_NAME && |b| <= MAX_NAME
    ensures Prefixed(a) + x == Prefixed(b) + y <==> a == b && x == y
  {
    assert Pow256(2) == 0x1_0000;
    var l, r := Prefixed(a) + x, Prefixed(b) + y;
    if l == r {
      assert l[..2] == BigEndian(|a|, 2) && r[..2] == BigEndian(|b|, 2);
      BigEndianOrder(|a|, |b|, 2);
      assert l[2..2 + |a|] == a && r[2..2 + |b|] == b;
      assert l[2 + |a|..] == x && r[2 + |b|..] == y;
    }
  }

  lemma ScanPrefixIsInjective(db: Bytes, table: Bytes, x: Bytes, db': Bytes, table': Bytes, y: Bytes)
    requires ValidNames(db, table) && ValidNames(db', table')
    ensures ScanPrefix(db, table) + x == ScanPrefix(db', table') + y <==> db == db' && table == table' && x == y
  {
    var u, v := Prefixed(db) + (Prefixed(table) + x), Prefixed(db') + (Prefixed(table') + y);
    assert ScanPrefix(db, table) + x == [NAMESPACE_USER] + u && ScanPrefix(db', table') + y == [NAMESPACE_USER] + v;
    assert ([NAMESPACE_USER] + u)[1..] == u && ([NAMESPACE_USER] + v)[1..] == v;
    PrefixedIsInjective(db, Prefixed(table) + x, db', Prefixed(table') + y);
    PrefixedIsInjective(table, x, table', y);
  }

  /** A scan over one table meets exactly that table's rows: its prefix begins no other table's keys. */
  lemma ScanMeetsOnlyItsTable(db: Bytes, table: Bytes, db': Bytes, table': Bytes, pk: Bytes)
    requires ValidNames(db, table) && ValidNames(db', table')
    ensures HasPrefix(RowKey(db', table', pk), ScanPrefix(db, table)) <==> db == db' && table == table'
  {
    var k, p := RowKey(db', table', pk), ScanPrefix(db, table);
    if HasPrefix(k, p) {
      assert k == p + k[|p|..];
      ScanPrefixIsInjective(db, table, k[|p|..], db', table', pk);
    }
  }

  // ------------------------------------------------------------------ decoding

  datatype Parts = Parts(db: Bytes, table: Bytes, pk: Bytes)
  datatype Name = Missing | Found(name: Bytes)

  /** A length-prefixed name at the front, when all of it is there. */
  function NameOf(b: Bytes): Name {
    if |b| < 2 || 2 + FromBigEndian(b[..2]) > |b| then Missing
    else Found(b[2..2 + FromBigEndian(b[..2])])
  }

  function PartsOf(key: Bytes): Result<Parts> {
    if key == [] then Failure(ErrKeyTooShort)
    else if key[0] != NAMESPACE_USER then Failure(ErrMalformedKey)
    else match NameOf(key[1..])
      case Missing => Failure(ErrKeyTooShort)
      case Found(db) => match NameOf(key[3 + |db|..])
        case Missing => Failure(ErrKeyTooShort)
        case Found(table) => Success(Parts(db, table, key[5 + |db| + |table|..]))
  }

  lemma {:induction false} BigEndianOfRead(b: Bytes)
    ensures BigEndian(FromBigEndian(b), |b|) == b
    ensures FromBigEndian(b) < Pow256(|b|)
  {
    if b != [] {
      var m := |b| - 1;
      BigEndianOfRead(b[..m]);
      var n := FromBigEndian(b);
      assert n % 256 == b[m] && n / 256 == FromBigEndian(b[..m]);
      assert b == b[..m] + [b[m]];
    }
  }

  lemma NameOfPrefixed(name: Bytes, rest: Bytes)
    requires |name| <= MAX_NAME
    ensures NameOf(Prefixed(name) + rest) == Found(name)
  {
    assert Pow256(2) == 0x1_0000;
    BigEndianRoundTrip(|name|, 2);
    var b := Prefixed(name) + rest;
    assert b[..2] == BigEndian(|name|, 2) && b[2..2 + |name|] == name;
  }

  lemma NameIsPrefixed(b: Bytes)
    requires NameOf(b).Found?
    ensures var name := NameOf(b).name;
            && |name| <= MAX_NAME
            && 2 + |name| <= |b|
            && b == Prefixed(name) + b[2 + |name|..]
  {
    assert Pow256(2) == 0x1_0000;
    var n := FromBigEndian(b[..2]);
    BigEndianOfRead(b[..2]);
    hide BigEndian, FromBigEndian;
    assert b == b[..2] + b[2..2 + n] + b[2 + n..];
  }

  /** Decoding a row key gives its parts back ... */
  lemma PartsOfRowKey(db: Bytes, table: Bytes, pk: Bytes)
    requires ValidNames(db, table)
    ensures PartsOf(RowKey(db, table, pk)) == Success(Parts(db, table, pk))
  {
    var key := RowKey(db, table, pk);
    var u, v := Prefixed(db) + (Prefixed(table) + pk), Prefixed(table) + pk;
    assert key == [NAMESPACE_USER] + u && key[1..] == u;
    NameOfPrefixed(db, v);
    assert key[3 + |db|..] == u[2 + |db|..] == v;
    NameOfPrefixed(table, pk);
    assert key[5 + |db| + |table|..] == v[2 + |table|..] == pk;
  }

  /** ... and whatever it decodes, the parts spell that key. */
  lemma PartsSpellKey(key: Bytes)
    requires PartsOf(key).Success?
    ensures var p := PartsOf(key).value;
            |p.db| <= MAX_NAME && |p.table| <= MAX_NAME && key == [NAMESPACE_USER] + Prefixed(p.db) + Prefixed(p.table) + p.pk
  {
    hide Prefixed, NameOf;
    var p := PartsOf(key).value;
    var u := key[1..];
    assert NameOf(u) == Found(p.db);
    NameIsPrefixed(u);
    var v := key[3 + |p.db|..];
    assert NameOf(v) == Found(p.table);
    NameIsPrefixed(v);
    assert u[2 + |p.db|..] == v;
    assert v[2 + |p.table|..] == p.pk;
    var front, back := Prefixed(p.db), Prefixed(p.table);
    assert key == [NAMESPACE_USER] + u && u == front + v && v == back + p.pk;
    Regroup(front, back, p.pk);
  }

  lemma Regroup(a: Bytes, b: Bytes, c: Bytes)
    ensures [NAMESPACE_USER] + (a + (b + c)) == [NAMESPACE_USER] + a + b + c
  {
  }

  /** What the code reads at an offset is the name at the front of the rest. */
  lemma NameRead(key: Bytes, at: nat, n: nat)
    requires at + 2 <= |key| && n == FromBigEndian(key[at..at + 2])
    ensures NameOf(key[at..]) == if at + 2 + n <= |key| then Found(key[at + 2..at + 2 + n]) else Missing
  {
    hide FromBigEndian;
    var b := key[at..];
    assert b[..2] == key[at..at + 2];
    if at + 2 + n <= |key| {
      assert b[2..2 + n] == key[at + 2..at + 2 + n];
    }
  }

  method DecodeParts(key: Bytes) returns (res: Result<Parts>)
    ensures res == PartsOf(key)
  {
    if |key| == 0 {
      return Failure(ErrKeyTooShort);
    }
    if key[0] != NAMESPACE_USER {
      return Failure(ErrMalformedKey);
    }
    var offset := 1;
    if offset + 2 > |key| {
      return Failure(ErrKeyTooShort);
    }
    var dbLen := FromBigEndian(key[offset..offset + 2]);
    NameRead(key, offset, dbLen);
    offset := offset + 2;
    if offset + dbLen > |key| {
      return Failure(ErrKeyTooShort);
    }
    var db := key[offset..offset + dbLen];
    offset := offset + dbLen;
    if offset + 2 > |key| {
      return Failure(ErrKeyTooShort);
    }
    var tableLen := FromBigEndian(key[offset..offset + 2]);
    NameRead(key, offset, tableLen);
    offset := offset + 2;
    if offset + tableLen > |key| {
      return Failure(ErrKeyTooShort);
    }
    var table := key[offset..offset + tableLen];
    offset := offset + tableLen;
    res := Success(Parts(db, table, key[offset..]));
  }
}
