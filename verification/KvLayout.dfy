/** The bytes of the key-value file: `kv_item_t`, rows of two items, 384 rows one after the other. */
module KvLayout {
  import opened Words
  import opened Memory
  import opened Padding
  import opened CStrings

  const ITEM_MAX_KEY_LEN: nat := 128
  const ITEM_MAX_VAL_LEN: nat := 512
  const ITEM_MAX_LEN: nat := 644
  const TABLE_COL_SIZE: nat := 384
  const TABLE_ROW_SIZE: nat := 2
  const ROW_LEN: nat := 1288

  /** What one `kv_item_t` holds: nothing (value_len is 0), or a key and a value. */
  datatype Slot = Empty | Entry(key: seq<byte>, value: seq<byte>)

  type Row = seq<Slot>
  type Table = seq<Row>

  /** A key the table can find again: no NUL inside, and room for the closing NUL in the 128 bytes. */
  ghost predicate IsKey(k: seq<byte>) {
    IsText(k) && |k| < ITEM_MAX_KEY_LEN
  }

  ghost predicate IsSlot(s: Slot) {
    s.Entry? ==> IsKey(s.key) && 0 < |s.value| <= ITEM_MAX_VAL_LEN
  }

  ghost predicate IsRow(r: Row) {
    |r| == TABLE_ROW_SIZE && IsSlot(r[0]) && IsSlot(r[1])
  }

  ghost predicate IsTable(t: Table) {
    |t| == TABLE_COL_SIZE && forall i :: 0 <= i < |t| ==> IsRow(t[i])
  }

  // ----- value_len: a little-endian 32-bit int -----

  /** A 32-bit two's complement number, least significant byte first. */
  function LeBytes(n: int): (b: seq<byte>)
    requires -0x8000_0000 <= n < 0x8000_0000
    ensures |b| == 4
  {
    var u := n % 0x1_0000_0000;
    [(u % 0x100) as byte, (u / 0x100 % 0x100) as byte, (u / 0x1_0000 % 0x100) as byte, (u / 0x100_0000) as byte]
  }

  function LeInt(b: seq<byte>): (n: int)
    requires |b| == 4
    ensures -0x8000_0000 <= n < 0x8000_0000
  {
    var u := b[0] as int + 0x100 * b[1] as int + 0x1_0000 * b[2] as int + 0x100_0000 * b[3] as int;
    if u < 0x8000_0000 then u else u - 0x1_0000_0000
  }

  lemma Digits32(u: nat)
    ensures u == u % 0x100 + 0x100 * (u / 0x100 % 0x100) + 0x1_0000 * (u / 0x1_0000 % 0x100) + 0x100_0000 * (u / 0x100_0000)
  {
    var q1 := u / 0x100;
    var q2 := q1 / 0x100;
    assert u / 0x1_0000 == q2 && u / 0x100_0000 == q2 / 0x100;
  }

  /** value_len survives being stored. */
  lemma LeIntOfLeBytes(n: int)
    requires -0x8000_0000 <= n < 0x8000_0000
    ensures LeInt(LeBytes(n)) == n
  {
    Digits32(n % 0x1_0000_0000);
  }

  lemma TopDigit(d: nat, rest: nat)
    requires d < 0x100
    ensures (d + 0x100 * rest) / 0x100 == rest && (d + 0x100 * rest) % 0x100 == d
  {
  }

  lemma LeBytesOfLeInt(b: seq<byte>)
    requires |b| == 4
    ensures LeBytes(LeInt(b)) == b
  {
    var d0, d1, d2, d3 := b[0] as int, b[1] as int, b[2] as int, b[3] as int;
    var u := d0 + 0x100 * d1 + 0x1_0000 * d2 + 0x100_0000 * d3;
    assert LeInt(b) % 0x1_0000_0000 == u;
    TopDigit(d0, d1 + 0x100 * d2 + 0x1_0000 * d3);
    TopDigit(d1, d2 + 0x100 * d3);
    TopDigit(d2, d3);
    assert u / 0x1_0000 == u / 0x100 / 0x100 && u / 0x100_0000 == u / 0x100 / 0x100 / 0x100;
  }

  // ----- one item -----

  function Fill(s: seq<byte>, n: nat): (r: seq<byte>)
    requires |s| <= n
    ensures |r| == n
  {
    s + Zeros(n - |s|)
  }

  function EncodeSlot(s: Slot): (b: seq<byte>)
    requires IsSlot(s)
    ensures |b| == ITEM_MAX_LEN
  {
    if s.Empty? then Zeros(ITEM_MAX_LEN)
    else Fill(s.key, ITEM_MAX_KEY_LEN) + Fill(s.value, ITEM_MAX_VAL_LEN) + LeBytes(|s.value|)
  }

  function KeyField(b: seq<byte>): seq<byte>
    requires |b| == ITEM_MAX_LEN
  {
    b[..ITEM_MAX_KEY_LEN]
  }

  function ValueField(b: seq<byte>): (v: seq<byte>)
    requires |b| == ITEM_MAX_LEN
    ensures |v| == ITEM_MAX_VAL_LEN
  {
    b[ITEM_MAX_KEY_LEN..ITEM_MAX_KEY_LEN + ITEM_MAX_VAL_LEN]
  }

  function LenField(b: seq<byte>): int
    requires |b| == ITEM_MAX_LEN
  {
    LeInt(b[ITEM_MAX_KEY_LEN + ITEM_MAX_VAL_LEN..])
  }

  /** What the code reads out of an item. */
  function DecodeSlot(b: seq<byte>): Slot
    requires |b| == ITEM_MAX_LEN && 0 <= LenField(b) <= ITEM_MAX_VAL_LEN
  {
    if LenField(b) == 0 then Empty else Entry(CString(KeyField(b)), ValueField(b)[..LenField(b)])
  }

  /** Every field reads back what was written. */
  lemma SlotFields(s: Slot)
    requires IsSlot(s)
    ensures LenField(EncodeSlot(s)) == if s.Empty? then 0 else |s.value|
    ensures s.Entry? ==> CString(KeyField(EncodeSlot(s))) == s.key
    ensures s.Entry? ==> ValueField(EncodeSlot(s)) == Fill(s.value, ITEM_MAX_VAL_LEN)
  {
    if s.Entry? {
      var k, v, l := Fill(s.key, ITEM_MAX_KEY_LEN), Fill(s.value, ITEM_MAX_VAL_LEN), LeBytes(|s.value|);
      var b := EncodeSlot(s);
      assert b == k + v + l;
      assert KeyField(b) == k && ValueField(b) == v && b[ITEM_MAX_KEY_LEN + ITEM_MAX_VAL_LEN..] == l;
      LeIntOfLeBytes(|s.value|);
      StrLenIs(k, s.key);
    }
  }

  /** An item decodes to the slot it encodes. */
  lemma DecodeOfEncode(s: Slot)
    requires IsSlot(s)
    ensures 0 <= LenField(EncodeSlot(s)) <= ITEM_MAX_VAL_LEN
    ensures DecodeSlot(EncodeSlot(s)) == s
  {
    SlotFields(s);
  }

  /** strncpy(p->key, key, n): the key cut to n bytes, filled with NULs. */
  function Strncpy(key: seq<byte>, n: nat): (b: seq<byte>)
    ensures |b| == n
  {
    Fill(Stored(key, n), n)
  }

  function Stored(key: seq<byte>, n: nat): (k: seq<byte>)
    ensures |k| <= n
  {
    if |key| <= n then key else key[..n]
  }

  /** The three writes that put a new key into an item of zeros. */
  lemma InsertItem(key: seq<byte>, v: seq<byte>)
    requires IsText(key) && 0 < |v| <= ITEM_MAX_VAL_LEN
    ensures var k := Stored(key, ITEM_MAX_KEY_LEN - 1);
            && IsSlot(Entry(k, v))
            && Splice(Splice(Splice(EncodeSlot(Empty), 0, Strncpy(key, ITEM_MAX_KEY_LEN - 1)), 128, v), 640, LeBytes(|v|))
               == EncodeSlot(Entry(k, v))
  {
    var k := Stored(key, ITEM_MAX_KEY_LEN - 1);
    var b := EncodeSlot(Entry(k, v));
    var z := Zeros(ITEM_MAX_LEN);
    var z1 := Splice(z, 0, Strncpy(key, ITEM_MAX_KEY_LEN - 1));
    assert z1[..128] == Fill(k, ITEM_MAX_KEY_LEN) && z1[128..] == Zeros(516);
    var z2 := Splice(z1, 128, v);
    assert z2[..640] == Fill(k, ITEM_MAX_KEY_LEN) + Fill(v, ITEM_MAX_VAL_LEN);
  }

  /** The three writes that give a stored key a new value. */
  lemma UpdateItem(k: seq<byte>, was: seq<byte>, v: seq<byte>)
    requires IsSlot(Entry(k, was)) && IsSlot(Entry(k, v))
    ensures Splice(Splice(Splice(EncodeSlot(Entry(k, was)), 128, Zeros(ITEM_MAX_VAL_LEN)), 128, v), 640, LeBytes(|v|))
         == EncodeSlot(Entry(k, v))
  {
    var z := EncodeSlot(Entry(k, was));
    var z1 := Splice(z, 128, Zeros(ITEM_MAX_VAL_LEN));
    assert z1[..128] == Fill(k, ITEM_MAX_KEY_LEN) && z1[128..640] == Zeros(512);
    var z2 := Splice(z1, 128, v);
    assert z2[..640] == Fill(k, ITEM_MAX_KEY_LEN) + Fill(v, ITEM_MAX_VAL_LEN);
  }

  // ----- one row -----

  function EncodeRow(r: Row): (b: seq<byte>)
    requires IsRow(r)
    ensures |b| == ROW_LEN
  {
    EncodeSlot(r[0]) + EncodeSlot(r[1])
  }

  /** Item j of a row buffer. */
  function ItemAt(b: seq<byte>, j: nat): (i: seq<byte>)
    requires |b| == ROW_LEN && j < TABLE_ROW_SIZE
    ensures |i| == ITEM_MAX_LEN
  {
    b[ITEM_MAX_LEN * j..ITEM_MAX_LEN * j + ITEM_MAX_LEN]
  }

  lemma ItemOfRow(r: Row, j: nat)
    requires IsRow(r) && j < TABLE_ROW_SIZE
    ensures IsSlot(r[j])
    ensures ItemAt(EncodeRow(r), j) == EncodeSlot(r[j])
  {
    if j == 0 {
    } else {
      assert r[j] == r[1];
    }
  }

  /** A write inside item j changes that item only. */
  lemma SpliceInRow(b: seq<byte>, j: nat, at: nat, d: seq<byte>)
    requires |b| == ROW_LEN && j < TABLE_ROW_SIZE && at + |d| <= ITEM_MAX_LEN
    ensures ItemAt(Splice(b, ITEM_MAX_LEN * j + at, d), j) == Splice(ItemAt(b, j), at, d)
    ensures ItemAt(Splice(b, ITEM_MAX_LEN * j + at, d), 1 - j) == ItemAt(b, 1 - j)
  {
    SpliceInWindow(b, ITEM_MAX_LEN * j, ITEM_MAX_LEN, at, d);
    SpliceOutside(b, ITEM_MAX_LEN * j + at, d, ITEM_MAX_LEN * (1 - j), ITEM_MAX_LEN * (1 - j) + ITEM_MAX_LEN);
  }

  /** A row buffer that differs from the one of r in item j, which is now s. */
  lemma RowWith(r: Row, c: seq<byte>, j: nat, s: Slot)
    requires IsRow(r) && |c| == ROW_LEN && j < TABLE_ROW_SIZE && IsSlot(s)
    requires ItemAt(c, j) == EncodeSlot(s) && ItemAt(c, 1 - j) == ItemAt(EncodeRow(r), 1 - j)
    ensures IsRow(r[j := s]) && c == EncodeRow(r[j := s])
  {
    ItemOfRow(r, 1 - j);
    assert c == ItemAt(c, 0) + ItemAt(c, 1);
    var q := r[j := s];
    if j == 0 {
      assert q[0] == s && q[1] == r[1];
    } else {
      assert q[1] == s && q[0] == r[0];
    }
  }

  /** The three writes of an update, on the whole row buffer. */
  lemma UpdateRow(r: Row, j: nat, v: seq<byte>)
    requires IsRow(r) && j < TABLE_ROW_SIZE && r[j].Entry? && 0 < |v| <= ITEM_MAX_VAL_LEN
    ensures IsRow(r[j := Entry(r[j].key, v)])
    ensures var o := ITEM_MAX_LEN * j;
            Splice(Splice(Splice(EncodeRow(r), o + 128, Zeros(ITEM_MAX_VAL_LEN)), o + 128, v), o + 640, LeBytes(|v|))
            == EncodeRow(r[j := Entry(r[j].key, v)])
  {
    var o, b, s := ITEM_MAX_LEN * j, EncodeRow(r), Entry(r[j].key, v);
    assert IsSlot(r[j]);
    ItemOfRow(r, j);
    UpdateItem(r[j].key, r[j].value, v);
    ThreeWrites(b, j, 128, Zeros(ITEM_MAX_VAL_LEN), 128, v, 640, LeBytes(|v|));
    var c := Splice(Splice(Splice(b, o + 128, Zeros(ITEM_MAX_VAL_LEN)), o + 128, v), o + 640, LeBytes(|v|));
    RowWith(r, c, j, s);
  }

  /** The three writes of an insertion. */
  lemma InsertRow(r: Row, j: nat, key: seq<byte>, v: seq<byte>)
    requires IsRow(r) && j < TABLE_ROW_SIZE && r[j].Empty? && IsText(key) && 0 < |v| <= ITEM_MAX_VAL_LEN
    ensures IsRow(r[j := Entry(Stored(key, ITEM_MAX_KEY_LEN - 1), v)])
    ensures var o := ITEM_MAX_LEN * j;
            var k := Strncpy(key, ITEM_MAX_KEY_LEN - 1);
            Splice(Splice(Splice(EncodeRow(r), o + 0, k), o + 128, v), o + 640, LeBytes(|v|))
            == EncodeRow(r[j := Entry(Stored(key, ITEM_MAX_KEY_LEN - 1), v)])
  {
    var o, b, k := ITEM_MAX_LEN * j, EncodeRow(r), Strncpy(key, ITEM_MAX_KEY_LEN - 1);
    ItemOfRow(r, j);
    InsertItem(key, v);
    ThreeWrites(b, j, 0, k, 128, v, 640, LeBytes(|v|));
    var c, s := Splice(Splice(Splice(b, o + 0, k), o + 128, v), o + 640, LeBytes(|v|)), Entry(Stored(key, ITEM_MAX_KEY_LEN - 1), v);
    RowWith(r, c, j, s);
  }

  lemma ThreeWrites(b: seq<byte>, j: nat, a1: nat, d1: seq<byte>, a2: nat, d2: seq<byte>, a3: nat, d3: seq<byte>)
    requires |b| == ROW_LEN && j < TABLE_ROW_SIZE
    requires a1 + |d1| <= ITEM_MAX_LEN && a2 + |d2| <= ITEM_MAX_LEN && a3 + |d3| <= ITEM_MAX_LEN
    ensures var o := ITEM_MAX_LEN * j;
            var c := Splice(Splice(Splice(b, o + a1, d1), o + a2, d2), o + a3, d3);
            && ItemAt(c, j) == Splice(Splice(Splice(ItemAt(b, j), a1, d1), a2, d2), a3, d3)
            && ItemAt(c, 1 - j) == ItemAt(b, 1 - j)
  {
    var o := ITEM_MAX_LEN * j;
    var b1 := Splice(b, o + a1, d1);
    var b2 := Splice(b1, o + a2, d2);
    SpliceInRow(b, j, a1, d1);
    SpliceInRow(b1, j, a2, d2);
    SpliceInRow(b2, j, a3, d3);
  }

  /** Clearing an item. */
  lemma ClearRow(r: Row, j: nat)
    requires IsRow(r) && j < TABLE_ROW_SIZE
    ensures IsRow(r[j := Empty])
    ensures Splice(EncodeRow(r), ITEM_MAX_LEN * j + 0, Zeros(ITEM_MAX_LEN)) == EncodeRow(r[j := Empty])
  {
    var b := EncodeRow(r);
    var c := Splice(b, ITEM_MAX_LEN * j + 0, Zeros(ITEM_MAX_LEN));
    SpliceInRow(b, j, 0, Zeros(ITEM_MAX_LEN));
    SpliceAll(ItemAt(b, j), Zeros(ITEM_MAX_LEN));
    RowWith(r, c, j, Empty);
  }

  // ----- the file -----

  /** Chunks of 1288 bytes, one after the other. */
  function Join(chunks: seq<seq<byte>>): (b: seq<byte>)
    requires forall i :: 0 <= i < |chunks| ==> |chunks[i]| == ROW_LEN
    ensures |b| == ROW_LEN * |chunks|
  {
    if chunks == [] then [] else Join(chunks[..|chunks| - 1]) + chunks[|chunks| - 1]
  }

  lemma {:induction false} JoinAt(chunks: seq<seq<byte>>, i: nat)
    requires (forall i :: 0 <= i < |chunks| ==> |chunks[i]| == ROW_LEN) && i < |chunks|
    ensures Join(chunks)[ROW_LEN * i..ROW_LEN * i + ROW_LEN] == chunks[i]
    decreases |chunks|
  {
    var n := |chunks| - 1;
    if i < n {
      JoinAt(chunks[..n], i);
      TakeWithin(Join(chunks[..n]), chunks[n], ROW_LEN * i, ROW_LEN * i + ROW_LEN);
    }
  }

  lemma TakeWithin(a: seq<byte>, b: seq<byte>, lo: nat, hi: nat)
    requires lo <= hi <= |a|
    ensures (a + b)[lo..hi] == a[lo..hi]
  {
  }

  lemma {:induction false} JoinUpdate(chunks: seq<seq<byte>>, i: nat, d: seq<byte>)
    requires (forall i :: 0 <= i < |chunks| ==> |chunks[i]| == ROW_LEN) && i < |chunks| && |d| == ROW_LEN
    ensures Splice(Join(chunks), ROW_LEN * i, d) == Join(chunks[i := d])
    decreases |chunks|
  {
    var n, u := |chunks| - 1, chunks[i := d];
    var a := Join(chunks[..n]);
    if i < n {
      JoinUpdate(chunks[..n], i, d);
      assert u[..n] == chunks[..n][i := d];
      SpliceWithin(a, chunks[n], ROW_LEN * i, d);
    } else {
      assert u[..n] == chunks[..n];
      assert Splice(a + chunks[n], |a|, d) == a + d;
    }
  }

  lemma SpliceWithin(a: seq<byte>, b: seq<byte>, at: nat, d: seq<byte>)
    requires at + |d| <= |a|
    ensures Splice(a + b, at, d) == Splice(a, at, d) + b
  {
  }

  function RowBytes(t: Table): (c: seq<seq<byte>>)
    requires forall i :: 0 <= i < |t| ==> IsRow(t[i])
    ensures |c| == |t| && forall i :: 0 <= i < |c| ==> c[i] == EncodeRow(t[i]) && |c[i]| == ROW_LEN
  {
    seq(|t|, i requires 0 <= i < |t| => EncodeRow(t[i]))
  }

  function EncodeFile(t: Table): (b: seq<byte>)
    requires forall i :: 0 <= i < |t| ==> IsRow(t[i])
    ensures |b| == ROW_LEN * |t|
  {
    Join(RowBytes(t))
  }

  /** Row i lies at byte 1288 * i. */
  lemma RowOfFile(t: Table, i: nat)
    requires (forall i :: 0 <= i < |t| ==> IsRow(t[i])) && i < |t|
    ensures EncodeFile(t)[ROW_LEN * i..ROW_LEN * i + ROW_LEN] == EncodeRow(t[i])
  {
    JoinAt(RowBytes(t), i);
  }

  /** Writing 1288 bytes at row i changes row i of the table and nothing else. */
  lemma SpliceRow(t: Table, i: nat, r: Row)
    requires (forall i :: 0 <= i < |t| ==> IsRow(t[i])) && i < |t| && IsRow(r)
    ensures Splice(EncodeFile(t), ROW_LEN * i, EncodeRow(r)) == EncodeFile(t[i := r])
  {
    JoinUpdate(RowBytes(t), i, EncodeRow(r));
    assert RowBytes(t)[i := EncodeRow(r)] == RowBytes(t[i := r]);
  }

  lemma SlotInjective(s: Slot, u: Slot)
    requires IsSlot(s) && IsSlot(u) && EncodeSlot(s) == EncodeSlot(u)
    ensures s == u
  {
    DecodeOfEncode(s);
    DecodeOfEncode(u);
  }

  lemma RowInjective(r: Row, q: Row)
    requires IsRow(r) && IsRow(q) && EncodeRow(r) == EncodeRow(q)
    ensures r == q
  {
    ItemOfRow(r, 0);
    ItemOfRow(q, 0);
    SlotInjective(r[0], q[0]);
    ItemOfRow(r, 1);
    ItemOfRow(q, 1);
    SlotInjective(r[1], q[1]);
    assert r == [r[0], r[1]] && q == [q[0], q[1]];
  }

  /** Different tables have different files. */
  lemma EncodeFileInjective(t: Table, u: Table)
    requires forall i :: 0 <= i < |t| ==> IsRow(t[i])
    requires forall i :: 0 <= i < |u| ==> IsRow(u[i])
    requires EncodeFile(t) == EncodeFile(u)
    ensures t == u
  {
    assert |t| == |u|;
    forall i | 0 <= i < |t|
      ensures t[i] == u[i]
    {
      RowOfFile(t, i);
      RowOfFile(u, i);
      RowInjective(t[i], u[i]);
    }
  }

  /** Where everything lies, in plain numbers: item j of row i begins at byte 1288 i + 644 j; the key with its NULs takes
      128 bytes, the value 512, the length four bytes, least significant first; an item without a value is all zeros. */
  lemma WhereItLies(t: Table, i: nat, j: nat)
    requires IsTable(t) && i < 384 && j < 2
    ensures 1288 * i + 644 * j + 644 <= |EncodeFile(t)| == 1288 * 384
    ensures var b := EncodeFile(t)[1288 * i + 644 * j..1288 * i + 644 * j + 644];
            match t[i][j]
            case Empty => forall x :: 0 <= x < 644 ==> b[x] == 0
            case Entry(key, v) =>
              && |key| < 128 && 0 < |v| <= 512
              && (forall x :: 0 <= x < 128 ==> b[x] == if x < |key| then key[x] else 0)
              && (forall x :: 128 <= x < 640 ==> b[x] == if x - 128 < |v| then v[x - 128] else 0)
              && b[640] as int + 256 * b[641] as int == |v| && b[642] == 0 && b[643] == 0
  {
    SlotInFile(t, i, j);
    SlotBytes(t[i][j]);
  }

  lemma SlotInFile(t: Table, i: nat, j: nat)
    requires IsTable(t) && i < 384 && j < 2
    ensures 1288 * i + 644 * j + 644 <= |EncodeFile(t)| == 1288 * 384 && IsSlot(t[i][j])
    ensures EncodeFile(t)[1288 * i + 644 * j..1288 * i + 644 * j + 644] == EncodeSlot(t[i][j])
  {
    RowOfFile(t, i);
    assert IsRow(t[i]);
    ItemOfRow(t[i], j);
    SliceOfSlice(EncodeFile(t), 1288 * i, 1288, 644 * j, 644 * j + 644);
  }

  lemma SlotBytes(s: Slot)
    requires IsSlot(s)
    ensures var b := EncodeSlot(s);
            match s
            case Empty => forall x :: 0 <= x < 644 ==> b[x] == 0
            case Entry(key, v) =>
              && (forall x :: 0 <= x < 128 ==> b[x] == if x < |key| then key[x] else 0)
              && (forall x :: 128 <= x < 640 ==> b[x] == if x - 128 < |v| then v[x - 128] else 0)
              && b[640] as int + 256 * b[641] as int == |v| && b[642] == 0 && b[643] == 0
  {
    if s.Entry? {
      var k, v, l := Fill(s.key, ITEM_MAX_KEY_LEN), Fill(s.value, ITEM_MAX_VAL_LEN), LeBytes(|s.value|);
      var b := EncodeSlot(s);
      assert b == k + v + l;
      assert b[640] == l[0] && b[641] == l[1] && b[642] == l[2] && b[643] == l[3];
    }
  }
}
