/** The key-value table, slot by slot: what `hash_table_put`, `hash_table_get` and `hash_table_rm` do to a row, and one
    call of the HAL functions on the whole table. */
module KvTable {
  import opened Words
  import opened Memory
  import opened CStrings
  import opened KvLayout

  datatype Option<+T> = None | Some(value: T)

  // ----- the hash -----

  /** `*key` as the signed char the target's compiler makes of it. */
  function SignedChar(b: byte): int {
    if b < 128 then b as int else b as int - 256
  }

  /** The base-33 polynomial of a key, in unbounded integers. */
  function Poly(key: seq<byte>): int {
    if key == [] then 0 else 33 * Poly(key[..|key| - 1]) + SignedChar(key[|key| - 1])
  }

  /** The row of a key: the polynomial in 32 bits, modulo the number of rows. */
  function RowOf(key: seq<byte>): (i: nat)
    ensures i < TABLE_COL_SIZE
  {
    Poly(key) % 0x1_0000_0000 % TABLE_COL_SIZE
  }

  lemma {:induction false} PolySnoc(s: seq<byte>, b: byte)
    ensures Poly(s + [b]) == 33 * Poly(s) + SignedChar(b)
  {
    assert (s + [b])[..|s|] == s;
  }

  /** Adding a byte to a text, in 32 bits: 33 times the hash, plus the byte as a signed char, modulo 2^32. */
  lemma {:induction false} HashSnoc(s: seq<byte>, b: byte)
    ensures var c := if b < 128 then b as int else b as int - 256;
            Poly(s + [b]) % 0x1_0000_0000 == (33 * (Poly(s) % 0x1_0000_0000) + c) % 0x1_0000_0000
    ensures RowOf(s + [b]) == Poly(s + [b]) % 0x1_0000_0000 % 384 && Poly([]) == 0
  {
    PolySnoc(s, b);
    var q := Poly(s) / 0x1_0000_0000;
    assert Poly(s) == 0x1_0000_0000 * q + Poly(s) % 0x1_0000_0000;
    ModPlus(33 * (Poly(s) % 0x1_0000_0000) + SignedChar(b), 33 * q);
  }

  lemma ModPlus(x: int, k: int)
    ensures (0x1_0000_0000 * k + x) % 0x1_0000_0000 == x % 0x1_0000_0000
  {
  }

  /** A byte that is negative as a char, and seven letters 'z' that overflow 32 bits: without the wrap-around the rows would
      be 383 and 278. */
  lemma HashAnswers(minus: seq<byte>, text: seq<byte>, z: seq<byte>)
    requires minus == [255] && text == [65, 100] && z == [122, 122, 122, 122, 122, 122, 122]
    ensures RowOf(minus) == 255 && RowOf(text) == 325 && RowOf(z) == 22
  {
    assert minus[..0] == [] && text[..0] == [] && z[..0] == [];
    PolyFrom(minus, 1, 0);
    PolyFrom(text, 1, 0);
    PolyFrom(text, 2, 65);
    PolyFrom(z, 1, 0);
    PolyFrom(z, 2, 122);
    PolyFrom(z, 3, 4148);
    PolyFrom(z, 4, 137006);
    PolyFrom(z, 5, 4521320);
    PolyFrom(z, 6, 149203682);
    PolyFrom(z, 7, 4923721628);
    assert minus[..1] == minus && text[..2] == text && z[..7] == z;
  }

  lemma PolyFrom(s: seq<byte>, n: nat, p: int)
    requires 0 < n <= |s| && Poly(s[..n - 1]) == p
    ensures Poly(s[..n]) == 33 * p + SignedChar(s[n - 1])
  {
    assert s[..n] == s[..n - 1] + [s[n - 1]];
    PolySnoc(s[..n - 1], s[n - 1]);
  }

  // ----- one row -----

  predicate HoldsKey(s: Slot, key: seq<byte>) {
    s.Entry? && s.key == key
  }

  /** Where the search loops stop: the first slot from j on that is empty or holds the key; 2 if there is none. */
  function Probe(r: Row, key: seq<byte>, j: nat): (s: nat)
    requires |r| == TABLE_ROW_SIZE && j <= TABLE_ROW_SIZE
    ensures j <= s <= TABLE_ROW_SIZE
    ensures s < TABLE_ROW_SIZE ==> r[s].Empty? || r[s].key == key
    ensures forall k :: j <= k < s ==> r[k].Entry? && r[k].key != key
    decreases TABLE_ROW_SIZE - j
  {
    if j == TABLE_ROW_SIZE || r[j].Empty? || r[j].key == key then j else Probe(r, key, j + 1)
  }

  /** A value cut to what an item can hold. */
  function Cut(v: seq<byte>): (c: seq<byte>)
    ensures |c| <= ITEM_MAX_VAL_LEN && (v != [] ==> c != [])
  {
    if |v| > ITEM_MAX_VAL_LEN then v[..ITEM_MAX_VAL_LEN] else v
  }

  function PutRow(r: Row, key: seq<byte>, v: seq<byte>): (o: Option<Row>)
    requires IsRow(r) && IsText(key) && v != []
    ensures o.Some? ==> IsRow(o.value)
  {
    var s := Probe(r, key, 0);
    if s == TABLE_ROW_SIZE then None
    else if r[s].Empty? then Some(r[s := Entry(Stored(key, ITEM_MAX_KEY_LEN - 1), Cut(v))])
    else Some(r[s := Entry(key, Cut(v))])
  }

  function GetRow(r: Row, key: seq<byte>): (o: Option<seq<byte>>)
    requires IsRow(r)
  {
    var s := Probe(r, key, 0);
    if s < TABLE_ROW_SIZE && r[s].Entry? then Some(r[s].value) else None
  }

  /** The removal loop from slot j on: it stops at the first empty slot, not at the first match. */
  function RmFrom(r: Row, key: seq<byte>, j: nat): (q: Row)
    requires IsRow(r) && j <= TABLE_ROW_SIZE
    ensures IsRow(q)
    decreases TABLE_ROW_SIZE - j
  {
    if j == TABLE_ROW_SIZE || r[j].Empty? then r
    else RmFrom(if r[j].key == key then r[j := Empty] else r, key, j + 1)
  }

  function RmRow(r: Row, key: seq<byte>): (q: Row)
    requires IsRow(r)
    ensures IsRow(q)
  {
    RmFrom(r, key, 0)
  }

  /** The search, slot by slot. */
  lemma {:induction false} ProbeFrom0(r: Row, key: seq<byte>)
    requires IsRow(r)
    ensures Probe(r, key, 0) == if r[0].Empty? || r[0].key == key then 0
                                else if r[1].Empty? || r[1].key == key then 1 else 2
  {
    assert Probe(r, key, 1) == if r[1].Empty? || r[1].key == key then 1 else Probe(r, key, 2);
  }

  /** Removal on any row, with holes or duplicates or not. */
  lemma RmRowIs(r: Row, key: seq<byte>)
    requires IsRow(r)
    ensures RmRow(r, key) == if r[0].Empty? then r
                             else [if r[0].key == key then Empty else r[0], if HoldsKey(r[1], key) then Empty else r[1]]
  {
    if r[0].Entry? {
      var r1 := if r[0].key == key then r[0 := Empty] else r;
      assert RmRow(r, key) == RmFrom(r1, key, 1);
      var r2 := if HoldsKey(r1[1], key) then r1[1 := Empty] else r1;
      assert r1[1].Entry? ==> RmFrom(r1, key, 1) == RmFrom(r2, key, 2) == r2;
      assert r2 == [r2[0], r2[1]];
    }
  }

  // ----- one call -----

  /** Whether the row could be read and written back; a failure has no effect. */
  datatype Io = Io(readOk: bool, writeOk: bool)

  /** A call of HAL_Kv_Set, HAL_Kv_Get or HAL_Kv_Del.  An empty value stands for a length that is not positive. */
  datatype Call = Set(key: seq<byte>, value: seq<byte>) | Get(key: seq<byte>, size: int) | Del(key: seq<byte>)

  datatype Reply = Reply(ret: int, data: seq<byte>)

  const OK := Reply(0, [])
  const FAIL := Reply(-1, [])

  function Take(v: seq<byte>, size: int): seq<byte>
    requires size > 0
  {
    if |v| < size then v else v[..size]
  }

  function Step(t: Table, c: Call, io: Io): (r: (Table, Reply))
    requires IsTable(t) && IsText(c.key)
    ensures IsTable(r.0)
  {
    var i := RowOf(c.key);
    match c
    case Set(key, v) =>
      if v == [] || !io.readOk then (t, FAIL)
      else
        var o := PutRow(t[i], key, v);
        if o.None? || !io.writeOk then (t, FAIL) else (t[i := o.value], OK)
    case Get(key, size) =>
      if size <= 0 || !io.readOk then (t, FAIL)
      else
        var o := GetRow(t[i], key);
        if o.None? then (t, FAIL) else (t, Reply(0, Take(o.value, size)))
    case Del(key) =>
      if !io.readOk || !io.writeOk then (t, FAIL) else (t[i := RmRow(t[i], key)], OK)
  }

  /** A failed call leaves the whole table alone; a call touches no row but its key's, and Get none at all. */
  lemma StepFrame(t: Table, c: Call, io: Io)
    requires IsTable(t) && IsText(c.key)
    ensures var (u, r) := Step(t, c, io);
            && (r.ret != 0 ==> u == t)
            && (c.Get? ==> u == t)
            && |u| == |t| && (forall k :: 0 <= k < |t| && k != RowOf(c.key) ==> u[k] == t[k])
  {
  }

  /** Updating row i of the table leaves the bytes outside it. */
  lemma RowFrame(t: Table, i: nat, q: Row, p: nat)
    requires IsTable(t) && i < |t| && IsRow(q) && p < |EncodeFile(t)|
    requires !(ROW_LEN * i <= p < ROW_LEN * i + ROW_LEN)
    ensures EncodeFile(t[i := q])[p] == EncodeFile(t)[p]
  {
    SpliceRow(t, i, q);
    SpliceAt(EncodeFile(t), ROW_LEN * i, EncodeRow(q), p);
  }

  /** The same for the file: outside the 1288 bytes of the key's row no byte changes. */
  lemma FileFrame(t: Table, c: Call, io: Io)
    requires IsTable(t) && IsText(c.key)
    ensures var b, e := EncodeFile(t), EncodeFile(Step(t, c, io).0);
            && |e| == |b| == ROW_LEN * TABLE_COL_SIZE
            && (forall p :: 0 <= p < |b| && !(ROW_LEN * RowOf(c.key) <= p < ROW_LEN * RowOf(c.key) + ROW_LEN) ==> e[p] == b[p])
            && (Step(t, c, io).1.ret != 0 ==> e == b)
  {
    var i, u := RowOf(c.key), Step(t, c, io).0;
    StepFrame(t, c, io);
    assert u == t[i := u[i]];
    forall p | 0 <= p < |EncodeFile(t)| && !(ROW_LEN * i <= p < ROW_LEN * i + ROW_LEN)
      ensures EncodeFile(u)[p] == EncodeFile(t)[p]
    {
      RowFrame(t, i, u[i], p);
    }
  }

  // ----- keys that are too long -----

  /** What Get delivers of a value v that was set: as much as is there, fits an item and fits the caller's buffer. */
  lemma TakeCut(v: seq<byte>, size: int)
    requires size > 0
    ensures Take(Cut(v), size) == if |v| <= 512 && |v| <= size then v else if size <= 512 then v[..size] else v[..512]
  {
  }

  /** What a successful Set is worth: the next Get of the key answers 0 with the value, cut to 512 bytes and then to the
      caller's size, if and only if the key is at most 127 bytes long, and -1 otherwise.  This needs nothing of the other
      slots. */
  lemma SetThenGet(t: Table, key: seq<byte>, v: seq<byte>, size: int, io: Io)
    requires IsTable(t) && IsText(key) && size > 0
    requires Step(t, Set(key, v), io).1 == OK
    ensures var u := Step(t, Set(key, v), io).0;
            var r := Step(u, Get(key, size), Io(true, true)).1;
            var n := if |v| <= 512 && |v| <= size then |v| else if size <= 512 then size else 512;
            && (|key| <= 127 <==> r == Reply(0, v[..n]))
            && (|key| >= 128 <==> r == Reply(-1, []))
  {
    var i := RowOf(key);
    var u := Step(t, Set(key, v), io).0;
    var s := Probe(t[i], key, 0);
    assert u[i] == PutRow(t[i], key, v).value;
    TakeCut(v, size);
    if |key| < ITEM_MAX_KEY_LEN {
      ProbeAfterPut(t[i], u[i], key, s);
    } else {
      LongKeyNotFound(u[i], key);
    }
  }

  lemma {:induction false} ProbeAfterPut(r: Row, q: Row, key: seq<byte>, s: nat)
    requires IsRow(r) && IsRow(q) && s == Probe(r, key, 0) < TABLE_ROW_SIZE
    requires q == r[s := q[s]] && HoldsKey(q[s], key)
    ensures Probe(q, key, 0) == s
  {
    ProbeFrom0(r, key);
    ProbeFrom0(q, key);
  }

  lemma LongKeyNotFound(r: Row, key: seq<byte>)
    requires IsRow(r) && |key| >= ITEM_MAX_KEY_LEN
    ensures GetRow(r, key) == None
  {
    ProbeFrom0(r, key);
    assert IsSlot(r[0]) && IsSlot(r[1]);
  }
}
