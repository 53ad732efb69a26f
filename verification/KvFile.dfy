/** The key-value file of the two `wrapper.c` files, byte by byte: rows are read into a buffer, changed there and written
    back. */
module KvFile {
  import opened Words
  import opened Memory
  import opened Padding
  import opened CStrings
  import opened KvLayout
  import opened KvTable
  import opened KvMap

  // ----- hash_gen -----

  lemma PolyStep(hash: nat, p: int, c: int)
    requires hash == p % 0x1_0000_0000
    ensures (hash * 32 % 0x1_0000_0000 + hash + c) % 0x1_0000_0000 == (33 * p + c) % 0x1_0000_0000
  {
    var q := p / 0x1_0000_0000;
    var d := hash * 32 / 0x1_0000_0000;
    assert p == 0x1_0000_0000 * q + hash;
    assert hash * 32 == 0x1_0000_0000 * d + hash * 32 % 0x1_0000_0000;
    assert 33 * p + c == 0x1_0000_0000 * (33 * q + d) + (hash * 32 % 0x1_0000_0000 + hash + c);
    ModPlus(hash * 32 % 0x1_0000_0000 + hash + c, 33 * q + d);
  }

  /** hash_gen, in wrapping 32-bit arithmetic. */
  method HashGen(key: array<byte>) returns (i: nat)
    requires IsCString(key)
    ensures i == RowOf(CString(key[..]))
  {
    ghost var k := CString(key[..]);
    var hash: nat := 0;
    var p := 0;
    while key[p] != 0
      invariant p <= |k| && |k| < key.Length && k == key[..|k|] && key[|k|] == 0
      invariant hash == Poly(k[..p]) % 0x1_0000_0000
      decreases |k| - p
    {
      assert p < |k| && k[p] == key[p];
      assert k[..p + 1][..p] == k[..p];
      PolyStep(hash, Poly(k[..p]), SignedChar(key[p]));
      hash := (hash * 32 % 0x1_0000_0000 + hash + SignedChar(key[p])) % 0x1_0000_0000;
      p := p + 1;
    }
    assert k[..p] == k;
    i := hash % TABLE_COL_SIZE;
  }

  // ----- a row buffer -----

  /** The length and the key of a slot, as the loops see them. */
  function SlotLen(s: Slot): nat {
    if s.Empty? then 0 else |s.value|
  }

  lemma ReadSlot(r: Row, j: nat)
    requires IsRow(r) && j < TABLE_ROW_SIZE
    ensures IsSlot(r[j]) && SlotLen(r[j]) <= ITEM_MAX_VAL_LEN
    ensures var b := ItemAt(EncodeRow(r), j);
            && LenField(b) == SlotLen(r[j])
            && (r[j].Entry? ==> CString(KeyField(b)) == r[j].key && ValueField(b)[..SlotLen(r[j])] == r[j].value)
  {
    ItemOfRow(r, j);
    SlotFields(r[j]);
  }

  /** p->value_len */
  method ValueLen(buf: array<byte>, j: nat, ghost r: Row) returns (len: int)
    requires buf.Length == ROW_LEN && j < TABLE_ROW_SIZE && IsRow(r) && buf[..] == EncodeRow(r)
    ensures len == SlotLen(r[j]) <= ITEM_MAX_VAL_LEN
    ensures len == 0 <==> r[j].Empty?
  {
    ReadSlot(r, j);
    len := LenField(ItemAt(buf[..], j));
  }

  /** strcmp(p->key, key) == 0 */
  method KeyEquals(buf: array<byte>, j: nat, key: seq<byte>, ghost r: Row) returns (same: bool)
    requires buf.Length == ROW_LEN && j < TABLE_ROW_SIZE && IsRow(r) && buf[..] == EncodeRow(r)
    requires r[j].Entry?
    ensures same <==> HoldsKey(r[j], key)
  {
    ReadSlot(r, j);
    same := CString(KeyField(ItemAt(buf[..], j))) == key;
  }

  /** p->value, as far as it is filled */
  method ValueOf(buf: array<byte>, j: nat, n: nat, ghost r: Row) returns (v: seq<byte>)
    requires buf.Length == ROW_LEN && j < TABLE_ROW_SIZE && IsRow(r) && buf[..] == EncodeRow(r)
    requires r[j].Entry? && n <= |r[j].value|
    ensures v == r[j].value[..n]
  {
    ReadSlot(r, j);
    v := ValueField(ItemAt(buf[..], j))[..n];
    assert v == ValueField(ItemAt(buf[..], j))[..|r[j].value|][..n];
  }

  /** The branch of hash_table_put for a key that is stored already. */
  method UpdateInRow(buf: array<byte>, j: nat, v: seq<byte>, ghost r: Row)
    requires buf.Length == ROW_LEN && j < TABLE_ROW_SIZE && IsRow(r) && buf[..] == EncodeRow(r)
    requires r[j].Entry? && 0 < |v| <= ITEM_MAX_VAL_LEN
    modifies buf
    ensures IsRow(r[j := Entry(r[j].key, v)])
    ensures buf[..] == EncodeRow(r[j := Entry(r[j].key, v)])
  {
    Memset(buf, ITEM_MAX_LEN * j + 128, 0, ITEM_MAX_VAL_LEN);
    assert seq(ITEM_MAX_VAL_LEN, _ => 0 as byte) == Zeros(ITEM_MAX_VAL_LEN);
    Store(buf, ITEM_MAX_LEN * j + 128, v);
    Store(buf, ITEM_MAX_LEN * j + 640, LeBytes(|v|));
    UpdateRow(r, j, v);
  }

  /** The branch of hash_table_put for a new key. */
  method InsertInRow(buf: array<byte>, j: nat, key: seq<byte>, v: seq<byte>, ghost r: Row)
    requires buf.Length == ROW_LEN && j < TABLE_ROW_SIZE && IsRow(r) && buf[..] == EncodeRow(r)
    requires r[j].Empty? && IsText(key) && 0 < |v| <= ITEM_MAX_VAL_LEN
    modifies buf
    ensures IsRow(r[j := Entry(Stored(key, ITEM_MAX_KEY_LEN - 1), v)])
    ensures buf[..] == EncodeRow(r[j := Entry(Stored(key, ITEM_MAX_KEY_LEN - 1), v)])
  {
    Store(buf, ITEM_MAX_LEN * j + 0, Strncpy(key, ITEM_MAX_KEY_LEN - 1));
    Store(buf, ITEM_MAX_LEN * j + 128, v);
    Store(buf, ITEM_MAX_LEN * j + 640, LeBytes(|v|));
    InsertRow(r, j, key, v);
  }

  /** The loop of hash_table_put and what follows it, on the row in the buffer. */
  method PutInRow(buf: array<byte>, key: seq<byte>, v: seq<byte>, ghost r: Row) returns (full: bool)
    requires buf.Length == ROW_LEN && IsRow(r) && buf[..] == EncodeRow(r)
    requires IsText(key) && 0 < |v| <= ITEM_MAX_VAL_LEN
    modifies buf
    ensures full <==> PutRow(r, key, v).None?
    ensures !full ==> buf[..] == EncodeRow(PutRow(r, key, v).value)
  {
    var j := 0;
    var len := ValueLen(buf, j, r);
    while len != 0
      invariant 0 <= j < TABLE_ROW_SIZE
      invariant buf[..] == EncodeRow(r)
      invariant len == 0 <==> r[j].Empty?
      invariant Probe(r, key, 0) == Probe(r, key, j)
      decreases TABLE_ROW_SIZE - j
    {
      var same := KeyEquals(buf, j, key, r);
      if same {
        UpdateInRow(buf, j, v, r);
        return false;
      }
      j := j + 1;
      if j == TABLE_ROW_SIZE {
        return true;
      }
      len := ValueLen(buf, j, r);
    }
    InsertInRow(buf, j, key, v, r);
    full := false;
  }

  /** The loop of hash_table_get: the index of the item that holds the key, or TABLE_ROW_SIZE. */
  method FindInRow(buf: array<byte>, key: seq<byte>, ghost r: Row) returns (j: nat)
    requires buf.Length == ROW_LEN && IsRow(r) && buf[..] == EncodeRow(r)
    ensures j <= TABLE_ROW_SIZE
    ensures j < TABLE_ROW_SIZE ==> r[j].Entry? && GetRow(r, key) == Some(r[j].value)
    ensures j == TABLE_ROW_SIZE ==> GetRow(r, key) == None
  {
    j := 0;
    var len := ValueLen(buf, j, r);
    while len != 0
      invariant j < TABLE_ROW_SIZE
      invariant len == 0 <==> r[j].Empty?
      invariant Probe(r, key, 0) == Probe(r, key, j)
      decreases TABLE_ROW_SIZE - j
    {
      var same := KeyEquals(buf, j, key, r);
      if same {
        return;
      }
      j := j + 1;
      if j == TABLE_ROW_SIZE {
        return;
      }
      len := ValueLen(buf, j, r);
    }
    j := TABLE_ROW_SIZE;
  }

  /** memset(p, 0, ITEM_MAX_LEN) */
  method ClearInRow(buf: array<byte>, j: nat, ghost r: Row)
    requires buf.Length == ROW_LEN && j < TABLE_ROW_SIZE && IsRow(r) && buf[..] == EncodeRow(r)
    modifies buf
    ensures IsRow(r[j := Empty])
    ensures buf[..] == EncodeRow(r[j := Empty])
  {
    Memset(buf, ITEM_MAX_LEN * j + 0, 0, ITEM_MAX_LEN);
    assert seq(ITEM_MAX_LEN, _ => 0 as byte) == Zeros(ITEM_MAX_LEN);
    ClearRow(r, j);
  }

  /** The loop of hash_table_rm. */
  method RmInRow(buf: array<byte>, key: seq<byte>, ghost r: Row)
    requires buf.Length == ROW_LEN && IsRow(r) && buf[..] == EncodeRow(r)
    modifies buf
    ensures buf[..] == EncodeRow(RmRow(r, key))
  {
    var j := 0;
    ghost var q := r;
    var len := ValueLen(buf, j, q);
    while len != 0
      invariant 0 <= j < TABLE_ROW_SIZE
      invariant IsRow(q) && buf[..] == EncodeRow(q)
      invariant len == 0 <==> q[j].Empty?
      invariant RmRow(r, key) == RmFrom(q, key, j)
      decreases TABLE_ROW_SIZE - j
    {
      var same := KeyEquals(buf, j, key, q);
      if same {
        ClearInRow(buf, j, q);
        q := q[j := Empty];
      }
      j := j + 1;
      if j == TABLE_ROW_SIZE {
        return;
      }
      len := ValueLen(buf, j, q);
    }
  }

  // ----- the file -----

  /** `kv_file_t` and the file behind it. */
  class KeyValueFile {
    /** The bytes of the file. */
    var data: seq<byte>

    /** The table they encode. */
    ghost var table: Table

    ghost predicate Valid()
      reads this
    {
      IsTable(table) && data == EncodeFile(table)
    }

    /** kv_open on a file that does not exist: create_hash_file writes 384 rows of zeros. */
    constructor ()
      ensures Valid() && table == EmptyTable()
    {
      data := [];
      table := [];
      new;
      var i := 0;
      while i < TABLE_COL_SIZE
        invariant 0 <= i <= TABLE_COL_SIZE && |table| == i
        invariant forall k :: 0 <= k < i ==> table[k] == EmptyRow()
        invariant data == EncodeFile(table)
      {
        EmptyRowIsZeros();
        AppendRow(table, EmptyRow());
        data := data + Zeros(ROW_LEN);
        table := table + [EmptyRow()];
        i := i + 1;
      }
      assert table == EmptyTable();
    }

    /** read_kv_item.  `ok` is false if open, fstat, lseek or read fails. */
    method ReadKvItem(buf: array<byte>, location: nat, ok: bool) returns (ret: int)
      requires buf.Length == ROW_LEN
      modifies buf
      ensures ret == if ok && ROW_LEN * (location + 1) <= |data| then 0 else -1
      ensures ret == 0 ==> buf[..] == data[ROW_LEN * location..ROW_LEN * location + ROW_LEN]
      ensures ret != 0 ==> buf[..] == old(buf[..])
    {
      if !ok || |data| < (location + 1) * ROW_LEN {
        return -1;
      }
      var offset := ROW_LEN * location;
      Store(buf, 0, data[offset..offset + ROW_LEN]);
      assert buf[..] == data[offset..offset + ROW_LEN];
      ret := 0;
    }

    /** write_kv_item */
    method WriteKvItem(buf: array<byte>, location: nat, ok: bool) returns (ret: int)
      requires buf.Length == ROW_LEN
      modifies `data
      ensures ret == if ok && ROW_LEN * (location + 1) <= |old(data)| then 0 else -1
      ensures ret == 0 ==> data == Splice(old(data), ROW_LEN * location, buf[..])
      ensures ret != 0 ==> data == old(data)
    {
      if !ok || |data| < (location + 1) * ROW_LEN {
        return -1;
      }
      data := Splice(data, ROW_LEN * location, buf[..]);
      ret := 0;
    }

    /** The start of the three table functions: hash the key and read its row into a zeroed buffer. */
    method LoadRow(key: array<byte>, ok: bool) returns (buf: array<byte>, i: nat, ret: int)
      requires Valid() && IsCString(key)
      ensures fresh(buf) && buf.Length == ROW_LEN && i == RowOf(CString(key[..]))
      ensures ret == if ok then 0 else -1
      ensures ret == 0 ==> buf[..] == EncodeRow(table[i])
    {
      i := HashGen(key);
      buf := new byte[ROW_LEN](_ => 0);
      RowOfFile(table, i);
      ret := ReadKvItem(buf, i, ok);
    }

    /** The end of put and rm: the row goes back to where it came from. */
    method SaveRow(buf: array<byte>, i: nat, ok: bool, ghost r: Row) returns (ret: int)
      requires Valid() && buf.Length == ROW_LEN && i < TABLE_COL_SIZE && IsRow(r) && buf[..] == EncodeRow(r)
      modifies this
      ensures Valid() && ret == (if ok then 0 else -1)
      ensures table == if ok then old(table)[i := r] else old(table)
    {
      SpliceRow(table, i, r);
      ret := WriteKvItem(buf, i, ok);
      if ret == 0 {
        table := table[i := r];
      }
    }

    /** The first half of hash_table_put: the row with the value in it, cut to what an item can hold, in a buffer. */
    method LoadAndPut(key: array<byte>, val: seq<byte>, ok: bool) returns (buf: array<byte>, i: nat, ret: int)
      requires Valid() && IsCString(key) && val != []
      ensures fresh(buf) && buf.Length == ROW_LEN && i == RowOf(CString(key[..]))
      ensures ret == if ok && PutRow(table[i], CString(key[..]), val).Some? then 0 else -1
      ensures ret == 0 ==> buf[..] == EncodeRow(PutRow(table[i], CString(key[..]), val).value)
    {
      var v := if |val| > ITEM_MAX_VAL_LEN then val[..ITEM_MAX_VAL_LEN] else val;
      buf, i, ret := LoadRow(key, ok);
      PutCut(table[i], CString(key[..]), val);
      if ret == 0 {
        var full := PutInRow(buf, CString(key[..]), v, table[i]);
        ret := if full then -1 else 0;
      }
    }

    /** hash_table_put after its parameter checks. */
    method PutValue(key: array<byte>, val: seq<byte>, io: Io) returns (ret: int)
      requires Valid() && IsCString(key) && val != []
      modifies this
      ensures Valid()
      ensures (table, Reply(ret, [])) == Step(old(table), Call.Set(CString(key[..]), val), io)
    {
      var buf, i, failed := LoadAndPut(key, val, io.readOk);
      if failed != 0 {
        return -1;
      }
      ret := SaveRow(buf, i, io.writeOk, PutRow(table[i], CString(key[..]), val).value);
    }

    /** hash_table_put, as called by HAL_Kv_Set. */
    method Set(key: array?<byte>, val: array?<byte>, len: int, io: Io) returns (ret: int)
      requires Valid()
      requires key != null ==> IsCString(key)
      requires val != null ==> len <= val.Length
      modifies this
      ensures Valid()
      ensures key == null || val == null ==> ret == -1 && table == old(table)
      ensures key != null && val != null ==>
                var v := if len > 0 then val[..len] else [];
                (table, Reply(ret, [])) == Step(old(table), Call.Set(CString(key[..]), v), io)
    {
      if key == null || val == null || len <= 0 {
        return -1;
      }
      ret := PutValue(key, val[..len], io);
    }

    /** hash_table_get after its parameter checks: the item's index in the row, and the row. */
    method FindItem(key: array<byte>, ok: bool) returns (buf: array<byte>, j: nat, ghost r: Row)
      requires Valid() && IsCString(key)
      ensures fresh(buf) && j <= TABLE_ROW_SIZE && r == table[RowOf(CString(key[..]))]
      ensures j < TABLE_ROW_SIZE ==>
                && ok && buf.Length == ROW_LEN && buf[..] == EncodeRow(r)
                && r[j].Entry? && GetRow(r, CString(key[..])) == Some(r[j].value)
      ensures j == TABLE_ROW_SIZE ==> !ok || GetRow(r, CString(key[..])) == None
    {
      var i, failed;
      buf, i, failed := LoadRow(key, ok);
      r := table[i];
      if failed != 0 {
        return buf, TABLE_ROW_SIZE, r;
      }
      j := FindInRow(buf, CString(key[..]), r);
    }

    /** hash_table_get, as called by HAL_Kv_Get.  `len` is what the length pointer points to, None for NULL; n is what it
        points to afterwards. */
    method Get(key: array?<byte>, val: array?<byte>, len: Option<int>, io: Io) returns (ret: int, n: Option<int>)
      requires Valid()
      requires key != null ==> IsCString(key)
      requires val != null && len.Some? ==> len.value <= val.Length
      modifies if val == null then {} else {val}
      ensures Valid() && table == old(table)
      ensures key == null || val == null || len == None ==> ret == -1
      ensures key != null && val != null && len.Some? ==>
                ret == Step(table, Call.Get(old(CString(key[..])), len.value), io).1.ret
      ensures ret != 0 ==> n == len && (val != null ==> val[..] == old(val[..]))
      ensures ret == 0 ==>
                var d := Step(table, Call.Get(old(CString(key[..])), len.value), io).1.data;
                n == Some(|d|) && val[..] == Splice(old(val[..]), 0, d)
      ensures ret == 0 || ret == -1
      ensures ret == 0 ==>
                var s := GetRow(table[RowOf(old(CString(key[..])))], old(CString(key[..])));
                && s.Some? && len.Some? && n.Some? && 0 <= n.value <= val.Length
                && n.value == (if |s.value| < len.value then |s.value| else len.value)
                && val[..n.value] == s.value[..n.value]
                && val[n.value..] == old(val[..])[n.value..]
    {
      n := len;
      if key == null || val == null || len == None || len.value <= 0 {
        return -1, n;
      }
      var buf, j, r := FindItem(key, io.readOk);
      if j == TABLE_ROW_SIZE {
        return -1, n;
      }
      var valueLen := ValueLen(buf, j, r);
      var copied := if valueLen < len.value then valueLen else len.value;
      n := Some(copied);
      var v := ValueOf(buf, j, copied, r);
      assert v == Take(r[j].value, len.value);
      SplicePrefix(val[..], 0, v);
      Store(val, 0, v);
      ret := 0;
    }

    /** hash_table_rm, as called by HAL_Kv_Del. */
    method Del(key: array?<byte>, io: Io) returns (ret: int)
      requires Valid()
      requires key != null ==> IsCString(key)
      modifies this
      ensures Valid()
      ensures key == null ==> ret == -1 && table == old(table)
      ensures key != null ==> (table, Reply(ret, [])) == Step(old(table), Call.Del(CString(key[..])), io)
    {
      if key == null {
        return -1;
      }
      var buf, i, failed := LoadRow(key, io.readOk);
      if failed != 0 {
        return -1;
      }
      ghost var r := table[i];
      RmInRow(buf, CString(key[..]), r);
      ret := SaveRow(buf, i, io.writeOk, RmRow(r, CString(key[..])));
    }
  }

  /** Cutting the value first makes no difference. */
  lemma PutCut(r: Row, key: seq<byte>, v: seq<byte>)
    requires IsRow(r) && IsText(key) && v != []
    ensures PutRow(r, key, Cut(v)) == PutRow(r, key, v)
  {
    assert Cut(Cut(v)) == Cut(v);
  }

  lemma EmptyRowIsZeros()
    ensures EncodeRow(EmptyRow()) == Zeros(ROW_LEN)
  {
  }

  lemma AppendRow(t: Table, r: Row)
    requires (forall i :: 0 <= i < |t| ==> IsRow(t[i])) && IsRow(r)
    ensures EncodeFile(t + [r]) == EncodeFile(t) + EncodeRow(r)
  {
    assert RowBytes(t + [r])[..|t|] == RowBytes(t);
  }
}
