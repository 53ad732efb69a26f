/** What `HAL_Kv_Del` keeps and what it hides. */
module KvDelete {
  import opened Words
  import opened CStrings
  import opened KvLayout
  import opened KvTable
  import opened KvMap

  /** From every table, Del(k) makes the next Get(k) miss. */
  lemma DelThenGetMisses(t: Table, key: seq<byte>, size: int)
    requires IsTable(t) && IsText(key)
    ensures var (u, r) := Step(t, Del(key), Io(true, true));
            r == OK && Step(u, Get(key, size), Io(true, true)).1 == FAIL
  {
    var i := RowOf(key);
    var q := RmRow(t[i], key);
    RmRowIs(t[i], key);
    ProbeFrom0(q, key);
  }

  /** A deletion that leaves an empty slot in front of another key.  Where keys are distinct that is every hole. */
  predicate HidesOther(r: Row, key: seq<byte>)
    requires |r| == TABLE_ROW_SIZE
  {
    MakesHole(r, key) && r[1].key != key
  }

  /** From every row, with holes, duplicates and foreign keys or not, every other key is still found as before if and only
      if the deletion leaves no empty slot in front of it. */
  lemma DelKeepsOthers(r: Row, key: seq<byte>)
    requires IsRow(r)
    ensures (forall k :: k != key ==> GetRow(RmRow(r, key), k) == GetRow(r, k)) <==> !HidesOther(r, key)
  {
    var q := RmRow(r, key);
    RmRowIs(r, key);
    if HidesOther(r, key) {
      var k := r[1].key;
      ProbeFrom0(r, k);
      ProbeFrom0(q, k);
      assert k != key && GetRow(q, k) != GetRow(r, k);
    } else {
      forall k | k != key
        ensures GetRow(q, k) == GetRow(r, k)
      {
        ProbeFrom0(r, k);
        ProbeFrom0(q, k);
      }
    }
  }

  /** The entry behind a hole is hidden, and comes back with its old value as soon as another key fills the hole. */
  lemma HiddenEntryReappears(r: Row, key: seq<byte>, newKey: seq<byte>, v: seq<byte>)
    requires IsRow(r) && HidesOther(r, key) && IsText(newKey) && v != []
    requires Stored(newKey, ITEM_MAX_KEY_LEN - 1) != r[1].key
    ensures var q := RmRow(r, key);
            && GetRow(q, r[1].key) == None
            && PutRow(q, newKey, v).Some?
            && GetRow(PutRow(q, newKey, v).value, r[1].key) == Some(r[1].value)
  {
    var q := RmRow(r, key);
    RmRowIs(r, key);
    ProbeFrom0(q, r[1].key);
    ProbeFrom0(q, newKey);
    var p := PutRow(q, newKey, v).value;
    ProbeFrom0(p, r[1].key);
  }

  /** Setting the hidden key itself stores it twice; Get sees the new value, and one Del removes both copies. */
  lemma HiddenKeySetTwice(r: Row, key: seq<byte>, v: seq<byte>)
    requires IsRow(r) && HidesOther(r, key) && v != []
    ensures var k := r[1].key;
            var o := PutRow(RmRow(r, key), k, v);
            && o == Some([Entry(k, Cut(v)), r[1]])
            && GetRow(o.value, k) == Some(Cut(v))
            && RmRow(o.value, k) == EmptyRow()
  {
    var k := r[1].key;
    var q := RmRow(r, key);
    RmRowIs(r, key);
    ProbeFrom0(q, k);
    assert IsSlot(r[1]);
    var p: Row := [Entry(k, Cut(v)), r[1]];
    assert q[0 := Entry(Stored(k, ITEM_MAX_KEY_LEN - 1), Cut(v))] == p;
    ProbeFrom0(p, k);
    RmRowIs(p, k);
  }

  const WORKS := Io(true, true)

  /** HAL_Kv_Del answers 0 whenever the row can be read and written, whether the key is stored or not, and from every
      table, with holes or not, it changes the table if and only if the key was found. */
  lemma DelAnswers(t: Table, key: seq<byte>, io: Io)
    requires IsTable(t) && IsText(key)
    ensures var (u, r) := Step(t, Del(key), io);
            && r.ret == (if io.readOk && io.writeOk then 0 else -1)
            && (u != t <==> io.readOk && io.writeOk && Lookup(t, key).Some?)
  {
    var i := RowOf(key);
    RmRowIs(t[i], key);
    ProbeFrom0(t[i], key);
    assert t[i] == [t[i][0], t[i][1]];
    assert t[i := RmRow(t[i], key)][i] == RmRow(t[i], key);
  }

  // ----- whether a deleted key stays away -----

  predicate NoCopy(r: Row, key: seq<byte>)
    requires |r| == TABLE_ROW_SIZE
  {
    !HoldsKey(r[0], key) && !HoldsKey(r[1], key)
  }

  /** The key is stored behind an empty slot. */
  predicate IsHidden(r: Row, key: seq<byte>)
    requires |r| == TABLE_ROW_SIZE
  {
    r[0].Empty? && HoldsKey(r[1], key)
  }

  /** No copy of the key is left in the row if and only if it was not hidden there. */
  lemma RmLeavesNoCopy(r: Row, key: seq<byte>)
    requires IsRow(r)
    ensures NoCopy(RmRow(r, key), key) <==> !IsHidden(r, key)
  {
    RmRowIs(r, key);
  }

  /** A Set that stores its value under this key: the key itself, or one of 128 bytes or more that begins with it and
      hashes to its row. */
  predicate Stores(c: Call, key: seq<byte>) {
    c.Set? && Stored(c.key, ITEM_MAX_KEY_LEN - 1) == key && RowOf(c.key) == RowOf(key)
  }

  ghost predicate Spares(jobs: seq<Job>, key: seq<byte>) {
    AreTexts(jobs) && forall i :: 0 <= i < |jobs| ==> !Stores(jobs[i].call, key)
  }

  lemma StepLeavesNoCopy(t: Table, c: Call, io: Io, key: seq<byte>)
    requires IsTable(t) && IsText(c.key) && !Stores(c, key) && NoCopy(t[RowOf(key)], key)
    ensures NoCopy(Step(t, c, io).0[RowOf(key)], key)
  {
    var i := RowOf(key);
    if RowOf(c.key) == i {
      ProbeFrom0(t[i], c.key);
      RmRowIs(t[i], c.key);
      assert IsSlot(t[i][0]) && IsSlot(t[i][1]);
    }
  }

  lemma {:induction false} RunLeavesNoCopy(t: Table, jobs: seq<Job>, key: seq<byte>)
    requires IsTable(t) && Spares(jobs, key) && NoCopy(t[RowOf(key)], key)
    ensures NoCopy(Run(t, jobs).0[RowOf(key)], key)
    decreases |jobs|
  {
    if jobs != [] {
      var n := |jobs| - 1;
      RunLeavesNoCopy(t, jobs[..n], key);
      StepLeavesNoCopy(Run(t, jobs[..n]).0, jobs[n].call, jobs[n].io, key);
    }
  }

  /** After a Del a key stays away, whatever is called that does not store it again, if and only if it was not hidden
      when it was deleted: the Del of a hidden key answers 0, and the next Set that fills the hole brings the key back. */
  lemma StaysAway(t: Table, key: seq<byte>)
    requires IsTable(t) && IsText(key)
    ensures var u := Step(t, Del(key), WORKS).0;
            (forall jobs :: Spares(jobs, key) ==> Lookup(Run(u, jobs).0, key) == None) <==> !IsHidden(t[RowOf(key)], key)
  {
    var i := RowOf(key);
    var u := Step(t, Del(key), WORKS).0;
    RmLeavesNoCopy(t[i], key);
    if IsHidden(t[i], key) {
      RmRowIs(t[i], key);
      assert u == t;
      BroughtBack(t, key);
    } else {
      forall jobs | Spares(jobs, key)
        ensures Lookup(Run(u, jobs).0, key) == None
      {
        RunLeavesNoCopy(u, jobs, key);
        ProbeFrom0(Run(u, jobs).0[i], key);
      }
    }
  }

  /** The Set that brings a hidden key back: every key has neighbours in its row. */
  lemma {:induction false} BroughtBack(t: Table, key: seq<byte>)
    requires IsTable(t) && IsText(key) && IsHidden(t[RowOf(key)], key)
    ensures exists jobs :: Spares(jobs, key) && Lookup(Run(t, jobs).0, key) == Some(t[RowOf(key)][1].value)
  {
    var i, other := RowOf(key), Neighbour(key);
    NeighbourSharesRow(key);
    var job := Job(Set(other, [1]), WORKS);
    RunOne(t, job);
    ProbeFrom0(t[i], other);
    var u := Step(t, job.call, job.io).0;
    var first := Entry(Stored(other, ITEM_MAX_KEY_LEN - 1), [1]);
    assert u[i] == t[i][0 := first];
    ProbeFrom0(u[i], key);
    assert Spares([job], key) && Lookup(Run(t, [job]).0, key) == Some(t[i][1].value);
  }

  /** Another key of the same row: two bytes in front that count nothing, the first of them not the key's own. */
  function Neighbour(key: seq<byte>): (k: seq<byte>)
    requires IsText(key)
    ensures IsText(k)
  {
    if key != [] && key[0] == 1 then [2, 190] + key else [1, 223] + key
  }

  lemma {:induction false} PolyBehindNothing(p: seq<byte>, key: seq<byte>)
    requires Poly(p) == 0
    ensures Poly(p + key) == Poly(key)
    decreases |key|
  {
    if key == [] {
      assert p + key == p;
    } else {
      var n := |key| - 1;
      PolyBehindNothing(p, key[..n]);
      PolySnoc(p + key[..n], key[n]);
      assert p + key == p + key[..n] + [key[n]];
    }
  }

  lemma NeighbourSharesRow(key: seq<byte>)
    requires IsText(key)
    ensures var k := Neighbour(key);
            RowOf(k) == RowOf(key) && Stored(k, ITEM_MAX_KEY_LEN - 1) != key
  {
    PolySnoc([], 1);
    PolySnoc([1], 223);
    PolySnoc([], 2);
    PolySnoc([2], 190);
    assert [] + [1] == [1] && [1] + [223] == [1, 223] && [] + [2] == [2] && [2] + [190] == [2, 190];
    PolyBehindNothing([1, 223], key);
    PolyBehindNothing([2, 190], key);
    var k := Stored(Neighbour(key), ITEM_MAX_KEY_LEN - 1);
    assert k != [] && (key != [] ==> k[0] != key[0]);
  }

  // ----- inputs that show it -----

  /** Two different keys of one row, set in this order in the created file: deleting the first hides the second, which
      is back when the first is set again; deleting the second leaves the first alone. */
  lemma FirstDeletedHidesSecond(k0: seq<byte>, v0: seq<byte>, k1: seq<byte>, v1: seq<byte>, size: int)
    requires IsKey(k0) && IsKey(k1) && k0 != k1 && RowOf(k0) == RowOf(k1)
    requires v0 != [] && v1 != [] && size > 0
    ensures var t := Step(Step(EmptyTable(), Set(k0, v0), WORKS).0, Set(k1, v1), WORKS).0;
            var u := Step(t, Del(k0), WORKS).0;
            && Good(t) && MakesHole(t[RowOf(k0)], k0)
            && Step(t, Get(k1, size), WORKS).1 == Reply(0, Take(Cut(v1), size))
            && Step(u, Get(k1, size), WORKS).1 == FAIL
            && Step(Step(u, Set(k0, v0), WORKS).0, Get(k1, size), WORKS).1 == Reply(0, Take(Cut(v1), size))
            && Step(Step(t, Del(k1), WORKS).0, Get(k0, size), WORKS).1 == Reply(0, Take(Cut(v0), size))
  {
    var i := RowOf(k0);
    var e0, e1 := Entry(k0, Cut(v0)), Entry(k1, Cut(v1));
    var t1 := Step(EmptyTable(), Set(k0, v0), WORKS).0;
    ProbeFrom0(EmptyRow(), k0);
    assert t1[i] == [e0, Empty];
    var t := Step(t1, Set(k1, v1), WORKS).0;
    ProbeFrom0(t1[i], k1);
    assert t[i] == [e0, e1];
    ProbeFrom0(t[i], k1);
    RmRowIs(t[i], k0);
    RmRowIs(t[i], k1);
    var u := Step(t, Del(k0), WORKS).0;
    assert u[i] == [Empty, e1];
    ProbeFrom0(u[i], k0);
    ProbeFrom0(u[i], k1);
    assert Step(u, Set(k0, v0), WORKS).0[i] == [e0, e1];
    ProbeFrom0([e0, Empty], k0);
  }

  /** Delete them both, in this order: the second Del answers 0 and the next Get misses, and when the first key is set
      again the deleted second one is back with its old value. */
  lemma DeletedComesBack(k0: seq<byte>, v0: seq<byte>, k1: seq<byte>, v1: seq<byte>, size: int)
    requires IsKey(k0) && IsKey(k1) && k0 != k1 && RowOf(k0) == RowOf(k1)
    requires v0 != [] && v1 != [] && size > 0
    ensures var t := Step(Step(EmptyTable(), Set(k0, v0), WORKS).0, Set(k1, v1), WORKS).0;
            var (u, r) := Step(Step(t, Del(k0), WORKS).0, Del(k1), WORKS);
            && r == OK && Step(u, Get(k1, size), WORKS).1 == FAIL
            && Step(Step(u, Set(k0, v0), WORKS).0, Get(k1, size), WORKS).1 == Reply(0, Take(Cut(v1), size))
  {
    FirstDeletedHidesSecond(k0, v0, k1, v1, size);
    var t := Step(Step(EmptyTable(), Set(k0, v0), WORKS).0, Set(k1, v1), WORKS).0;
    var u := Step(t, Del(k0), WORKS).0;
    assert Step(u, Get(k1, size), WORKS).1 == FAIL;
    DelAnswers(u, k1, WORKS);
    assert Step(u, Del(k1), WORKS).0 == u;
  }

  /** Such keys exist: "Ad" and "da". */
  lemma KeysShareARow()
    ensures var k0, k1 := [65, 100], [100, 97];
            IsKey(k0) && IsKey(k1) && k0 != k1 && RowOf(k0) == RowOf(k1)
  {
    var k0, k1: seq<byte> := [65, 100], [100, 97];
    assert k0[..1] == [65] && k1[..1] == [100];
    assert Poly([65]) == 33 * Poly([65][..0]) + 65 == 65 && Poly([100]) == 33 * Poly([100][..0]) + 100 == 100;
    assert Poly(k0) == 2245 && Poly(k1) == 3397;
    assert k0[0] != k1[0];
  }

  /** So there is a good table in which a deletion makes a hole. */
  lemma HoleHappens()
    ensures exists t: Table, key: seq<byte> :: Good(t) && IsKey(key) && MakesHole(t[RowOf(key)], key)
  {
    KeysShareARow();
    FirstDeletedHidesSecond([65, 100], [1], [100, 97], [1], 1);
  }

  /** A key of 128 bytes: Set answers 0, and the Get that follows misses. */
  lemma LongKeyLost(v: seq<byte>, size: int)
    requires v != [] && size > 0
    ensures var key := seq(128, _ => 97);
            var (t, r) := Step(EmptyTable(), Set(key, v), WORKS);
            && IsText(key) && r == OK
            && Step(t, Get(key, size), WORKS).1 == FAIL
  {
    var key: seq<byte> := seq(128, _ => 97);
    ProbeFrom0(EmptyRow(), key);
    SetThenGet(EmptyTable(), key, v, size, WORKS);
  }

  // ----- the shadow of a key that is too long -----

  /** A successful Set of a key of 128 bytes or more stores the value under the key's first 127 bytes, in the row of the
      whole key.  Another caller's Get of those 127 bytes finds it if and only if they hash to the same row and were not
      stored before; no other key's Get changes.  Exactly then the table keeps its invariant. */
  lemma LongKeyShadow(t: Table, key: seq<byte>, v: seq<byte>, io: Io)
    requires Good(t) && IsText(key) && |key| >= ITEM_MAX_KEY_LEN
    requires Step(t, Set(key, v), io).1 == OK
    ensures var u, short := Step(t, Set(key, v), io).0, key[..ITEM_MAX_KEY_LEN - 1];
            var seen := RowOf(short) == RowOf(key) && Lookup(t, short) == None;
            && Lookup(u, short) == (if seen then Some(Cut(v)) else Lookup(t, short))
            && (forall k :: k != short ==> Lookup(u, k) == Lookup(t, k))
            && (Good(u) <==> seen)
  {
    var i, short := RowOf(key), key[..ITEM_MAX_KEY_LEN - 1];
    var u := Step(t, Set(key, v), io).0;
    var r, q := t[i], u[i];
    assert IsSlot(r[0]) && IsSlot(r[1]);
    ProbeFrom0(r, key);
    var s := Probe(r, key, 0);
    assert r[s].Empty? && q == r[s := Entry(short, Cut(v))];
    forall k
      ensures Lookup(u, k) == if k == short && RowOf(k) == i && Lookup(t, k) == None then Some(Cut(v)) else Lookup(t, k)
    {
      ProbeFrom0(r, k);
      ProbeFrom0(q, k);
    }
    ProbeFrom0(r, short);
    assert GoodRow(q, i) <==> RowOf(short) == i && GetRow(r, short) == None;
    assert forall k :: 0 <= k < |t| && k != i ==> u[k] == t[k];
  }

  /** A text of 2 n bytes whose polynomial is 0: the second byte of a pair counts as -33. */
  function Pairs(n: nat): (s: seq<byte>)
    ensures |s| == 2 * n && IsText(s)
  {
    if n == 0 then [] else Pairs(n - 1) + [1, 223]
  }

  lemma {:induction false} PairsPoly(n: nat)
    ensures Poly(Pairs(n)) == 0
  {
    if n > 0 {
      PairsPoly(n - 1);
      PolySnoc(Pairs(n - 1), 1);
      PolySnoc(Pairs(n - 1) + [1], 223);
      assert Pairs(n) == Pairs(n - 1) + [1] + [223];
    }
  }

  /** 127 bytes, and 128 that begin with them and hash to the same row. */
  function Short(): (k: seq<byte>)
    ensures IsKey(k) && |k| == 127
  {
    Pairs(63) + [1]
  }

  lemma ShortAndLong()
    ensures IsText(Short() + [224]) && RowOf(Short() + [224]) == RowOf(Short())
  {
    PairsPoly(63);
    PolySnoc(Pairs(63), 1);
    PolySnoc(Short(), 224);
    assert Poly(Short()) == 1 == Poly(Short() + [224]);
  }

  /** It happens: a Set of a certain key of 128 bytes in the created file answers 0, and Get then finds the value under
      the key's first 127 bytes. */
  lemma ShadowSeen(v: seq<byte>, size: int)
    requires v != [] && size > 0
    ensures var (t, r) := Step(EmptyTable(), Set(Short() + [224], v), WORKS);
            && IsText(Short() + [224]) && r == OK
            && Step(t, Get(Short(), size), WORKS).1 == Reply(0, Take(Cut(v), size))
  {
    var short, key := Short(), Short() + [224];
    ShortAndLong();
    ProbeFrom0(EmptyRow(), key);
    ProbeFrom0(EmptyRow(), short);
    EmptyTableAgrees();
    LongKeyShadow(EmptyTable(), key, v, WORKS);
    assert key[..ITEM_MAX_KEY_LEN - 1] == short;
  }
}
